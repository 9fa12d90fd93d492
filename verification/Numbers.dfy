/** Number printing: std/string/itoa.c with std/math/pow.c, in 32-bit arithmetic. */
module Numbers {
  import opened Arithmetic
  import opened Displays
  import M = Machine

  type U32 = M.U32

  // ---- powers ----

  function Power(b: nat, e: nat): nat {
    if e == 0 then 1 else b * Power(b, e - 1)
  }

  /** pow: `unsigned long` is 32 bits wide, and a zero base gives 1. */
  function Pow(number: U32, degree: nat): U32 {
    if number == 0 || degree == 0 then 1 else number * Pow(number, degree - 1) % 0x1_0000_0000
  }

  lemma {:induction false} PowerPositive(b: nat, e: nat)
    requires 1 <= b
    ensures 1 <= Power(b, e)
  {
    if e == 0 {
    } else {
      PowerPositive(b, e - 1);
      MulMono(1, b, Power(b, e - 1));
    }
  }

  /** pow is exact as long as the power fits 32 bits. */
  lemma {:induction false} PowExact(b: U32, e: nat)
    requires 1 <= b && Power(b, e) < 0x1_0000_0000
    ensures Pow(b, e) == Power(b, e)
  {
    if e == 0 {
    } else {
      PowerPositive(b, e - 1);
      MulMono(1, b, Power(b, e - 1));
      PowExact(b, e - 1);
    }
  }

  // ---- digits ----

  /** Number of digits; 0 has none. */
  function DigitCount(n: nat, base: nat): nat
    requires base >= 2
  {
    if n == 0 then 0 else 1 + DigitCount(n / base, base)
  }

  lemma {:induction false} DigitCountBounds(n: nat, base: nat)
    requires base >= 2
    ensures n < Power(base, DigitCount(n, base))
    ensures n > 0 ==> Power(base, DigitCount(n, base) - 1) <= n
  {
    if n == 0 {
    } else {
      var q, d := n / base, DigitCount(n / base, base);
      DigitCountStep(n, base, q);
      DigitCountBounds(q, base);
      assert n < Power(base, d + 1) && Power(base, d) <= n by {
        var q', r := Divide(n, base);
        StepBounds(n, q, r, base, d);
      }
    }
  }

  lemma StepBounds(n: nat, q: nat, r: nat, base: nat, d: nat)
    requires n > 0 && r < base && n == q * base + r && q < Power(base, d)
    requires q == 0 ==> d == 0
    requires q > 0 ==> d > 0 && Power(base, d - 1) <= q
    ensures n < Power(base, d + 1) && Power(base, d) <= n
  {
    StepUpper(q, r, base, Power(base, d));
    if q > 0 {
      StepLower(q, r, base, Power(base, d - 1));
    }
  }

  lemma StepUpper(q: nat, r: nat, base: nat, p: nat)
    requires q < p && r < base
    ensures q * base + r < base * p
  {
    MulMono(q + 1, p, base);
  }

  lemma StepLower(q: nat, r: nat, base: nat, p: nat)
    requires p <= q
    ensures base * p <= q * base + r
  {
    MulMono(p, q, base);
  }

  /** The cell a digit is printed to: `digit + 'A' - 10` is cut to a byte. */
  function DigitChar(d: nat): Byte {
    if d < 10 then d + 48 else (d + 55) % 256
  }

  /** The last `count` digits of n, most significant first. */
  function Numeral(n: nat, base: nat, count: nat): (s: seq<Byte>)
    requires base >= 2
    ensures |s| == count
  {
    if count == 0 then [] else Numeral(n / base, base, count - 1) + [DigitChar(n % base)]
  }

  /** What itoa writes. */
  function Written(n: U32, base: U32): seq<Byte> {
    if base < 2 then [NUL]
    else if n == 0 then [48, NUL]
    else Numeral(n, base, DigitCount(n, base)) + [NUL]
  }

  /** Splitting n by base * p and the remainder by base is splitting n by base and the quotient by p. */
  lemma SplitTwice(n: nat, base: nat, p: nat, q: nat, r1: nat, r0: nat)
    requires r0 < base && r1 < p && n == q * (base * p) + (r1 * base + r0)
    ensures n / base == q * p + r1 && n % base == r0
    ensures n / base / p == q && n / base % p == r1
  {
    assert n == (q * p + r1) * base + r0;
    DivUnique(n, base, q * p + r1, r0);
    DivUnique(n / base, p, q, r1);
  }

  /** Dividing by the power of the top digit splits that digit off. */
  lemma {:induction false} TopDigit(n: nat, base: nat, count: nat, q: nat, r: nat)
    requires base >= 2 && count >= 1 && q < base && r < Power(base, count - 1)
    requires n == q * Power(base, count - 1) + r
    ensures Numeral(n, base, count) == [DigitChar(q)] + Numeral(r, base, count - 1)
    decreases count
  {
    if count == 1 {
      DivUnique(n, base, 0, q);
    } else {
      var p := Power(base, count - 2);
      var r1, r0 := Divide(r, base);
      if r1 >= p {
        StepLower(r1, r0, base, p);
      }
      SplitTwice(n, base, p, q, r1, r0);
      TopDigit(n / base, base, count - 1, q, r1);
    }
  }

  // ---- the code ----

  lemma DigitCountStep(n: nat, base: nat, q: nat)
    requires base >= 2 && n > 0 && q == n / base
    ensures DigitCount(n, base) == 1 + DigitCount(q, base) && q < n
  {
    var d, r := Divide(n, base);
    MulMono(2, base, q);
  }

  /** get_digits: d is the number of digits iff base^(d-1) <= number < base^d. */
  method GetDigits(number: U32, base: U32) returns (digits: nat)
    requires base >= 2
    ensures digits == DigitCount(number, base)
    ensures number < Power(base, digits) && (number > 0 ==> digits > 0 && Power(base, digits - 1) <= number)
  {
    digits := 0;
    var n: nat := number;
    while n > 0
      invariant n < 0x1_0000_0000
      invariant digits + DigitCount(n, base) == DigitCount(number, base)
    {
      DigitCountStep(n, base, n / base);
      n, digits := n / base, digits + 1;
    }
    DigitCountBounds(number, base);
  }

  /** The caller's array has room for the digits and the NUL. */
  method Itoa(number: U32, str: array<Byte>, base: U32)
    requires str.Length >= |Written(number, base)|
    modifies str
    ensures str[..] == Written(number, base) + old(str[..])[|Written(number, base)|..]
  {
    if base < 2 {
      str[0] := NUL;
      return;
    }
    if number == 0 {
      str[0] := 48;
      str[1] := NUL;
      return;
    }
    var digits := GetDigits(number, base);
    WriteDigits(number, str, base, digits);
    str[digits] := NUL;
  }

  /** The digit loop of itoa. */
  method WriteDigits(number: U32, str: array<Byte>, base: U32, count: nat)
    requires base >= 2 && number < Power(base, count) && 1 <= count < str.Length
    requires Power(base, count - 1) <= number
    modifies str
    ensures str[..count] == Numeral(number, base, count)
    ensures str[count..] == old(str[count..])
  {
    var cur: nat, num: U32, digits: nat := 0, number, count;
    while digits > 0
      invariant cur + digits == count
      invariant num < Power(base, digits)
      invariant str[..cur] + Numeral(num, base, digits) == Numeral(number, base, count)
      invariant str[count..] == old(str[count..])
    {
      var digit, rest := NextDigit(number, num, base, digits, count);
      ghost var printed := str[..cur];
      assert Numeral(number, base, count) == printed + [DigitChar(digit)] + Numeral(rest, base, digits - 1);
      str[cur] := DigitChar(digit);
      assert str[..cur + 1] == printed + [DigitChar(digit)];
      cur := cur + 1;
      num := rest;
      digits := digits - 1;
    }
  }

  /** The quotient and the remainder by the power of the current place. */
  method NextDigit(ghost number: U32, num: U32, base: U32, digits: nat, ghost count: nat)
    returns (digit: U32, rest: U32)
    requires base >= 2 && 1 <= digits <= count && num < Power(base, digits) && Power(base, count - 1) <= number
    ensures digit < base && rest < Power(base, digits - 1)
    ensures Numeral(num, base, digits) == [DigitChar(digit)] + Numeral(rest, base, digits - 1)
  {
    var p := Pow(base, digits - 1);
    DigitStep(number, num, base, digits, count, p);
    digit, rest := num / p, num % p;
  }

  lemma DigitStep(number: U32, num: U32, base: U32, digits: nat, count: nat, p: U32)
    requires base >= 2 && 1 <= digits <= count && num < Power(base, digits) && Power(base, count - 1) <= number
    requires p == Pow(base, digits - 1)
    ensures p == Power(base, digits - 1) && p > 0 && 0 <= num / p < base && num % p < p
    ensures Numeral(num, base, digits) == [DigitChar(num / p)] + Numeral(num % p, base, digits - 1)
  {
    PlaceFits(number, base, digits - 1, count - 1);
    PowExact(base, digits - 1);
    SplitTop(num, base, digits, p);
  }

  /** The powers that itoa divides by do not wrap around. */
  lemma {:induction false} PlaceFits(n: U32, base: nat, e: nat, top: nat)
    requires base >= 2 && e <= top && Power(base, top) <= n
    ensures 1 <= Power(base, e) < 0x1_0000_0000
  {
    PowerPositive(base, e);
    PowerGrows(base, e, top);
  }

  lemma {:induction false} PowerGrows(b: nat, e: nat, f: nat)
    requires 1 <= b && e <= f
    ensures Power(b, e) <= Power(b, f)
  {
    if e == f {
    } else {
      PowerGrows(b, e, f - 1);
      MulMono(1, b, Power(b, f - 1));
    }
  }

  /** Each quotient is a digit below the base, and the remainder is what is left to print. */
  lemma SplitTop(num: nat, base: nat, digits: nat, p: nat)
    requires base >= 2 && digits >= 1 && num < Power(base, digits) && p == Power(base, digits - 1)
    ensures p > 0 && 0 <= num / p < base && num % p < p
    ensures Numeral(num, base, digits) == [DigitChar(num / p)] + Numeral(num % p, base, digits - 1)
  {
    PowerPositive(base, digits - 1);
    var q, r := Divide(num, p);
    SplitTopInto(num, base, digits, p, q, r);
  }

  lemma SplitTopInto(num: nat, base: nat, digits: nat, p: nat, q: nat, r: nat)
    requires base >= 2 && digits >= 1 && num < Power(base, digits) && p == Power(base, digits - 1)
    requires num == q * p + r && r < p
    ensures q < base
    ensures Numeral(num, base, digits) == [DigitChar(q)] + Numeral(r, base, digits - 1)
  {
    if q >= base {
      StepLower(q, r, p, base);
    }
    TopDigit(num, base, digits, q, r);
  }

  // ---- reading back ----

  function DigitValue(c: Byte): int {
    if c < 58 then c - 48 else c - 55
  }

  function Parse(s: seq<Byte>, base: nat): int {
    if s == [] then 0 else Parse(s[..|s| - 1], base) * base + DigitValue(s[|s| - 1])
  }

  /** Up to base 201 every digit is a printable cell of its own. */
  lemma {:induction false} ParseNumeral(n: nat, base: nat, count: nat)
    requires 2 <= base <= 201 && n < Power(base, count)
    ensures Parse(Numeral(n, base, count), base) == n
    ensures NUL !in Numeral(n, base, count)
    decreases count
  {
    if count == 0 {
    } else {
      var q, r := Divide(n, base);
      if q >= Power(base, count - 1) {
        StepLower(q, r, base, Power(base, count - 1));
      }
      ParseNumeral(q, base, count - 1);
      ParseAppend(Numeral(q, base, count - 1), base, r);
    }
  }

  lemma ParseAppend(s: seq<Byte>, base: nat, r: nat)
    requires r < base <= 201
    ensures Parse(s + [DigitChar(r)], base) == Parse(s, base) * base + r && DigitChar(r) != NUL
  {
    assert (s + [DigitChar(r)])[..|s|] == s;
  }

  lemma TextOfTerminated(s: seq<Byte>)
    requires NUL !in s
    ensures NUL in s + [NUL] && Text(s + [NUL]) == s
  {
    TextIs(s + [NUL], s);
  }

  /** Does the printed string of n, read back in the same base, give n? */
  ghost predicate RoundTrips(n: U32, base: U32) {
    NUL in Written(n, base) && Parse(Text(Written(n, base)), base) == n
  }

  lemma RoundTrip(n: U32, base: U32)
    requires 2 <= base <= 201
    ensures RoundTrips(n, base)
  {
    if n == 0 {
      assert Written(n, base) == [48] + [NUL];
      TextOfTerminated([48]);
      assert Parse([48], base) == Parse([], base) * base + 0;
    } else {
      DigitCountBounds(n, base);
      ParseNumeral(n, base, DigitCount(n, base));
      TextOfTerminated(Numeral(n, base, DigitCount(n, base)));
    }
  }

  /** itoa prints every 32-bit number so that it can be read back iff the base is at most 201. */
  lemma RoundTripIff(base: U32)
    requires base >= 2
    ensures (forall n: U32 :: RoundTrips(n, base)) <==> base <= 201
  {
    if base <= 201 {
      forall n: U32 ensures RoundTrips(n, base) {
        RoundTrip(n, base);
      }
    } else {
      assert DigitCount(201, base) == 1;
      assert Written(201, base) == [0, 0];
      assert !RoundTrips(201, base);
    }
  }

  /** So distinct numbers print differently. */
  lemma WrittenInjective(n: U32, m: U32, base: U32)
    requires 2 <= base <= 201 && Written(n, base) == Written(m, base)
    ensures n == m
  {
    RoundTrip(n, base);
    RoundTrip(m, base);
  }

  lemma FirstDigit(n: nat, base: nat, d: nat, q: nat, r: nat)
    requires 2 <= base <= 201 && d >= 1 && Power(base, d - 1) <= n < Power(base, d)
    requires n == q * Power(base, d - 1) + r && r < Power(base, d - 1)
    ensures Numeral(n, base, d)[0] != 48
  {
    SplitTopInto(n, base, d, Power(base, d - 1), q, r);
    assert q != 0;
  }

  /** No leading zero, and exactly the digits and a NUL are written. */
  lemma NoLeadingZero(n: U32, base: U32)
    requires 2 <= base <= 201 && n > 0
    ensures |Written(n, base)| == DigitCount(n, base) + 1
    ensures Written(n, base)[0] != 48
  {
    DigitCountBounds(n, base);
    var d := DigitCount(n, base);
    var p := Power(base, d - 1);
    PowerPositive(base, d - 1);
    var q, r := Divide(n, p);
    FirstDigit(n, base, d, q, r);
  }

  // ---- cell by cell ----

  /** The digit of n at place k is n divided by the k-th power of the base, and then the remainder by the base. */
  lemma {:induction false} DigitAt(n: nat, base: nat, count: nat, k: nat)
    requires base >= 2 && k < count && Power(base, k) > 0
    ensures Numeral(n, base, count)[count - 1 - k] == DigitChar(n / Power(base, k) % base)
    decreases count
  {
    if k == 0 {
    } else {
      PowerPositive(base, k - 1);
      DigitAt(n / base, base, count - 1, k - 1);
      DivideTwice(n, base, Power(base, k - 1));
    }
  }

  lemma DivideTwice(n: nat, b: nat, p: nat)
    requires b > 0 && p > 0
    ensures b * p > 0 && n / (b * p) == n / b / p
  {
    var q, r0 := Divide(n, b);
    var q', r1 := Divide(q, p);
    MulMono(r1 + 1, p, b);
    assert n == q' * (b * p) + (r1 * b + r0);
    DivUnique(n, b * p, q', r1 * b + r0);
  }

  /**
   Every cell in numbers: '0' is 48 and 'A' is 65, the digit of place k stands k cells in front of the last one, and
   behind the last comes the NUL.
   */
  lemma CellsInNumbers(n: U32, base: U32, k: nat)
    requires base >= 2 && 0 < Power(base, k) <= n
    ensures
      var (w, q) := (Written(n, base), n / Power(base, k) % base);
      && k + 2 <= |w| && w[|w| - 1] == 0
      && (q < 10 ==> w[|w| - 2 - k] == 48 + q)
      && (10 <= q < 201 ==> w[|w| - 2 - k] == 65 + (q - 10))
      && (201 <= q ==> w[|w| - 2 - k] == (q - 201) % 256)
  {
    var d := DigitCount(n, base);
    DigitCountBounds(n, base);
    if d <= k {
      PowerGrows(base, d, k);
    }
    DigitAt(n, base, d, k);
  }

  /** Zero has one digit, and to a base below 2 nothing but the NUL is written. */
  lemma EdgesInNumbers(base: U32)
    ensures base >= 2 ==> Written(0, base) == [48, 0]
    ensures forall n: U32 :: base < 2 ==> Written(n, base) == [0]
  {
  }
}
