/** What the keys of the keyboard do, said key by key, and that every text can be typed with them. */
module KeyMap {
  import opened Displays
  import opened Keyboards
  import opened LineEditing
  import opened Turns

  // ---- key by key ----

  /** The keys between escape and F1 that carry a character. */
  predicate InRows(scan: nat) {
    2 <= scan <= 13 || 16 <= scan <= 27 || 30 <= scan <= 41 || 43 <= scan <= 53 || scan == 57
  }

  /** The byte that pressing this key puts into the ring. */
  function Pushed(k: Keyboard, scan: nat): Byte
    requires k.Valid() && k.input && 0 <= k.tail && scan < 128
  {
    match Handle(k, Event(scan, false))
    case Went(k') => k'.ring[k.tail]
    case Stuck => 0
  }

  /** What is pushed is looked up in one of the two tables. */
  lemma PushesChar(k: Keyboard, scan: nat)
    requires k.Valid() && k.input && 0 <= k.tail && scan < 128 && Types(scan) && scan != SCAN_TAB
    ensures Pushed(k, scan) == Char(scan, k.caps)
    ensures
      var ch := Char(scan, k.caps);
      && 32 <= ch
      && Handle(k, Event(scan, false))
         == Went(k.(ring := k.ring[k.tail := ch], tail := (k.tail + 1) % 128, screen := PutChar(k.screen, ch)))
  {
    CharsPrint(scan, k.caps);
  }

  lemma RowsType(scan: nat)
    requires InRows(scan)
    ensures Types(scan) && scan != SCAN_TAB && Lowercase(scan) <= 126 && Uppercase(scan) <= 126
  {
  }

  lemma LowerTable(scan: nat)
    requires InRows(scan)
    ensures 2 <= scan <= 13 ==> Lowercase(scan) == "1234567890-="[scan - 2] as int
    ensures 16 <= scan <= 27 ==> Lowercase(scan) == "qwertyuiop[]"[scan - 16] as int
    ensures 30 <= scan <= 41 ==> Lowercase(scan) == "asdfghjkl;'`"[scan - 30] as int
    ensures 43 <= scan <= 53 ==> Lowercase(scan) == "\\zxcvbnm,./"[scan - 43] as int
    ensures scan == 57 ==> Lowercase(scan) == ' ' as int
  {
  }

  /** With caps lock off the rows of the keyboard type these characters. */
  lemma LowerRows(k: Keyboard, scan: nat)
    requires k.Valid() && k.input && 0 <= k.tail && InRows(scan) && !k.caps
    ensures 2 <= scan <= 13 ==> Pushed(k, scan) == "1234567890-="[scan - 2] as int
    ensures 16 <= scan <= 27 ==> Pushed(k, scan) == "qwertyuiop[]"[scan - 16] as int
    ensures 30 <= scan <= 41 ==> Pushed(k, scan) == "asdfghjkl;'`"[scan - 30] as int
    ensures 43 <= scan <= 53 ==> Pushed(k, scan) == "\\zxcvbnm,./"[scan - 43] as int
    ensures scan == 57 ==> Pushed(k, scan) == ' ' as int
  {
    RowsType(scan);
    PushesChar(k, scan);
    LowerTable(scan);
  }

  lemma UpperTable(scan: nat)
    requires InRows(scan)
    ensures 2 <= scan <= 13 ==> Uppercase(scan) == "!@#$%^&*()_+"[scan - 2] as int
    ensures 16 <= scan <= 27 ==> Uppercase(scan) == "QWERTYUIOP{}"[scan - 16] as int
    ensures 30 <= scan <= 41 ==> Uppercase(scan) == "ASDFGHJKL:\"~"[scan - 30] as int
    ensures 43 <= scan <= 53 ==> Uppercase(scan) == "|ZXCVBNM<>?"[scan - 43] as int
    ensures scan == 57 ==> Uppercase(scan) == ' ' as int
  {
  }

  /** With caps lock on they type these: shift does nothing, and caps lock takes its place for all keys. */
  lemma UpperRows(k: Keyboard, scan: nat)
    requires k.Valid() && k.input && 0 <= k.tail && InRows(scan) && k.caps
    ensures 2 <= scan <= 13 ==> Pushed(k, scan) == "!@#$%^&*()_+"[scan - 2] as int
    ensures 16 <= scan <= 27 ==> Pushed(k, scan) == "QWERTYUIOP{}"[scan - 16] as int
    ensures 30 <= scan <= 41 ==> Pushed(k, scan) == "ASDFGHJKL:\"~"[scan - 30] as int
    ensures 43 <= scan <= 53 ==> Pushed(k, scan) == "|ZXCVBNM<>?"[scan - 43] as int
    ensures scan == 57 ==> Pushed(k, scan) == ' ' as int
  {
    RowsType(scan);
    PushesChar(k, scan);
    UpperTable(scan);
  }

  /** So with caps lock the letters are 32 less. */
  lemma CapitalsAre32Less(k: Keyboard, scan: nat)
    requires k.Valid() && k.input && 0 <= k.tail && InRows(scan)
    requires 97 <= Pushed(k.(caps := false), scan) <= 122
    ensures Pushed(k.(caps := true), scan) == Pushed(k.(caps := false), scan) - 32
  {
    RowsType(scan);
    PushesChar(k.(caps := false), scan);
    PushesChar(k.(caps := true), scan);
  }

  /** Such a key prints what it pushes, moves tail on by a slot, and changes nothing else. */
  lemma RowKeyStep(k: Keyboard, scan: nat)
    requires k.Valid() && k.input && 0 <= k.tail && InRows(scan)
    ensures
      var ch := Pushed(k, scan);
      && Handle(k, Event(scan, false))
         == Went(k.(ring := k.ring[k.tail := ch], tail := (k.tail + 1) % 128, screen := PutChar(k.screen, ch)))
      && 32 <= ch <= 126
  {
    RowsType(scan);
    PushesChar(k, scan);
  }

  /** Three keys of the number pad type their sign; all others that type anything type codes from 223 on. */
  lemma OtherKeys(k: Keyboard, scan: nat)
    requires k.Valid() && k.input && 0 <= k.tail && scan < 128
    ensures scan == 55 ==> Pushed(k, scan) == '*' as int
    ensures scan == 74 ==> Pushed(k, scan) == '-' as int
    ensures scan == 78 ==> Pushed(k, scan) == '+' as int
    ensures scan == 0 || scan == 54 || 69 <= scan <= 73 || 75 <= scan <= 77 || 79 <= scan <= 86 || 89 <= scan ==>
              Pushed(k, scan) >= 223
  {
    if Types(scan) && scan != SCAN_TAB {
      PushesChar(k, scan);
    }
  }

  /** Escape, control, left shift, alt, the twelve function keys, and every release change nothing. */
  lemma IdleKeys(k: Keyboard, e: Key)
    requires k.Valid()
    requires
      || e.released || !k.input
      || e.scan == 1 || e.scan == 29 || e.scan == 42 || e.scan == 56
      || 59 <= e.scan <= 68 || e.scan == 87 || e.scan == 88
    ensures Handle(k, e) == Went(k)
  {
  }

  /** Caps lock, enter, tab and backspace. */
  lemma ControlKeys(k: Keyboard)
    requires k.Valid() && k.input
    ensures Handle(k, Event(58, false)) == Went(k.(caps := !k.caps))
    ensures Handle(k, Event(15, false)) == Stuck
    ensures 0 <= k.tail ==>
              Handle(k, Event(28, false)) == Went(k.(
                ring := k.ring[k.tail := 0], tail := (k.tail + 1) % 128, input := false, screen := NewLine(k.screen)))
    ensures k.screen.row == k.stopRow && k.screen.col == k.stopCol ==> Handle(k, Event(14, false)) == Went(k)
  {
  }

  /** Away from the stop position backspace erases on the screen and takes the last slot back. */
  lemma BackspaceKey(k: Keyboard)
    requires k.Valid() && k.input && 0 < k.tail && !(k.screen.row == k.stopRow && k.screen.col == k.stopCol)
    requires k.screen.row > 0 || k.screen.col > 0
    ensures Handle(k, Event(14, false)) == Went(k.(tail := k.tail - 1, screen := PutChar(k.screen, 8)))
  {
  }

  // ---- every text can be typed ----

  /** Does it take caps lock? */
  predicate TakesCaps(ch: Byte) {
    || 33 <= ch <= 38 || 40 <= ch <= 43 || ch == 58 || ch == 60 || 62 <= ch <= 90 || ch == 94 || ch == 95
    || 123 <= ch
  }

  predicate Ascii(text: seq<Byte>) {
    forall i :: 0 <= i < |text| ==> 32 <= text[i] <= 126
  }

  /** The key for a character without caps lock. */
  function LowerKey(ch: Byte): nat {
    match ch
    case 32 => 57 case 39 => 40 case 44 => 51 case 45 => 12 case 46 => 52 case 47 => 53 case 48 => 11
    case 49 => 2 case 50 => 3 case 51 => 4 case 52 => 5 case 53 => 6 case 54 => 7 case 55 => 8 case 56 => 9
    case 57 => 10 case 59 => 39 case 61 => 13 case 91 => 26 case 92 => 43 case 93 => 27 case 96 => 41
    case 97 => 30 case 98 => 48 case 99 => 46 case 100 => 32 case 101 => 18 case 102 => 33 case 103 => 34
    case 104 => 35 case 105 => 23 case 106 => 36 case 107 => 37 case 108 => 38 case 109 => 50 case 110 => 49
    case 111 => 24 case 112 => 25 case 113 => 16 case 114 => 19 case 115 => 31 case 116 => 20 case 117 => 22
    case 118 => 47 case 119 => 17 case 120 => 45 case 121 => 21 case 122 => 44
    case _ => 0
  }

  /** And with it. */
  function UpperKey(ch: Byte): nat {
    match ch
    case 33 => 2 case 34 => 40 case 35 => 4 case 36 => 5 case 37 => 6 case 38 => 8 case 40 => 10
    case 41 => 11 case 42 => 9 case 43 => 13 case 58 => 39 case 60 => 51 case 62 => 52 case 63 => 53
    case 64 => 3 case 65 => 30 case 66 => 48 case 67 => 46 case 68 => 32 case 69 => 18 case 70 => 33
    case 71 => 34 case 72 => 35 case 73 => 23 case 74 => 36 case 75 => 37 case 76 => 38 case 77 => 50
    case 78 => 49 case 79 => 24 case 80 => 25 case 81 => 16 case 82 => 19 case 83 => 31 case 84 => 20
    case 85 => 22 case 86 => 47 case 87 => 17 case 88 => 45 case 89 => 21 case 90 => 44 case 94 => 7
    case 95 => 12 case 123 => 26 case 124 => 43 case 125 => 27 case 126 => 41
    case _ => 0
  }

  /** Typing this key, caps lock set as the character takes it, gives the character. */
  predicate KeyOf(scan: nat, ch: Byte) {
    InRows(scan) && Char(scan, TakesCaps(ch)) == ch
  }

  lemma FirstLetterTypes(ch: Byte)
    requires 97 <= ch < 110
    ensures KeyOf(LowerKey(ch), ch)
  {
  }

  lemma LastLetterTypes(ch: Byte)
    requires 110 <= ch <= 122
    ensures KeyOf(LowerKey(ch), ch)
  {
  }

  lemma DigitTypes(ch: Byte)
    requires 32 <= ch < 97 && !TakesCaps(ch)
    ensures KeyOf(LowerKey(ch), ch)
  {
  }

  lemma CapitalTypes(ch: Byte)
    requires 65 <= ch <= 90
    ensures KeyOf(UpperKey(ch), ch)
  {
  }

  lemma SignTypes(ch: Byte)
    requires 32 <= ch <= 126 && TakesCaps(ch) && !(65 <= ch <= 90)
    ensures KeyOf(UpperKey(ch), ch)
  {
  }

  lemma KeyExists(ch: Byte)
    requires 32 <= ch <= 126
    ensures exists scan: nat :: KeyOf(scan, ch)
  {
    if 65 <= ch <= 90 {
      CapitalTypes(ch);
    } else if TakesCaps(ch) {
      SignTypes(ch);
    } else if ch >= 110 {
      LastLetterTypes(ch);
    } else if ch >= 97 {
      FirstLetterTypes(ch);
    } else {
      DigitTypes(ch);
    }
  }

  ghost function KeyFor(ch: Byte): (scan: nat)
    requires 32 <= ch <= 126
    ensures KeyOf(scan, ch) && scan < 128 && Types(scan) && scan != SCAN_TAB
  {
    KeyExists(ch);
    var scan: nat :| KeyOf(scan, ch);
    RowsType(scan);
    scan
  }

  /** The keys to press for a text and enter. */
  ghost function KeysFor(caps: bool, text: seq<Byte>): seq<Key>
    requires Ascii(text)
    decreases |text|
  {
    if text == [] then [Event(28, false)]
    else
      (if TakesCaps(text[0]) == caps then [] else [Event(58, false)])
      + [Event(KeyFor(text[0]), false)] + KeysFor(TakesCaps(text[0]), text[1..])
  }

  lemma EditCons(l: Line, e: Key, events: seq<Key>)
    ensures Edit(l, [e] + events) == Edit(Edit1(l, e), events)
  {
    assert ([e] + events)[0] == e && ([e] + events)[1..] == events;
  }

  /** One character's keys add that character. */
  lemma OneTyped(l: Line, ch: Byte, rest: seq<Key>)
    requires !l.done && 32 <= ch <= 126
    ensures
      var caps: seq<Key> := if TakesCaps(ch) == l.caps then [] else [Event(58, false)];
      Edit(l, caps + [Event(KeyFor(ch), false)] + rest) == Edit(Line(l.text + [ch], TakesCaps(ch), false), rest)
  {
    var key: Key := Event(KeyFor(ch), false);
    var l1 := l.(caps := TakesCaps(ch));
    assert Edit1(l1, key) == Line(l.text + [ch], TakesCaps(ch), false);
    EditCons(l1, key, rest);
    if TakesCaps(ch) == l.caps {
      assert [] + [key] + rest == [key] + rest;
    } else {
      EditCons(l, Event(58, false), [key] + rest);
      assert [Event(58, false)] + [key] + rest == [Event(58, false)] + ([key] + rest);
    }
  }

  lemma {:induction false} KeysForEdit(l: Line, text: seq<Byte>)
    requires !l.done && Ascii(text)
    ensures Edit(l, KeysFor(l.caps, text)).text == l.text + text
    decreases |text|
  {
    if text == [] {
      EditCons(l, Event(28, false), []);
      assert [Event(28, false)] + [] == [Event(28, false)];
    } else {
      var ch := text[0];
      OneTyped(l, ch, KeysFor(TakesCaps(ch), text[1..]));
      KeysForEdit(Line(l.text + [ch], TakesCaps(ch), false), text[1..]);
      assert l.text + [ch] + text[1..] == l.text + text;
    }
  }

  lemma {:induction false} KeysForJustType(caps: bool, text: seq<Byte>)
    requires Ascii(text)
    ensures JustTypes(KeysFor(caps, text)) && HasEnter(KeysFor(caps, text))
    decreases |text|
  {
    if text == [] {
      assert IsEnter(KeysFor(caps, text)[0]);
    } else {
      var rest := KeysFor(TakesCaps(text[0]), text[1..]);
      KeysForJustType(TakesCaps(text[0]), text[1..]);
      var i :| 0 <= i < |rest| && IsEnter(rest[i]);
      var keys := KeysFor(caps, text);
      assert keys[|keys| - |rest|..] == rest;
      assert IsEnter(keys[|keys| - |rest| + i]);
    }
  }

  /** Every text of at most 126 printable characters is what a waiting reader gets for some sequence of keys. */
  lemma EveryTextCanBeTyped(k: Keyboard, text: seq<Byte>)
    requires Ready(k) && Ascii(text) && |text| <= 126
    ensures exists events: seq<Key> ::
              Type(k, events).Went? && 0 <= Type(k, events).k.tail && Contents(Type(k, events).k) == text + [NUL]
  {
    var events := KeysFor(k.caps, text);
    var l := NewLineOf(k);
    KeysForEdit(l, text);
    KeysForJustType(k.caps, text);
    assert l.text + text == text;
    JustTypesFits(k, l, events);
    LineReturned(k, events);
  }
}
