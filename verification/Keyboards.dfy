/**
 The keyboard buffer of drivers/keyboard/keyboard.c with the screen it echoes to, as a
 value, and what one key interrupt does to both. The interrupt stub disables interrupts,
 so a key event is one step.
 */
module Keyboards {
  import opened Displays

  const RING: int := 128
  type Ring = r: seq<Byte> | |r| == 128 witness seq(128, _ => 0)

  datatype Event = Event(scan: nat, released: bool)
  /** Scan codes are seven bits wide. */
  type Key = e: Event | e.scan < 128 witness Event(0, false)

  const SCAN_BACKSPACE: nat := 14
  const SCAN_TAB: nat := 15
  const SCAN_ENTER: nat := 28
  const SCAN_SHIFT: nat := 42
  const SCAN_CAPS: nat := 58

  /** The table `lowercase`, its 32-bit entries cut to the byte that is printed and stored. */
  function Lowercase(scan: nat): Byte {
    match scan
    case 1 => 254 case 2 => 49 case 3 => 50 case 4 => 51 case 5 => 52 case 6 => 53 case 7 => 54
    case 8 => 55 case 9 => 56 case 10 => 57 case 11 => 48 case 12 => 45 case 13 => 61 case 14 => 8
    case 15 => 9 case 16 => 113 case 17 => 119 case 18 => 101 case 19 => 114 case 20 => 116 case 21 => 121
    case 22 => 117 case 23 => 105 case 24 => 111 case 25 => 112 case 26 => 91 case 27 => 93 case 28 => 10
    case 29 => 253 case 30 => 97 case 31 => 115 case 32 => 100 case 33 => 102 case 34 => 103 case 35 => 104
    case 36 => 106 case 37 => 107 case 38 => 108 case 39 => 59 case 40 => 39 case 41 => 96 case 42 => 252
    case 43 => 92 case 44 => 122 case 45 => 120 case 46 => 99 case 47 => 118 case 48 => 98 case 49 => 110
    case 50 => 109 case 51 => 44 case 52 => 46 case 53 => 47 case 54 => 251 case 55 => 42 case 56 => 250
    case 57 => 32 case 58 => 226 case 59 => 249 case 60 => 248 case 61 => 247 case 62 => 246 case 63 => 245
    case 64 => 244 case 65 => 243 case 66 => 242 case 67 => 241 case 68 => 240 case 69 => 223 case 70 => 237
    case 71 => 236 case 72 => 235 case 73 => 231 case 74 => 45 case 75 => 234 case 77 => 233 case 78 => 43
    case 79 => 229 case 80 => 232 case 81 => 230 case 82 => 228 case 83 => 227 case 87 => 239 case 88 => 238
    case _ => 255
  }

  /** The table `uppercase`, likewise. */
  function Uppercase(scan: nat): Byte {
    match scan
    case 1 => 254 case 2 => 33 case 3 => 64 case 4 => 35 case 5 => 36 case 6 => 37 case 7 => 94
    case 8 => 38 case 9 => 42 case 10 => 40 case 11 => 41 case 12 => 95 case 13 => 43 case 14 => 8
    case 15 => 9 case 16 => 81 case 17 => 87 case 18 => 69 case 19 => 82 case 20 => 84 case 21 => 89
    case 22 => 85 case 23 => 73 case 24 => 79 case 25 => 80 case 26 => 123 case 27 => 125 case 28 => 10
    case 29 => 253 case 30 => 65 case 31 => 83 case 32 => 68 case 33 => 70 case 34 => 71 case 35 => 72
    case 36 => 74 case 37 => 75 case 38 => 76 case 39 => 58 case 40 => 34 case 41 => 126 case 42 => 252
    case 43 => 124 case 44 => 90 case 45 => 88 case 46 => 67 case 47 => 86 case 48 => 66 case 49 => 78
    case 50 => 77 case 51 => 60 case 52 => 62 case 53 => 63 case 54 => 251 case 55 => 42 case 56 => 250
    case 57 => 32 case 58 => 226 case 59 => 249 case 60 => 248 case 61 => 247 case 62 => 246 case 63 => 245
    case 64 => 244 case 65 => 243 case 66 => 242 case 67 => 241 case 68 => 240 case 69 => 223 case 70 => 237
    case 71 => 236 case 72 => 235 case 73 => 231 case 74 => 45 case 75 => 234 case 77 => 233 case 78 => 43
    case 79 => 229 case 80 => 232 case 81 => 230 case 82 => 228 case 83 => 227 case 87 => 239 case 88 => 238
    case _ => 255
  }

  /** The character of a key; only caps lock matters. */
  function Char(scan: nat, caps: bool): Byte {
    if caps then Uppercase(scan) else Lowercase(scan)
  }

  /** Only the backspace, tab and enter keys have control characters. */
  lemma CharsPrint(scan: nat, caps: bool)
    requires scan != SCAN_BACKSPACE && scan != SCAN_TAB && scan != SCAN_ENTER
    ensures Char(scan, caps) >= 32
  {
  }

  /**
   Keys whose events change nothing: escape, control, alt, the function keys, and shift, whose
   handler compares instead of assigning.
   */
  predicate Ignored(scan: nat) {
    scan == 1 || scan == 29 || scan == 56 || 59 <= scan <= 68 || scan == 87 || scan == 88 || scan == SCAN_SHIFT
  }

  /** Keys that type a character. */
  predicate Types(scan: nat) {
    !Ignored(scan) && scan != SCAN_ENTER && scan != SCAN_CAPS && scan != SCAN_BACKSPACE
  }

  /** C's remainder, which takes the sign of the dividend. */
  function Rem(a: int, m: nat): int
    requires m > 0
  {
    if a >= 0 then a % m else -(-a % m)
  }

  datatype Keyboard = Keyboard(
    head: int, tail: int, ring: Ring, input: bool, caps: bool,
    screen: Display, stopRow: nat, stopCol: nat)
  {
    /** The backspace guard compares positions on the screen, not buffer indices. */
    predicate AtStop() {
      screen.row == stopRow && screen.col == stopCol
    }

    predicate Valid() {
      screen.Valid() && -RING < tail < RING && 0 <= head < RING
    }
  }

  /** A step ends normally, or it writes outside its arrays or loops for ever. */
  datatype Outcome = Went(k: Keyboard) | Stuck

  function Push(k: Keyboard, ch: Byte): Outcome
    requires k.Valid()
  {
    if k.tail < 0 then Stuck else Went(k.(ring := k.ring[k.tail := ch], tail := Rem(k.tail + 1, RING)))
  }

  function HandleEnter(k: Keyboard): Outcome
    requires k.Valid()
  {
    Push(k.(screen := PutChar(k.screen, NEWLINE), input := false), NUL)
  }

  function HandleBackspace(k: Keyboard): Outcome
    requires k.Valid()
  {
    if k.AtStop() then Went(k)
    else if !CanPut(k.screen, BACKSPACE) then Stuck
    else Went(k.(screen := PutChar(k.screen, BACKSPACE), tail := Rem(k.tail - 1, RING)))
  }

  function HandleChar(k: Keyboard, ch: Byte): Outcome
    requires k.Valid()
  {
    if !CanPut(k.screen, ch) then Stuck
    else Push(k.(screen := PutChar(k.screen, ch)), ch)
  }

  /** keyboard_handler */
  function Handle(k: Keyboard, e: Key): (r: Outcome)
    requires k.Valid()
    ensures r.Went? ==> r.k.Valid()
  {
    if !k.input || e.released || Ignored(e.scan) then Went(k)
    else if e.scan == SCAN_CAPS then Went(k.(caps := !k.caps))
    else if e.scan == SCAN_ENTER then HandleEnter(k)
    else if e.scan == SCAN_BACKSPACE then HandleBackspace(k)
    else HandleChar(k, Char(e.scan, k.caps))
  }

  /** The key events that come while a line is awaited. */
  function Type(k: Keyboard, events: seq<Key>): (r: Outcome)
    requires k.Valid()
    ensures r.Went? ==> r.k.Valid()
    decreases events
  {
    if events == [] || !k.input then Went(k)
    else
      match Handle(k, events[0])
      case Stuck => Stuck
      case Went(k') => Type(k', events[1..])
  }

  lemma TypeStep(k: Keyboard, events: seq<Key>, n: nat)
    requires k.Valid() && k.input && n < |events|
    ensures Type(k, events[n..]) ==
      match Handle(k, events[n]) { case Stuck => Stuck case Went(k') => Type(k', events[n + 1..]) }
  {
  }

  predicate IsEnter(e: Key) {
    e.scan == SCAN_ENTER && !e.released
  }

  /** Number of characters between head and tail. */
  function Pending(k: Keyboard): nat
    requires k.Valid() && k.tail >= 0
  {
    (k.tail + RING - k.head) % RING
  }

  /** The ring slot of the i-th character behind head. */
  function Slot(head: nat, i: nat): (s: nat)
    ensures s < RING
  {
    (head + i) % 128
  }

  /** What wait_keyboard_input copies out of the ring. */
  function Contents(k: Keyboard): seq<Byte>
    requires k.Valid() && k.tail >= 0
  {
    seq(Pending(k), i requires 0 <= i < Pending(k) => k.ring[Slot(k.head, i)])
  }
}
