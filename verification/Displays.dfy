/**
 The text screen of vga/vga.c as a value: a cursor and 25 rows of 80 cells. The cells
 include the 80 in front of the screen as well, because scrolling moves row 0 there.
 */
module Displays {

  const WIDTH: nat := 80
  const HEIGHT: nat := 25
  /** Cells in front of the screen, and where the screen ends. */
  const FIRST: nat := 80
  const END: nat := 2080

  type Byte = n: nat | n < 256
  type Cell = n: nat | n < 0x1_0000

  const NUL: Byte := 0
  const BACKSPACE: Byte := 8
  const TAB: Byte := 9
  const NEWLINE: Byte := 10
  const RETURN: Byte := 13
  const SPACE: Byte := 32

  /** vga_entry: the character in the low byte, its colour in the high one. */
  function Entry(ch: Byte, color: Byte): (cell: Cell)
    ensures cell % 256 == ch && cell / 256 == color
  {
    ch + 256 * color
  }

  function BlankRow(color: Byte): (r: seq<Cell>)
    ensures |r| == WIDTH
  {
    seq(WIDTH, _ => Entry(SPACE, color))
  }

  type Cells = c: seq<Cell> | |c| == 2080 witness seq(2080, _ => 0)

  datatype Display = Display(row: nat, col: nat, color: Byte, cells: Cells) {
    /** The cursor may stand behind the last column: the line wraps only when the next character comes. */
    predicate Valid() {
      row < HEIGHT && col <= WIDTH
    }

    /** The cursor as a single number. */
    function Position(): nat {
      row * WIDTH + col
    }
  }

  function NewLine(d: Display): (r: Display)
    requires d.Valid()
    ensures r.Valid() && r.color == d.color
  {
    if d.row < HEIGHT - 1 then d.(row := d.row + 1, col := 0)
    else d.(col := 0, cells := d.cells[WIDTH..] + BlankRow(d.color))
  }

  function PutPrintable(d: Display, color: Byte, ch: Byte): (r: Display)
    requires d.Valid()
    ensures r.Valid() && r.color == d.color
  {
    var d' := if d.col == WIDTH then NewLine(d) else d;
    d'.(col := d'.col + 1, cells := d'.cells[FIRST + d'.row * WIDTH + d'.col := Entry(ch, color)])
  }

  function Backspace(d: Display, color: Byte): (r: Display)
    requires d.Valid() && d.Position() > 0
    ensures r.Valid() && r.color == d.color
  {
    var p := d.Position() - 1;
    d.(row := p / WIDTH, col := p % WIDTH, cells := d.cells[FIRST + p := Entry(SPACE, color)])
  }

  /** A tab never returns, and a backspace at the top left corner leaves the screen. */
  predicate CanPut(d: Display, ch: Byte) {
    ch != TAB && (ch == BACKSPACE ==> d.Position() > 0)
  }

  /** One character in the given colour; rows that scroll in are blank in the screen's own. */
  function PutIn(d: Display, color: Byte, ch: Byte): (r: Display)
    requires d.Valid() && CanPut(d, ch)
    ensures r.Valid() && r.color == d.color
  {
    if ch == NEWLINE then NewLine(d)
    else if ch == RETURN then d.(col := 0)
    else if ch == BACKSPACE then Backspace(d, color)
    else PutPrintable(d, color, ch)
  }

  function PutChar(d: Display, ch: Byte): (r: Display)
    requires d.Valid() && CanPut(d, ch)
    ensures r.Valid() && r.color == d.color
  {
    PutIn(d, d.color, ch)
  }

  /** Print up to the first character that cannot be put; false if there is one. */
  function PrintIn(d: Display, color: Byte, text: seq<Byte>): (r: (Display, bool))
    requires d.Valid()
    ensures r.0.Valid() && r.0.color == d.color
    decreases text
  {
    if text == [] then (d, true)
    else if !CanPut(d, text[0]) then (d, false)
    else PrintIn(PutIn(d, color, text[0]), color, text[1..])
  }

  function PrintAll(d: Display, text: seq<Byte>): (r: (Display, bool))
    requires d.Valid()
    ensures r.0.Valid()
  {
    PrintIn(d, d.color, text)
  }

  /** Printable characters and newlines. */
  predicate PlainChar(ch: Byte) {
    ch != NUL && ch != BACKSPACE && ch != TAB && ch != RETURN
  }

  predicate Plain(text: seq<Byte>) {
    forall k :: 0 <= k < |text| ==> PlainChar(text[k])
  }

  function Print(d: Display, text: seq<Byte>): (r: Display)
    requires d.Valid() && Plain(text)
    ensures r.Valid() && r.color == d.color
  {
    if text == [] then d else PutChar(Print(d, text[..|text| - 1]), text[|text| - 1])
  }

  lemma PrintStep(d: Display, text: seq<Byte>, i: nat)
    requires d.Valid() && Plain(text) && i < |text|
    ensures Print(d, text[..i + 1]) == PutChar(Print(d, text[..i]), text[i])
  {
    assert text[..i + 1][..i] == text[..i];
  }

  lemma {:induction false} PrintsInFull(d: Display, text: seq<Byte>, i: nat)
    requires d.Valid() && Plain(text) && i <= |text|
    ensures PrintAll(Print(d, text[..i]), text[i..]) == (Print(d, text), true)
    decreases |text| - i
  {
    if i == |text| {
      assert text[..i] == text;
    } else {
      PrintStep(d, text, i);
      assert text[i..][1..] == text[i + 1..];
      PrintsInFull(d, text, i + 1);
    }
  }

  /** Plain text prints to the end, and what comes of it is Print. */
  lemma PlainPrints(d: Display, text: seq<Byte>)
    requires d.Valid() && Plain(text)
    ensures PrintAll(d, text) == (Print(d, text), true)
  {
    PrintsInFull(d, text, 0);
    assert text[0..] == text;
  }

  /** From the cursor to the end of the screen all cells are blanks in the screen's colour. */
  ghost predicate BlankBehind(d: Display) {
    forall q :: FIRST + d.Position() <= q < END ==> d.cells[q] % 256 == 32 && d.cells[q] / 256 == d.color
  }

  /** Every character keeps it so, where backspace lets the cursor go back too. */
  lemma PutKeepsBlank(d: Display, color: Byte, ch: Byte)
    requires d.Valid() && CanPut(d, ch) && ch != RETURN && BlankBehind(d) && (ch == BACKSPACE ==> color == d.color)
    ensures BlankBehind(PutIn(d, color, ch))
  {
  }

  /** The cursors of two screens are at the same place. */
  predicate SamePlace(d: Display, e: Display) {
    d.row == e.row && d.col == e.col
  }

  /** The colour makes no difference to where printing ends. */
  lemma {:induction false} ColorsEndAlike(d: Display, e: Display, c: Byte, color: Byte, text: seq<Byte>)
    requires d.Valid() && e.Valid() && SamePlace(d, e)
    ensures PrintIn(d, c, text).1 == PrintIn(e, color, text).1
    ensures SamePlace(PrintIn(d, c, text).0, PrintIn(e, color, text).0)
    decreases text
  {
    if text == [] || !CanPut(d, text[0]) {
    } else {
      ColorsEndAlike(PutIn(d, c, text[0]), PutIn(e, color, text[0]), c, color, text[1..]);
    }
  }

  /** The text of a C string: what precedes its first NUL. */
  function Text(str: seq<Byte>): (t: seq<Byte>)
    requires NUL in str
    ensures |t| < |str| && t == str[..|t|] && str[|t|] == NUL && NUL !in t
  {
    if str[0] == NUL then [] else [str[0]] + Text(str[1..])
  }

  /** Reading a string ends with its text, and gives it character by character. */
  lemma TextFrom(str: seq<Byte>, i: nat)
    requires NUL in str && i <= |Text(str)|
    ensures str[i] == NUL <==> i == |Text(str)|
    ensures i < |Text(str)| ==> Text(str)[i..][0] == str[i] && Text(str)[i..][1..] == Text(str)[i + 1..]
  {
    if i < |Text(str)| {
      assert str[i] == Text(str)[i] && Text(str)[i] in Text(str);
    }
  }

  lemma {:induction false} TextIs(str: seq<Byte>, text: seq<Byte>)
    requires |text| < |str| && str[..|text|] == text && str[|text|] == NUL && NUL !in text
    ensures NUL in str && Text(str) == text
    decreases text
  {
    if text == [] {
    } else {
      assert str[0] == text[0] && text[0] in text;
      assert str[1..][..|text| - 1] == text[1..];
      TextIs(str[1..], text[1..]);
    }
  }

  /** The screen after vga_init. */
  function Cleared(d: Display): Display {
    Display(0, 0, 15, d.cells[..FIRST] + seq(END - FIRST, _ => Entry(SPACE, 15)))
  }
}
