/** The screen as part of a transcript: what printing shows, said without any cursor. */
module Transcript {
  import opened Displays

  /** A character and its colour. */
  datatype Ink = Ink(ch: Byte, color: Byte)

  type Lines = l: seq<seq<Ink>> | |l| > 0 witness [[]]

  function Inks(text: seq<Byte>, color: Byte): (inks: seq<Ink>)
    ensures |inks| == |text|
  {
    seq(|text|, i requires 0 <= i < |text| => Ink(text[i], color))
  }

  // ---- laying out a text ----

  /** A paragraph cut into screen lines: 80 characters each, the last one shorter or full. */
  ghost function Chunks(p: seq<Ink>): Lines {
    if |p| <= WIDTH then [p] else [p[..WIDTH]] + Chunks(p[WIDTH..])
  }

  function Flatten(lines: seq<seq<Ink>>): seq<Ink> {
    if lines == [] then [] else lines[0] + Flatten(lines[1..])
  }

  /** Cutting loses nothing, and cuts only full lines. */
  lemma {:induction false} ChunksAreCuts(p: seq<Ink>)
    ensures Flatten(Chunks(p)) == p
    ensures forall k :: 0 <= k < |Chunks(p)| - 1 ==> |Chunks(p)[k]| == WIDTH
    ensures |Chunks(p)[|Chunks(p)| - 1]| <= WIDTH
    decreases |p|
  {
    if |p| <= WIDTH {
      assert Flatten([p]) == p + Flatten([]);
    } else {
      ChunksAreCuts(p[WIDTH..]);
      assert Chunks(p)[1..] == Chunks(p[WIDTH..]);
    }
  }

  /** The text before the first newline, if there is one. */
  ghost function Paragraph(text: seq<Ink>): (p: seq<Ink>)
    ensures |p| <= |text| && p == text[..|p|]
    ensures forall i :: 0 <= i < |p| ==> p[i].ch != NEWLINE
    ensures |p| < |text| ==> text[|p|].ch == NEWLINE
  {
    if text == [] || text[0].ch == NEWLINE then [] else [text[0]] + Paragraph(text[1..])
  }

  /** The text wrapped at 80 columns, paragraph after paragraph. */
  ghost function Layout(text: seq<Ink>): Lines
    decreases |text|
  {
    var p := Paragraph(text);
    if |p| == |text| then Chunks(p) else Chunks(p) + Layout(text[|p| + 1..])
  }

  function Last(lines: Lines): seq<Ink> {
    lines[|lines| - 1]
  }

  /** One more character behind the last line, which wraps only when it is full. */
  function Extend(lines: Lines, ink: Ink): Lines {
    if ink.ch == NEWLINE then lines + [[]]
    else if |Last(lines)| == WIDTH then lines + [[ink]]
    else lines[..|lines| - 1] + [Last(lines) + [ink]]
  }

  lemma ExtendBehind(a: seq<seq<Ink>>, b: Lines, ink: Ink)
    ensures Extend(a + b, ink) == a + Extend(b, ink)
  {
  }

  lemma {:induction false} ChunksExtend(p: seq<Ink>, ink: Ink)
    requires ink.ch != NEWLINE
    ensures Chunks(p + [ink]) == Extend(Chunks(p), ink)
    decreases |p|
  {
    if |p| < WIDTH {
    } else if |p| > WIDTH {
      ChunksExtend(p[WIDTH..], ink);
      assert (p + [ink])[..WIDTH] == p[..WIDTH];
      assert (p + [ink])[WIDTH..] == p[WIDTH..] + [ink];
      ExtendBehind([p[..WIDTH]], Chunks(p[WIDTH..]), ink);
    } else {
      assert (p + [ink])[WIDTH..] == [ink];
      assert (p + [ink])[..WIDTH] == p;
    }
  }

  lemma {:induction false} ParagraphOf(text: seq<Ink>, ink: Ink)
    ensures Paragraph(text + [ink]) ==
      if |Paragraph(text)| == |text| && ink.ch != NEWLINE then text + [ink] else Paragraph(text)
    decreases |text|
  {
    if text == [] || text[0].ch == NEWLINE {
    } else {
      assert (text + [ink])[1..] == text[1..] + [ink];
      ParagraphOf(text[1..], ink);
    }
  }

  /** The layout of a text whose first paragraph is p. */
  lemma LayoutBy(text: seq<Ink>, p: seq<Ink>, rest: seq<Ink>)
    requires Paragraph(text) == p && |p| < |text| && rest == text[|p| + 1..]
    ensures Layout(text) == Chunks(p) + Layout(rest)
  {
  }

  /** Laying out one more character is extending the layout by it. */
  lemma {:induction false} LayoutExtend(text: seq<Ink>, ink: Ink)
    ensures Layout(text + [ink]) == Extend(Layout(text), ink)
    decreases |text|
  {
    var p := Paragraph(text);
    ParagraphOf(text, ink);
    if |p| < |text| {
      var rest := text[|p| + 1..];
      assert (text + [ink])[|p| + 1..] == rest + [ink];
      LayoutBy(text, p, rest);
      LayoutBy(text + [ink], p, rest + [ink]);
      LayoutExtend(rest, ink);
      ExtendBehind(Chunks(p), Layout(rest), ink);
    } else {
      LastParagraphExtend(text, ink);
    }
  }

  lemma LastParagraphExtend(text: seq<Ink>, ink: Ink)
    requires |Paragraph(text)| == |text|
    ensures Layout(text + [ink]) == Extend(Layout(text), ink)
  {
    ParagraphOf(text, ink);
    assert Paragraph(text) == text;
    if ink.ch == NEWLINE {
      assert (text + [ink])[|text| + 1..] == [];
      LayoutBy(text + [ink], text, []);
    } else {
      ChunksExtend(text, ink);
    }
  }

  // ---- what the screen shows ----

  /** Index of the line in the top row when the last 25 lines are shown. */
  function Top(lines: Lines): nat {
    if |lines| <= HEIGHT then 0 else |lines| - HEIGHT
  }

  /** The character in row r, column x when the lines from `top` on are shown. */
  function Glyph(lines: Lines, top: nat, r: nat, x: nat, color: Byte): Ink {
    var k := top + r;
    if k < |lines| && x < |lines[k]| then lines[k][x] else Ink(SPACE, color)
  }

  /** Row and column of the screen cell with index q. */
  function RowOf(q: nat): nat
    requires FIRST <= q
  {
    (q - FIRST) / WIDTH
  }

  function ColumnOf(q: nat): nat
    requires FIRST <= q
  {
    (q - FIRST) % WIDTH
  }

  function InkOf(lines: Lines, top: nat, q: nat, color: Byte): Ink
    requires FIRST <= q
  {
    Glyph(lines, top, RowOf(q), ColumnOf(q), color)
  }

  /**
   The display shows the lines from `top` on, padded with blanks in its own colour, and the cursor stands
   behind the last character.
   */
  ghost predicate ShowsFrom(d: Display, lines: Lines, top: nat) {
    && (forall k :: 0 <= k < |lines| ==> |lines[k]| <= WIDTH)
    && d.row + top == |lines| - 1
    && d.col == |Last(lines)|
    && forall q :: FIRST <= q < END ==> d.cells[q] == CellOf(InkOf(lines, top, q, d.color))
  }

  function CellOf(ink: Ink): Cell {
    Entry(ink.ch, ink.color)
  }

  /** The display shows the last 25 lines. */
  ghost predicate Shows(d: Display, lines: Lines) {
    ShowsFrom(d, lines, Top(lines))
  }

  /** In numbers: the low byte of the cell in row r and column x is the character, and the high byte its colour. */
  lemma ShowsInNumbers(d: Display, lines: Lines, top: nat, r: nat, x: nat)
    requires d.Valid() && ShowsFrom(d, lines, top) && r < HEIGHT && x < WIDTH
    ensures
      var cell := d.cells[80 + 80 * r + x];
      if top + r < |lines| && x < |lines[top + r]| then
        cell % 256 == lines[top + r][x].ch && cell / 256 == lines[top + r][x].color
      else cell % 256 == 32 && cell / 256 == d.color
  {
    var q := FIRST + r * WIDTH + x;
    assert RowOf(q) == r && ColumnOf(q) == x;
    assert d.cells[q] == CellOf(InkOf(lines, top, q, d.color));
  }

  /** A line more scrolls the screen iff its last row is in use. */
  function NextTop(d: Display, top: nat): nat {
    if d.row < HEIGHT - 1 then top else top + 1
  }

  lemma NewLineShows(d: Display, lines: Lines, top: nat)
    requires d.Valid() && ShowsFrom(d, lines, top)
    ensures ShowsFrom(NewLine(d), lines + [[]], NextTop(d, top))
  {
    var d', lines', top' := NewLine(d), lines + [[]], NextTop(d, top);
    forall q | FIRST <= q < END ensures d'.cells[q] == CellOf(InkOf(lines', top', q, d.color)) {
      if d.row < HEIGHT - 1 {
        assert d'.cells[q] == d.cells[q] == CellOf(InkOf(lines, top, q, d.color));
      } else if q + WIDTH < END {
        assert RowOf(q + WIDTH) == RowOf(q) + 1 && ColumnOf(q + WIDTH) == ColumnOf(q);
        assert d'.cells[q] == d.cells[q + WIDTH] == CellOf(InkOf(lines, top, q + WIDTH, d.color));
      } else {
        assert RowOf(q) == HEIGHT - 1;
      }
    }
  }

  /** Does printing this character add a line? */
  predicate AddsLine(d: Display, ch: Byte) {
    ch == NEWLINE || d.col == WIDTH
  }

  function TopAfter(d: Display, top: nat, ch: Byte): nat {
    if AddsLine(d, ch) then NextTop(d, top) else top
  }

  /** One more character, in its colour, shows the layout extended by it. */
  lemma PutShows(d: Display, lines: Lines, top: nat, ink: Ink)
    requires d.Valid() && ShowsFrom(d, lines, top) && PlainChar(ink.ch)
    ensures ShowsFrom(PutIn(d, ink.color, ink.ch), Extend(lines, ink), TopAfter(d, top, ink.ch))
  {
    if ink.ch == NEWLINE {
      NewLineShows(d, lines, top);
    } else if d.col == WIDTH {
      var wrapped: Lines := lines + [[]];
      NewLineShows(d, lines, top);
      PutInLine(NewLine(d), wrapped, NextTop(d, top), ink);
      assert wrapped[..|wrapped| - 1] == lines && Last(wrapped) + [ink] == [ink];
      assert PutIn(d, ink.color, ink.ch) == PutIn(NewLine(d), ink.color, ink.ch);
    } else {
      PutInLine(d, lines, top, ink);
    }
  }

  lemma PutInLine(d: Display, lines: Lines, top: nat, ink: Ink)
    requires d.Valid() && ShowsFrom(d, lines, top) && d.col < WIDTH
    requires PlainChar(ink.ch) && ink.ch != NEWLINE
    ensures ShowsFrom(PutIn(d, ink.color, ink.ch), lines[..|lines| - 1] + [Last(lines) + [ink]], top)
  {
    var d', lines' := PutIn(d, ink.color, ink.ch), lines[..|lines| - 1] + [Last(lines) + [ink]];
    forall q | FIRST <= q < END ensures d'.cells[q] == CellOf(InkOf(lines', top, q, d.color)) {
      assert q == FIRST + RowOf(q) * WIDTH + ColumnOf(q);
      assert q == FIRST + d.row * WIDTH + d.col <==> RowOf(q) == d.row && ColumnOf(q) == d.col;
      assert d.cells[q] == CellOf(InkOf(lines, top, q, d.color));
    }
  }

  /** As long as the screen shows the last 25 lines it goes on doing so. */
  lemma TopStaysLast(d: Display, lines: Lines, ink: Ink)
    requires d.Valid() && Shows(d, lines)
    ensures TopAfter(d, Top(lines), ink.ch) == Top(Extend(lines, ink))
  {
  }

  // ---- printing ----

  /** Printing plain text in a colour behind what is shown. */
  lemma {:induction false} PrintInShows(d: Display, before: seq<Ink>, top: nat, color: Byte, text: seq<Byte>)
    returns (top': nat)
    requires d.Valid() && ShowsFrom(d, Layout(before), top) && Plain(text)
    ensures PrintIn(d, color, text).1
    ensures ShowsFrom(PrintIn(d, color, text).0, Layout(before + Inks(text, color)), top')
    ensures top == Top(Layout(before)) ==> top' == Top(Layout(before + Inks(text, color)))
    decreases text
  {
    if text == [] {
      top' := top;
      assert before + Inks(text, color) == before;
    } else {
      var ink := Ink(text[0], color);
      PutShows(d, Layout(before), top, ink);
      LayoutExtend(before, ink);
      if top == Top(Layout(before)) {
        TopStaysLast(d, Layout(before), ink);
      }
      top' := PrintInShows(PutIn(d, color, text[0]), before + [ink], TopAfter(d, top, text[0]), color, text[1..]);
      assert before + [ink] + Inks(text[1..], color) == before + Inks(text, color);
    }
  }

  lemma ClearedShows(d: Display)
    ensures Shows(Cleared(d), Layout([]))
  {
  }

  /**
   Printing any text on a cleared screen shows the end of the text's layout: wrapping,
   scrolling and cursor together amount to taking the last 25 lines.
   */
  lemma PrintShowsLayout(d: Display, text: seq<Byte>)
    requires Plain(text)
    ensures Shows(Print(Cleared(d), text), Layout(Inks(text, 15)))
  {
    ClearedShows(d);
    var top := PrintInShows(Cleared(d), [], 0, 15, text);
    assert [] + Inks(text, 15) == Inks(text, 15);
    PlainPrints(Cleared(d), text);
  }

  // ---- taking back ----

  /** A backspace takes the last character of the last line away. */
  lemma BackspaceInLine(d: Display, lines: Lines, top: nat)
    requires d.Valid() && ShowsFrom(d, lines, top) && Last(lines) != []
    ensures CanPut(d, BACKSPACE)
    ensures ShowsFrom(PutChar(d, BACKSPACE), lines[..|lines| - 1] + [Last(lines)[..|Last(lines)| - 1]], top)
  {
    var d', lines' := PutChar(d, BACKSPACE), lines[..|lines| - 1] + [Last(lines)[..|Last(lines)| - 1]];
    var p := d.Position() - 1;
    assert p / WIDTH == d.row && p % WIDTH == d.col - 1;
    forall q | FIRST <= q < END ensures d'.cells[q] == CellOf(InkOf(lines', top, q, d.color)) {
      assert q == FIRST + RowOf(q) * WIDTH + ColumnOf(q);
      assert q == FIRST + p <==> RowOf(q) == d.row && ColumnOf(q) == d.col - 1;
      assert d.cells[q] == CellOf(InkOf(lines, top, q, d.color));
    }
  }

  /** In front of an empty line it takes the last character of the full line before it away, and the empty line too. */
  lemma BackspaceAcross(d: Display, lines: Lines, top: nat)
    requires d.Valid() && |Last(lines)| == WIDTH && ShowsFrom(d, lines + [[]], top) && d.row > 0
    ensures CanPut(d, BACKSPACE)
    ensures ShowsFrom(PutChar(d, BACKSPACE), lines[..|lines| - 1] + [Last(lines)[..WIDTH - 1]], top)
  {
    var d', lines' := PutChar(d, BACKSPACE), lines[..|lines| - 1] + [Last(lines)[..WIDTH - 1]];
    var p := d.Position() - 1;
    assert p / WIDTH == d.row - 1 && p % WIDTH == WIDTH - 1;
    assert forall k :: 0 <= k < |lines| ==> (lines + [[]])[k] == lines[k];
    forall q | FIRST <= q < END ensures d'.cells[q] == CellOf(InkOf(lines', top, q, d.color)) {
      assert q == FIRST + RowOf(q) * WIDTH + ColumnOf(q);
      assert q == FIRST + p <==> RowOf(q) == d.row - 1 && ColumnOf(q) == WIDTH - 1;
      assert d.cells[q] == CellOf(InkOf(lines + [[]], top, q, d.color));
    }
  }

  /**
   Printing a character and taking it back shows what was shown before, if there was room for it in the
   line; where it wrapped, the cursor is left at the start of an empty line.
   */
  lemma BackspaceUndoes(d: Display, lines: Lines, ch: Byte)
    requires d.Valid() && Shows(d, lines) && PlainChar(ch) && ch != NEWLINE
    ensures CanPut(PutChar(d, ch), BACKSPACE)
    ensures
      var d' := PutChar(PutChar(d, ch), BACKSPACE);
      if d.col < WIDTH then Shows(d', lines) else Shows(d', lines + [[]])
  {
    var ink := Ink(ch, d.color);
    var more := Extend(lines, ink);
    PutShows(d, lines, Top(lines), ink);
    TopStaysLast(d, lines, ink);
    BackspaceInLine(PutChar(d, ch), more, Top(more));
    if d.col < WIDTH {
      assert more[..|more| - 1] + [Last(more)[..|Last(more)| - 1]] == lines;
    } else {
      assert more[..|more| - 1] + [Last(more)[..|Last(more)| - 1]] == lines + [[]];
    }
  }

  // ---- writing over ----

  predicate InRow(text: seq<Byte>) {
    Plain(text) && NEWLINE !in text
  }

  /** d' is d with the text in the cells from the cursor on, and the cursor behind it. */
  ghost predicate WrittenOver(d: Display, d': Display, text: seq<Byte>)
    requires d.Valid() && d.col + |text| <= WIDTH
  {
    && d' == d.(col := d.col + |text|, cells := d'.cells)
    && forall q :: 0 <= q < END ==>
         var at := FIRST + d.row * WIDTH + d.col;
         d'.cells[q] == if at <= q < at + |text| then Entry(text[q - at], d.color) else d.cells[q]
  }

  /** Text that stays within its row goes into the cells from the cursor on. */
  lemma {:induction false} PrintInRow(d: Display, text: seq<Byte>)
    requires d.Valid() && InRow(text) && d.col + |text| <= WIDTH
    ensures WrittenOver(d, Print(d, text), text)
    decreases |text|
  {
    if text == [] {
    } else {
      PrintInRow(d, text[..|text| - 1]);
    }
  }

  lemma WrittenTwice(d: Display, d1: Display, d2: Display, d3: Display, first: seq<Byte>, text: seq<Byte>)
    requires d.Valid() && d.col == 0 && |first| <= |text| <= WIDTH
    requires WrittenOver(d, d1, first) && WrittenOver(d1.(col := 0), d2, text) && WrittenOver(d, d3, text)
    ensures d2 == d3
  {
    forall q | 0 <= q < END ensures d2.cells[q] == d3.cells[q] {
    }
    assert d2.cells == d3.cells;
  }

  /**
   A carriage return goes back to the start of the row and erases nothing: what is printed next stands over what was
   there, and a text no shorter covers it.
   */
  lemma ReturnWritesOver(d: Display, first: seq<Byte>, text: seq<Byte>)
    requires d.Valid() && d.col == 0 && InRow(first) && InRow(text) && |first| <= |text| <= WIDTH
    ensures PutChar(Print(d, first), RETURN) == Print(d, first).(col := 0)
    ensures Print(PutChar(Print(d, first), RETURN), text) == Print(d, text)
  {
    var d1 := Print(d, first);
    PrintInRow(d, first);
    PrintInRow(d, text);
    PrintInRow(d1.(col := 0), text);
    WrittenTwice(d, d1, Print(d1.(col := 0), text), Print(d, text), first, text);
  }
}
