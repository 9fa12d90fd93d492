/** The VGA driver of vga/vga.c: nested loops over the screen's cells, updated in place. */
module VgaDriver {
  import D = Displays
  import opened Displays

  class Vga {
    var row: nat
    var column: nat
    var color: Byte
    /** vga_buffer, with the 80 cells in front of it */
    const cells: array<Cell>

    ghost predicate Valid()
      reads this
    {
      cells.Length == 2080 && row < HEIGHT && column <= WIDTH
    }

    ghost function State(): Display
      requires Valid()
      reads this, cells
    {
      Display(row, column, color, cells[..])
    }

    constructor ()
      ensures Valid() && fresh(cells)
    {
      row, column, color := 0, 0, 0;
      cells := new Cell[2080](_ => 0);
    }

    method Init()
      requires Valid()
      modifies this, cells
      ensures Valid() && State() == Cleared(old(State()))
    {
      row, column, color := 0, 0, 15 + 16 * 0;
      for y := 0 to HEIGHT
        invariant Valid() && row == column == 0 && color == 15
        invariant forall q :: 0 <= q < 2080 ==>
          cells[q] == if FIRST <= q < FIRST + y * WIDTH then Entry(SPACE, 15) else old(cells[q])
      {
        for x := 0 to WIDTH
          invariant Valid() && row == column == 0 && color == 15
          invariant forall q :: 0 <= q < 2080 ==>
            cells[q] == if FIRST <= q < FIRST + y * WIDTH + x then Entry(SPACE, 15) else old(cells[q])
        {
          cells[FIRST + (y * WIDTH + x)] := Entry(SPACE, color);
        }
      }
    }

    /** Row by row upwards, row 0 into the cells in front of the screen. */
    method ScrollUp()
      requires Valid()
      modifies cells
      ensures cells[..] == old(cells[..])[WIDTH..] + BlankRow(color)
    {
      for y := 0 to HEIGHT
        invariant forall q :: 0 <= q < 2080 ==>
          cells[q] == if q < y * WIDTH then old(cells[q + WIDTH]) else old(cells[q])
      {
        for x := 0 to WIDTH
          invariant forall q :: 0 <= q < 2080 ==>
            cells[q] == if q < y * WIDTH + x then old(cells[q + WIDTH]) else old(cells[q])
        {
          cells[FIRST + (y - 1) * WIDTH + x] := cells[FIRST + y * WIDTH + x];
        }
      }
      for x := 0 to WIDTH
        invariant forall q :: 0 <= q < 2000 ==> cells[q] == old(cells[q + WIDTH])
        invariant forall q :: 2000 <= q < 2000 + x ==> cells[q] == Entry(SPACE, color)
      {
        cells[FIRST + (HEIGHT - 1) * WIDTH + x] := Entry(SPACE, color);
      }
    }

    method NewLine()
      requires Valid()
      modifies this, cells
      ensures Valid() && State() == D.NewLine(old(State()))
    {
      if row < HEIGHT - 1 {
        row := row + 1;
      } else {
        ScrollUp();
      }
      column := 0;
    }

    /**
     vga_put_charc. The model stops, and answers false, at a tab, whose loop never ends, and at a
     backspace that would leave the screen.
     */
    method PutCharC(c: Byte, ch: Byte) returns (ok: bool)
      requires Valid()
      modifies this, cells
      ensures Valid() && ok == CanPut(old(State()), ch)
      ensures State() == if ok then D.PutIn(old(State()), c, ch) else old(State())
    {
      if ch == NEWLINE {
        NewLine();
      } else if ch == RETURN {
        column := 0;
      } else if ch == BACKSPACE {
        if column == 0 && row != 0 {
          row := row - 1;
          column := WIDTH;
        }
        if column == 0 {
          return false;
        }
        column := column - 1;
        cells[FIRST + (row * WIDTH + column)] := Entry(SPACE, c);
      } else if ch == TAB {
        return false;
      } else {
        if column == WIDTH {
          NewLine();
        }
        cells[FIRST + (row * WIDTH + column)] := Entry(ch, c);
        column := column + 1;
      }
      return true;
    }

    /** The same code once more, with the screen's colour. */
    method PutChar(ch: Byte) returns (ok: bool)
      requires Valid()
      modifies this, cells
      ensures Valid() && ok == CanPut(old(State()), ch)
      ensures State() == if ok then D.PutChar(old(State()), ch) else old(State())
    {
      ok := PutCharC(color, ch);
    }

    method PrintC(c: Byte, str: seq<Byte>) returns (ok: bool)
      requires Valid() && NUL in str
      modifies this, cells
      ensures Valid() && (State(), ok) == D.PrintIn(old(State()), c, Text(str))
    {
      ghost var text, start := Text(str), State();
      TextFrom(str, 0);
      var i := 0;
      while str[i] != NUL
        invariant i <= |text| && Valid() && (str[i] == NUL <==> i == |text|)
        invariant D.PrintIn(State(), c, text[i..]) == D.PrintIn(start, c, text)
        decreases |text| - i
      {
        TextFrom(str, i);
        ok := PutCharC(c, str[i]);
        if !ok {
          return;
        }
        i := i + 1;
        TextFrom(str, i);
      }
      return true;
    }

    method Print(str: seq<Byte>) returns (ok: bool)
      requires Valid() && NUL in str
      modifies this, cells
      ensures Valid() && (State(), ok) == D.PrintAll(old(State()), Text(str))
      ensures Plain(Text(str)) ==> ok && State() == D.Print(old(State()), Text(str))
    {
      ghost var text, start, c := Text(str), State(), color;
      ghost var goal := D.PrintIn(start, c, text);
      assert Plain(text) ==> goal == (D.Print(start, text), true) by {
        if Plain(text) {
          PlainPrints(start, text);
        }
      }
      TextFrom(str, 0);
      var i := 0;
      while str[i] != NUL
        invariant i <= |text| && Valid() && color == c && (str[i] == NUL <==> i == |text|)
        invariant D.PrintIn(State(), c, text[i..]) == goal
        decreases |text| - i
      {
        TextFrom(str, i);
        ok := PutChar(str[i]);
        if !ok {
          return;
        }
        i := i + 1;
        TextFrom(str, i);
      }
      return true;
    }
  }
}
