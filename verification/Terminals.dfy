/** The loop of terminal/terminal.c: prompt, wait for a line, print it, and again. */
module Terminals {
  import opened Displays
  import opened Keyboards
  import opened KeyboardDriver
  import opened LineEditing
  import opened Turns
  import opened Transcript
  import opened Conversations

  predicate AllType(inputs: seq<seq<Key>>) {
    forall n :: 0 <= n < |inputs| ==> JustTypes(inputs[n])
  }

  class Terminal {
    const editor: LineEditor

    ghost predicate Valid()
      reads this, editor, editor.vga
    {
      editor.Valid()
    }

    constructor (e: LineEditor)
      requires e.Valid()
      ensures Valid() && editor == e
    {
      editor := e;
    }

    /**
     One turn of the loop, while these key interrupts come in. `before` stands in the transcript so far, and
     the screen shows its lines from `top` on.
     */
    method Turn(prompt: seq<Byte>, events: seq<Key>, late: seq<Key>, ghost before: seq<Ink>, ghost top: nat)
      returns (ok: bool, command: seq<Byte>, ghost gap: bool, ghost top': nat)
      requires Valid() && NUL in prompt && HasEnter(events) && editor.head == editor.tail
      modifies editor, editor.buffer, editor.inputBuffer, editor.vga, editor.vga.cells
      ensures Valid()
      ensures Answerable(old(editor.State()), Text(prompt), events) ==>
        ok && command == LineOf(old(editor.capsLock), events).text
        && Turned(old(editor.State()), Text(prompt), events, editor.State())
      ensures
        var k := old(editor.State());
        Answerable(k, Text(prompt), events) && Plain(Text(prompt)) && ShowsFrom(k.screen, Layout(before), top) ==>
          && ShowsTurn(
               k.screen, editor.vga.State(), before, top, Text(prompt), command, gap, top',
               Tight(k, Text(prompt), events))
          && (JustTypes(events) ==> !gap)
    {
      ghost var k := editor.State();
      gap, top' := false, 0;
      ok, command := RunTurn(prompt, events, late);
      if Answerable(k, Text(prompt), events) && Plain(Text(prompt)) && ShowsFrom(k.screen, Layout(before), top) {
        gap, top' := TurnShows(k, Text(prompt), events, before, top);
      }
    }

    method RunTurn(prompt: seq<Byte>, events: seq<Key>, late: seq<Key>) returns (ok: bool, command: seq<Byte>)
      requires Valid() && NUL in prompt && HasEnter(events) && editor.head == editor.tail
      modifies editor, editor.buffer, editor.inputBuffer, editor.vga, editor.vga.cells
      ensures Valid()
      ensures Answerable(old(editor.State()), Text(prompt), events) ==>
        ok && command == LineOf(old(editor.capsLock), events).text
        && Turned(old(editor.State()), Text(prompt), events, editor.State())
    {
      command := [];
      ghost var k, goes := editor.State(), Answerable(editor.State(), Text(prompt), events);
      if goes {
        LineComesBack(k, Text(prompt), events);
      }
      ok := Ask(prompt);
      if !ok {
        return;
      }
      var size: nat;
      ok, size := editor.WaitKeyboardInput(events, late);
      if goes {
        CommandIs(editor.inputBuffer[..], LineOf(k.caps, events).text, size);
      }
      if !ok || NUL !in editor.inputBuffer[..] {
        return false, [];
      }
      command := Text(editor.inputBuffer[..]);
      if goes {
        PlainPrints(editor.vga.State(), command);
      }
      ok := editor.vga.Print(editor.inputBuffer[..]);
    }

    /** False if the prompt contains a character that cannot be put. */
    method Ask(prompt: seq<Byte>) returns (ok: bool)
      requires Valid() && NUL in prompt
      modifies editor`stopRow, editor`stopCol, editor.vga, editor.vga.cells
      ensures Valid() && ok == PrintIn(NewLine(old(editor.vga.State())), PROMPT_COLOR, Text(prompt)).1
      ensures ok ==> editor.State().(input := true) == Prompted(old(editor.State()), Text(prompt))
      ensures editor.head == old(editor.head) && editor.tail == old(editor.tail)
    {
      assert Text([NEWLINE, NUL]) == [NEWLINE];
      var _ := editor.vga.Print([NEWLINE, NUL]);
      ok := editor.vga.PrintC(PROMPT_COLOR, prompt);
      editor.stopRow, editor.stopCol := editor.vga.row, editor.vga.column;
    }

    /** A turn behind those that gave `commands`. */
    method NextTurn(
        prompt: seq<Byte>, events: seq<Key>, late: seq<Key>,
        ghost before: seq<Ink>, ghost commands: seq<seq<Byte>>, ghost gaps: seq<bool>, ghost top: nat, ghost last: bool)
      returns (ok: bool, command: seq<Byte>, ghost gap: bool, ghost top': nat)
      requires Valid() && NUL in prompt && HasEnter(events) && editor.head == editor.tail && |gaps| == |commands|
      modifies editor, editor.buffer, editor.inputBuffer, editor.vga, editor.vga.cells
      ensures Valid()
      ensures Answerable(old(editor.State()), Text(prompt), events) ==>
        ok && command == LineOf(old(editor.capsLock), events).text
        && Turned(old(editor.State()), Text(prompt), events, editor.State())
      ensures
        var (k, c) := (old(editor.State()), old(editor.vga.color));
        Answerable(k, Text(prompt), events) && Plain(Text(prompt)) && (last ==> JustTypes(events))
        && Recorded(k.screen, before, Text(prompt), commands, gaps, c, top, last) ==>
          Recorded(editor.vga.State(), before, Text(prompt), commands + [command], gaps + [gap], c, top', last)
    {
      ghost var k, c := editor.State(), editor.vga.color;
      ghost var said := Spoken(before, Text(prompt), commands, gaps, c);
      ok, command, gap, top' := Turn(prompt, events, late, said, top);
      if Answerable(k, Text(prompt), events) && Plain(Text(prompt)) && (last ==> JustTypes(events))
        && Recorded(k.screen, before, Text(prompt), commands, gaps, c, top, last)
      {
        RecordGoesOn(
          k.screen, editor.vga.State(), before, Text(prompt), commands, gaps, top, last,
          command, gap, top', Tight(k, Text(prompt), events));
      }
    }

    /**
     As many turns of the endless loop as there are lines of input. The screen shows the whole dialogue behind what
     stood before it, and the last 25 lines of that if the lines are just typed.
     */
    method Loop(prompt: seq<Byte>, inputs: seq<seq<Key>>, late: seq<Key>, ghost before: seq<Ink>, ghost top: nat)
      returns (ok: bool, commands: seq<seq<Byte>>, ghost gaps: seq<bool>, ghost top': nat)
      requires Valid() && NUL in prompt && editor.head == editor.tail
      requires forall n :: 0 <= n < |inputs| ==> HasEnter(inputs[n])
      modifies editor, editor.buffer, editor.inputBuffer, editor.vga, editor.vga.cells
      ensures Valid()
      ensures Session(old(editor.State()), Text(prompt), inputs) ==>
        ok && commands == LinesOf(old(editor.capsLock), inputs) && |gaps| == |commands|
      ensures
        var k := old(editor.State());
        Session(k, Text(prompt), inputs) && Plain(Text(prompt)) && ShowsFrom(k.screen, Layout(before), top) ==>
          Recorded(
            editor.vga.State(), before, Text(prompt), commands, gaps, k.screen.color, top',
            AllType(inputs) && top == Top(Layout(before)))
    {
      ghost var goes := Session(editor.State(), Text(prompt), inputs);
      ghost var lines := LinesOf(editor.capsLock, inputs);
      ghost var shows := goes && Plain(Text(prompt)) && ShowsFrom(editor.vga.State(), Layout(before), top);
      ghost var c, last := editor.vga.color, AllType(inputs) && top == Top(Layout(before));
      commands, gaps, top' := [], [], top;
      if shows {
        RecordStarts(editor.vga.State(), before, Text(prompt), top, last);
      }
      assert inputs[0..] == inputs;
      for n := 0 to |inputs|
        invariant Valid() && editor.head == editor.tail && |gaps| == |commands|
        invariant goes ==> GoesOn(editor.State(), Text(prompt), inputs, n, commands, lines)
        invariant shows ==> Recorded(editor.vga.State(), before, Text(prompt), commands, gaps, c, top', last)
      {
        ghost var k := editor.State();
        if goes {
          FirstAnswerable(k, Text(prompt), inputs, n, commands, lines);
        }
        var command;
        ghost var gap, top1;
        ok, command, gap, top1 := NextTurn(prompt, inputs[n], late, before, commands, gaps, top', last);
        if goes {
          TurnAdvances(k, Text(prompt), inputs, n, commands, lines, editor.State());
        }
        if !ok || editor.head != editor.tail {
          ok := false;
          return;
        }
        commands, gaps, top' := commands + [command], gaps + [gap], top1;
      }
      ok := true;
    }
  }
}
