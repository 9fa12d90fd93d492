/**
 The keyboard driver of drivers/keyboard/keyboard.c: the interrupt handler that echoes and
 buffers keys, and the consumer that waits for a line and copies it out.
 */
module KeyboardDriver {
  import K = Keyboards
  import opened Keyboards
  import opened Displays
  import opened VgaDriver
  import opened LineEditing

  class LineEditor {
    var head: int
    var tail: int
    const buffer: array<Byte>
    const inputBuffer: array<Byte>
    var input: bool
    var capsLock: bool
    /** get_terminal_stop_delete */
    var stopRow: nat
    var stopCol: nat
    const vga: Vga

    ghost predicate Valid()
      reads this, vga
    {
      && vga.Valid() && buffer.Length == inputBuffer.Length == RING && buffer != inputBuffer
      && -RING < tail < RING && 0 <= head < RING
    }

    ghost function State(): Keyboard
      requires Valid()
      reads this, vga, vga.cells, buffer
    {
      Keyboard(head, tail, buffer[..], input, capsLock, vga.State(), stopRow, stopCol)
    }

    constructor (screen: Vga)
      requires screen.Valid()
      ensures Valid() && vga == screen && fresh(buffer) && fresh(inputBuffer)
      ensures head == tail == 0 && !input && !capsLock
    {
      vga := screen;
      head, tail, input, capsLock, stopRow, stopCol := 0, 0, false, false, 0, 0;
      buffer := new Byte[RING](_ => 0);
      inputBuffer := new Byte[RING](_ => 0);
    }

    /** The model stops, and answers false, where the C code writes in front of the ring. */
    method BufferPush(data: Byte) returns (ok: bool)
      requires Valid()
      modifies this`tail, buffer
      ensures Valid() && Push(old(State()), data) == if ok then Went(State()) else Stuck
    {
      if tail < 0 {
        return false;
      }
      buffer[tail] := data;
      tail := Rem(tail + 1, RING);
      return true;
    }

    method BufferPop()
      requires Valid()
      modifies this`tail
      ensures Valid() && State() == old(State()).(tail := Rem(old(tail) - 1, RING))
    {
      tail := Rem(tail - 1, RING);
    }

    method HandleEnter() returns (ok: bool)
      requires Valid()
      modifies this`tail, this`input, buffer, vga, vga.cells
      ensures Valid() && K.HandleEnter(old(State())) == if ok then Went(State()) else Stuck
    {
      ok := vga.PutChar(NEWLINE);
      ok := BufferPush(NUL);
      input := false;
    }

    method HandleBackspace() returns (ok: bool)
      requires Valid()
      modifies this`tail, vga, vga.cells
      ensures Valid() && K.HandleBackspace(old(State())) == if ok then Went(State()) else Stuck
    {
      if vga.row != stopRow || vga.column != stopCol {
        ok := vga.PutChar(BACKSPACE);
        if !ok {
          return;
        }
        BufferPop();
      }
      return true;
    }

    method HandleChar(ch: Byte) returns (ok: bool)
      requires Valid()
      modifies this`tail, buffer, vga, vga.cells
      ensures Valid() && K.HandleChar(old(State()), ch) == if ok then Went(State()) else Stuck
    {
      ok := vga.PutChar(ch);
      if ok {
        ok := BufferPush(ch);
      }
    }

    /** keyboard_handler; false where the model stops: outside the arrays, or in the endless tab loop. */
    method Handle(e: Key) returns (ok: bool)
      requires Valid()
      modifies this`tail, this`input, this`capsLock, buffer, vga, vga.cells
      ensures Valid() && K.Handle(old(State()), e) == if ok then Went(State()) else Stuck
    {
      ok := true;
      if !input {
        return;
      }
      if e.scan == SCAN_ENTER {
        if !e.released {
          ok := HandleEnter();
        }
      } else if e.scan == SCAN_CAPS {
        if !capsLock && !e.released {
          capsLock := true;
        } else if capsLock && !e.released {
          capsLock := false;
        }
      } else if e.scan == SCAN_BACKSPACE {
        if !e.released {
          ok := HandleBackspace();
        }
      } else if !Ignored(e.scan) {
        if !e.released {
          ok := HandleChar(Char(e.scan, capsLock));
        }
      }
    }

    /** The spin on `input`, which ends with the first enter key. */
    method AwaitEnter(events: seq<Key>) returns (ok: bool)
      requires Valid() && input
      requires exists i :: 0 <= i < |events| && IsEnter(events[i])
      modifies this`tail, this`input, this`capsLock, buffer, vga, vga.cells
      ensures Valid()
      ensures Type(old(State()), events) == if ok then Went(State()) else Stuck
      ensures ok ==> !input && 0 <= tail
    {
      ghost var start := State();
      var n := 0;
      while input
        invariant Valid() && n <= |events|
        invariant Type(State(), events[n..]) == Type(start, events)
        invariant input ==> exists i :: n <= i < |events| && IsEnter(events[i])
        invariant !input ==> 0 <= tail
        decreases |events| - n
      {
        TypeStep(State(), events, n);
        ok := Handle(events[n]);
        if !ok {
          return;
        }
        n := n + 1;
      }
      return true;
    }

    /** Key interrupts during the copy loop change nothing: `late[i]` comes in iteration i. */
    method CopyOut(late: seq<Key>) returns (size: nat)
      requires Valid() && !input && 0 <= tail
      modifies this, buffer, inputBuffer, vga, vga.cells
      ensures Valid() && State() == old(State()).(head := old(tail))
      ensures size == |Contents(old(State()))| && inputBuffer[..size] == Contents(old(State()))
    {
      ghost var k := State();
      size := (tail + RING - head) % RING;
      for i := 0 to size
        invariant Valid() && State() == k
        invariant inputBuffer[..i] == Contents(k)[..i]
      {
        if i < |late| {
          var _ := Handle(late[i]);
        }
        inputBuffer[i] := buffer[Slot(head, i)];
      }
      head := tail % RING;
    }

    /**
     wait_keyboard_input. `events` are the key interrupts that come while the code spins on
     `input`, the enter key among them; `late` those that come during the copy loop.
     */
    method WaitKeyboardInput(events: seq<Key>, late: seq<Key>) returns (ok: bool, size: nat)
      requires Valid()
      requires exists i :: 0 <= i < |events| && IsEnter(events[i])
      modifies this, buffer, inputBuffer, vga, vga.cells
      ensures Valid()
      ensures ok <==> Type(old(State()).(input := true), events).Went?
      ensures ok ==>
        var k := Type(old(State()).(input := true), events).k;
        && !k.input && 0 <= k.tail
        && size == |Contents(k)| && inputBuffer[..size] == Contents(k)
        && State() == k.(head := k.tail)
      ensures Deliverable(old(State()).(input := true), events) ==>
        ok && inputBuffer[..size] == Edit(NewLineOf(old(State())), events).text + [NUL]
    {
      ghost var k := State().(input := true);
      if Deliverable(k, events) {
        LineReturned(k, events);
      }
      input := true;
      ok := AwaitEnter(events);
      size := 0;
      if ok {
        size := CopyOut(late);
      }
    }
  }
}
