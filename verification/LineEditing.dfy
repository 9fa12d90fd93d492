/**
 The line a user edits, said without ring or screen, and when the keyboard buffer, the
 cursor and the interrupt handler together deliver it.
 */
module LineEditing {
  import opened Displays
  import opened Keyboards

  /** The text typed so far, caps lock, and whether enter was pressed. */
  datatype Line = Line(text: seq<Byte>, caps: bool, done: bool)

  /** One key: append its character, drop the last one, toggle caps lock, or finish. */
  function Edit1(l: Line, e: Key): Line {
    if l.done || e.released || Ignored(e.scan) then l
    else if e.scan == SCAN_CAPS then l.(caps := !l.caps)
    else if e.scan == SCAN_ENTER then l.(done := true)
    else if e.scan == SCAN_BACKSPACE then l.(text := if l.text == [] then [] else l.text[..|l.text| - 1])
    else l.(text := l.text + [Char(e.scan, l.caps)])
  }

  function Edit(l: Line, events: seq<Key>): Line
    decreases events
  {
    if events == [] then l else Edit(Edit1(l, events[0]), events[1..])
  }

  predicate HasEnter(events: seq<Key>) {
    exists i :: 0 <= i < |events| && IsEnter(events[i])
  }

  /** A character key is not the tab key, and finds room in the ring and `room` cells on the screen. */
  predicate RoomFor(l: Line, e: Key, room: int) {
    !l.done && !e.released && Types(e.scan) ==> e.scan != SCAN_TAB && |l.text| < 127 && |l.text| < room
  }

  predicate Typeable(l: Line, events: seq<Key>, room: int)
    decreases events
  {
    events == [] || (RoomFor(l, events[0], room) && Typeable(Edit1(l, events[0]), events[1..], room))
  }

  /** A backspace takes back the character in the ring's last slot, so that tail is 0 when it is popped. */
  predicate PopsAtWrap1(l: Line, e: Key, head: nat) {
    !l.done && !e.released && e.scan == SCAN_BACKSPACE && l.text != [] && Slot(head, |l.text|) == 0
  }

  predicate PopsAtWrap(l: Line, events: seq<Key>, head: nat)
    decreases events
  {
    events != [] && (PopsAtWrap1(l, events[0], head) || PopsAtWrap(Edit1(l, events[0]), events[1..], head))
  }

  // ---- invariants ----

  function StopPosition(k: Keyboard): nat {
    k.stopRow * WIDTH + k.stopCol
  }

  /** Cells from the stop position to the end of the screen: what fits without scrolling. */
  function Room(k: Keyboard): int {
    HEIGHT * WIDTH - StopPosition(k)
  }

  /**
   The text stands on the screen from the stop position on, with the cursor behind it, all of it
   moved up `scrolls` rows; the stop position has not moved with it.
   */
  ghost predicate OnScreen(k: Keyboard, text: seq<Byte>, scrolls: nat) {
    && k.screen.Valid()
    && k.stopRow < HEIGHT && k.stopCol <= WIDTH
    && k.screen.Position() + scrolls * WIDTH == StopPosition(k) + |text|
    && (scrolls > 0 ==> Room(k) + (scrolls - 1) * WIDTH <= 126)
    && var p := FIRST + StopPosition(k) - scrolls * WIDTH;
       forall q :: p <= q < p + |text| ==>
         k.screen.cells[q] % 256 == text[q - p] && k.screen.cells[q] / 256 == k.screen.color
  }

  /** The ring holds the text from head to tail. */
  ghost predicate InRing(k: Keyboard, text: seq<Byte>) {
    && k.Valid()
    && k.tail == Slot(k.head, |text|)
    && forall i :: 0 <= i < |text| ==> k.ring[Slot(k.head, i)] == text[i]
  }

  ghost predicate Editing(k: Keyboard, l: Line, scrolls: nat) {
    k.Valid() && k.input && !l.done && k.caps == l.caps && |l.text| <= 127 && OnScreen(k, l.text, scrolls)
  }

  /** The backspace guard lets this key through iff there is a character to take back. */
  predicate GuardFits(k: Keyboard, l: Line, e: Key) {
    !l.done && !e.released && e.scan == SCAN_BACKSPACE ==> (k.AtStop() <==> l.text == [])
  }

  /** So it does for every key. */
  predicate GuardHolds(k: Keyboard, l: Line, events: seq<Key>)
    requires k.Valid()
    decreases events
  {
    events == []
    || (GuardFits(k, l, events[0])
        && (Handle(k, events[0]).Went? ==> GuardHolds(Handle(k, events[0]).k, Edit1(l, events[0]), events[1..])))
  }

  /** Screen and ring follow the line. */
  ghost predicate Follows(k: Keyboard, l: Line, scrolls: nat) {
    Editing(k, l, scrolls) && InRing(k, l.text)
  }

  /** Keys up to an enter, without tabs and with at most 127 characters at a time, for each of which the guard fits. */
  ghost predicate FitsFrom(k: Keyboard, l: Line, events: seq<Key>)
    requires k.Valid()
  {
    HasEnter(events) && Typeable(l, events, 127) && GuardHolds(k, l, events)
  }

  // ---- one key ----

  predicate TypesNow(l: Line, e: Key) {
    !l.done && !e.released && Types(e.scan)
  }

  /** A character typed behind the last cell of the screen scrolls it. */
  function ScrollsAfter(k: Keyboard, l: Line, scrolls: nat, e: Key): nat {
    if TypesNow(l, e) && |l.text| == Room(k) + scrolls * WIDTH then scrolls + 1 else scrolls
  }

  /** However often the screen has scrolled, the cursor cannot get to its top left corner. */
  lemma CursorIsPositive(k: Keyboard, text: seq<Byte>, scrolls: nat)
    requires OnScreen(k, text, scrolls) && text != []
    ensures k.screen.Position() > 0
  {
  }

  lemma TypeKeepsScreen(k: Keyboard, l: Line, scrolls: nat, ch: Byte)
    requires Editing(k, l, scrolls) && |l.text| <= 126 && ch >= 32 && HandleChar(k, ch).Went?
    ensures Editing(HandleChar(k, ch).k, l.(text := l.text + [ch]),
              if |l.text| == Room(k) + scrolls * WIDTH then scrolls + 1 else scrolls)
  {
  }

  lemma EraseKeepsScreen(k: Keyboard, l: Line, scrolls: nat)
    requires Editing(k, l, scrolls) && HandleBackspace(k).Went? && (k.AtStop() <==> l.text == [])
    ensures Editing(HandleBackspace(k).k, l.(text := if l.text == [] then [] else l.text[..|l.text| - 1]), scrolls)
  {
  }

  /** No key leaves anything on the screen behind the cursor: what backspace takes back is erased. */
  lemma StepKeepsBlank(k: Keyboard, e: Key)
    requires k.Valid() && Handle(k, e).Went?
    ensures BlankBehind(k.screen) ==> BlankBehind(Handle(k, e).k.screen)
  {
    var ch :=
      if e.scan == SCAN_BACKSPACE then BACKSPACE else if e.scan == SCAN_ENTER then NEWLINE else Char(e.scan, k.caps);
    if BlankBehind(k.screen) && CanPut(k.screen, ch) && ch != RETURN {
      PutKeepsBlank(k.screen, k.screen.color, ch);
    }
    if Types(e.scan) && e.scan != SCAN_TAB {
      CharsPrint(e.scan, k.caps);
    }
  }

  /**
   Every step that ends normally keeps the screen in step with the line, scrolling or not, as long
   as the guard fits.
   */
  lemma StepKeepsScreen(k: Keyboard, l: Line, scrolls: nat, e: Key)
    requires Editing(k, l, scrolls) && RoomFor(l, e, 127) && GuardFits(k, l, e) && !IsEnter(e) && Handle(k, e).Went?
    ensures Editing(Handle(k, e).k, Edit1(l, e), ScrollsAfter(k, l, scrolls, e))
    ensures Handle(k, e).k.stopRow == k.stopRow && Handle(k, e).k.stopCol == k.stopCol
    ensures BlankBehind(k.screen) ==> BlankBehind(Handle(k, e).k.screen)
  {
    StepKeepsBlank(k, e);
    if !e.released && !Ignored(e.scan) && e.scan != SCAN_CAPS {
      if e.scan == SCAN_BACKSPACE {
        EraseKeepsScreen(k, l, scrolls);
      } else {
        CharsPrint(e.scan, k.caps);
        TypeKeepsScreen(k, l, scrolls, Char(e.scan, k.caps));
      }
    }
  }

  lemma SlotsDiffer(h: nat, i: nat, j: nat)
    requires i < j < i + 128
    ensures Slot(h, i) != Slot(h, j)
  {
  }

  lemma PushInRing(k: Keyboard, text: seq<Byte>, ch: Byte)
    requires InRing(k, text) && |text| <= 127
    ensures Push(k, ch).Went? && InRing(Push(k, ch).k, text + [ch])
  {
    forall i | 0 <= i < |text| ensures Slot(k.head, i) != k.tail {
      SlotsDiffer(k.head, i, |text|);
    }
  }

  lemma SlotBefore(h: nat, n: nat)
    requires n > 0 && Slot(h, n) != 0
    ensures Slot(h, n - 1) == Slot(h, n) - 1
  {
  }

  lemma PopInRing(k: Keyboard, text: seq<Byte>)
    requires InRing(k, text) && text != [] && Slot(k.head, |text|) != 0
    ensures InRing(k.(tail := Rem(k.tail - 1, RING)), text[..|text| - 1])
  {
    SlotBefore(k.head, |text|);
    var init := text[..|text| - 1];
    assert forall i :: 0 <= i < |init| ==> init[i] == text[i];
  }

  lemma StepKeepsRing(k: Keyboard, l: Line, scrolls: nat, e: Key)
    requires Editing(k, l, scrolls) && InRing(k, l.text) && RoomFor(l, e, 127) && GuardFits(k, l, e) && !IsEnter(e)
    requires !PopsAtWrap1(l, e, k.head)
    ensures Handle(k, e).Went?
    ensures Handle(k, e).k.head == k.head && InRing(Handle(k, e).k, Edit1(l, e).text)
  {
    if !e.released && !Ignored(e.scan) && e.scan != SCAN_CAPS {
      if e.scan == SCAN_BACKSPACE {
        if l.text != [] {
          CursorIsPositive(k, l.text, scrolls);
          PopInRing(k, l.text);
        }
      } else {
        CharsPrint(e.scan, k.caps);
        var ch := Char(e.scan, k.caps);
        PushInRing(k.(screen := PutChar(k.screen, ch)), l.text, ch);
      }
    }
  }

  // ---- whole lines ----

  /** The line as it is when enter is pressed, or when the events end. */
  lemma {:induction false} DoneStays(l: Line, events: seq<Key>)
    requires l.done
    ensures Edit(l, events) == l
    decreases events
  {
    if events == [] {
    } else {
      DoneStays(l, events[1..]);
    }
  }

  lemma EnterComesLater(events: seq<Key>)
    requires HasEnter(events) && !IsEnter(events[0])
    ensures HasEnter(events[1..])
  {
  }

  /** The ring holds the whole line with its NUL, and no more. */
  ghost predicate Delivered(k: Keyboard, head: int, text: seq<Byte>) {
    && k.Valid() && !k.input && k.head == head && |text| <= 127
    && k.tail == Slot(head, |text| + 1)
    && k.ring[Slot(head, |text|)] == NUL
    && forall i :: 0 <= i < |text| ==> k.ring[Slot(head, i)] == text[i]
  }

  lemma EnterDelivers(k: Keyboard, l: Line, scrolls: nat, e: Key)
    requires Editing(k, l, scrolls) && InRing(k, l.text) && IsEnter(e)
    ensures Handle(k, e).Went? && Delivered(Handle(k, e).k, k.head, l.text) && Handle(k, e).k.caps == l.caps
  {
    PushInRing(k.(screen := PutChar(k.screen, NEWLINE), input := false), l.text, NUL);
    var k' := Handle(k, e).k;
    forall i | 0 <= i < |l.text| ensures k'.ring[Slot(k.head, i)] == l.text[i] {
      assert (l.text + [NUL])[i] == l.text[i];
    }
    assert (l.text + [NUL])[|l.text|] == NUL;
  }

  /**
   A line whose backspaces the guard fits, and that never pops at the wrap, ends with its text and
   a NUL in the ring.
   */
  lemma {:induction false} TypingDelivers(k: Keyboard, l: Line, scrolls: nat, events: seq<Key>)
    requires Follows(k, l, scrolls) && FitsFrom(k, l, events) && !PopsAtWrap(l, events, k.head)
    ensures Type(k, events).Went? && Delivered(Type(k, events).k, k.head, Edit(l, events).text)
    ensures Type(k, events).k.caps == Edit(l, events).caps
    decreases events
  {
    var e := events[0];
    if IsEnter(e) {
      EnterDelivers(k, l, scrolls, e);
      DoneStays(Edit1(l, e), events[1..]);
      assert Type(k, events) == Type(Handle(k, e).k, events[1..]);
    } else {
      EnterComesLater(events);
      StepKeepsRing(k, l, scrolls, e);
      StepKeepsScreen(k, l, scrolls, e);
      TypingDelivers(Handle(k, e).k, Edit1(l, e), ScrollsAfter(k, l, scrolls, e), events[1..]);
    }
  }

  lemma PendingAfter(h: nat, n: nat)
    requires h < 128 && n <= 127
    ensures (Slot(h, n + 1) + RING - h) % RING == (n + 1) % 128
  {
  }

  lemma ContentsAre(k: Keyboard, head: nat, text: seq<Byte>)
    requires Delivered(k, head, text) && Pending(k) == |text| + 1
    ensures Contents(k) == text + [NUL]
  {
    var c := Contents(k);
    forall i | 0 <= i < |c| ensures c[i] == (text + [NUL])[i] {
      assert c[i] == k.ring[Slot(head, i)];
    }
  }

  lemma ContentsDelivered(k: Keyboard, head: nat, text: seq<Byte>)
    requires Delivered(k, head, text)
    ensures Contents(k) == text + [NUL] <==> |text| <= 126
  {
    PendingAfter(head, |text|);
    assert Pending(k) == (|text| + 1) % 128;
    if |text| <= 126 {
      ContentsAre(k, head, text);
    }
  }

  /** Where a line starts: nothing pending, the cursor at the stop position. */
  ghost predicate Ready(k: Keyboard) {
    k.Valid() && k.input && k.head == k.tail && k.AtStop()
  }

  function NewLineOf(k: Keyboard): Line {
    Line([], k.caps, false)
  }

  ghost predicate Fits(k: Keyboard, events: seq<Key>)
    requires k.Valid()
  {
    FitsFrom(k, NewLineOf(k), events)
  }

  ghost predicate Typed(k: Keyboard, events: seq<Key>) {
    Ready(k) && Fits(k, events)
  }

  /** The line never pops at the wrap, and ends with at most 126 characters. */
  ghost predicate Returnable(k: Keyboard, events: seq<Key>)
    requires k.Valid()
  {
    !PopsAtWrap(NewLineOf(k), events, k.head) && |Edit(NewLineOf(k), events).text| <= 126
  }

  ghost predicate Deliverable(k: Keyboard, events: seq<Key>) {
    Typed(k, events) && Returnable(k, events)
  }

  /**
   wait_keyboard_input returns the edited line: for every sequence of keys up to an enter,
   wherever the ring wraps and however the screen scrolls, the copied buffer is the line's text
   and a NUL, iff at most 126 characters are left in it. (With 127, head and tail meet and
   nothing is copied.)
   */
  lemma LineReturned(k: Keyboard, events: seq<Key>)
    requires Typed(k, events) && !PopsAtWrap(NewLineOf(k), events, k.head)
    ensures
      var r := Type(k, events);
      var text := Edit(NewLineOf(k), events).text;
      r.Went? && 0 <= r.k.tail && (Contents(r.k) == text + [NUL] <==> |text| <= 126)
  {
    TypingDelivers(k, NewLineOf(k), 0, events);
    ContentsDelivered(Type(k, events).k, k.head, Edit(NewLineOf(k), events).text);
  }

  // ---- popping at the wrap ----

  lemma {:induction false} DoneNeverPops(l: Line, events: seq<Key>, head: nat)
    requires l.done
    ensures !PopsAtWrap(l, events, head)
    decreases events
  {
    if events == [] {
    } else {
      DoneNeverPops(l, events[1..], head);
    }
  }

  /** Once tail is negative it stays so, and the next character or enter is written in front of the ring. */
  lemma {:induction false} NegativeTailSticks(k: Keyboard, l: Line, scrolls: nat, events: seq<Key>)
    requires Editing(k, l, scrolls) && k.tail < 0 && -k.tail + |l.text| <= 127
    requires Typeable(l, events, 127) && GuardHolds(k, l, events) && HasEnter(events)
    ensures Type(k, events).Stuck?
    decreases events
  {
    var e := events[0];
    if IsEnter(e) || Handle(k, e).Stuck? {
    } else {
      EnterComesLater(events);
      StaysNegative(k, l, scrolls, e);
      NegativeTailSticks(Handle(k, e).k, Edit1(l, e), ScrollsAfter(k, l, scrolls, e), events[1..]);
    }
  }

  lemma StaysNegative(k: Keyboard, l: Line, scrolls: nat, e: Key)
    requires Editing(k, l, scrolls) && k.tail < 0 && -k.tail + |l.text| <= 127
    requires RoomFor(l, e, 127) && GuardFits(k, l, e) && !IsEnter(e) && Handle(k, e).Went?
    ensures
      var k' := Handle(k, e).k;
      Editing(k', Edit1(l, e), ScrollsAfter(k, l, scrolls, e)) && k'.tail < 0 && -k'.tail + |Edit1(l, e).text| <= 127
  {
    StepKeepsScreen(k, l, scrolls, e);
  }

  /** Taking back the character in the ring's last slot leaves tail at -1, as C's remainder gives it. */
  lemma PopAtWrap(k: Keyboard, l: Line, scrolls: nat, e: Key)
    requires Editing(k, l, scrolls) && InRing(k, l.text) && GuardFits(k, l, e) && PopsAtWrap1(l, e, k.head)
    ensures Handle(k, e).Went? && Handle(k, e).k.tail == -1
  {
  }

  lemma {:induction false} PoppingSticks(k: Keyboard, l: Line, scrolls: nat, events: seq<Key>)
    requires Follows(k, l, scrolls) && FitsFrom(k, l, events) && PopsAtWrap(l, events, k.head)
    ensures Type(k, events).Stuck?
    decreases events
  {
    var e := events[0];
    if IsEnter(e) {
      DoneNeverPops(Edit1(l, e), events[1..], k.head);
    } else if PopsAtWrap1(l, e, k.head) {
      EnterComesLater(events);
      PopAtWrap(k, l, scrolls, e);
      StepKeepsScreen(k, l, scrolls, e);
      NegativeTailSticks(Handle(k, e).k, Edit1(l, e), ScrollsAfter(k, l, scrolls, e), events[1..]);
    } else {
      EnterComesLater(events);
      StepKeepsRing(k, l, scrolls, e);
      StepKeepsScreen(k, l, scrolls, e);
      PoppingSticks(Handle(k, e).k, Edit1(l, e), ScrollsAfter(k, l, scrolls, e), events[1..]);
    }
  }

  /** A line leaves the ring's bounds iff some backspace takes back the character in the ring's last slot. */
  lemma StuckIff(k: Keyboard, events: seq<Key>)
    requires Typed(k, events)
    ensures Type(k, events).Stuck? <==> PopsAtWrap(NewLineOf(k), events, k.head)
  {
    if PopsAtWrap(NewLineOf(k), events, k.head) {
      PoppingSticks(k, NewLineOf(k), 0, events);
    } else {
      TypingDelivers(k, NewLineOf(k), 0, events);
    }
  }

  // ---- the backspace guard ----

  /** A line that has not scrolled, and whose empty form has the cursor at the stop position itself. */
  ghost predicate Unscrolled(k: Keyboard, l: Line) {
    Editing(k, l, 0) && k.stopCol < WIDTH && (l.text == [] ==> k.AtStop())
  }

  /**
   While a line has not scrolled the guard is right: the cursor is at the stop position iff
   nothing is left to take back. It compares (row, column) pairs though a full row and the
   start of the next one are the same place.
   */
  lemma GuardIsExact(k: Keyboard, l: Line)
    requires Unscrolled(k, l)
    ensures k.AtStop() <==> l.text == []
  {
  }

  lemma StepStaysUnscrolled(k: Keyboard, l: Line, e: Key)
    requires Unscrolled(k, l) && RoomFor(l, e, Room(k)) && !IsEnter(e) && Handle(k, e).Went?
    ensures Unscrolled(Handle(k, e).k, Edit1(l, e)) && Room(Handle(k, e).k) == Room(k)
  {
    GuardIsExact(k, l);
    StepKeepsScreen(k, l, 0, e);
  }

  /** So the guard holds for every line that finds room. */
  lemma {:induction false} RoomGuards(k: Keyboard, l: Line, events: seq<Key>)
    requires Unscrolled(k, l) && Typeable(l, events, Room(k))
    ensures GuardHolds(k, l, events)
    decreases events
  {
    if events == [] {
    } else if IsEnter(events[0]) {
      DoneGuards(Handle(k, events[0]), Edit1(l, events[0]), events[1..]);
    } else {
      GuardIsExact(k, l);
      if Handle(k, events[0]).Went? {
        StepStaysUnscrolled(k, l, events[0]);
        RoomGuards(Handle(k, events[0]).k, Edit1(l, events[0]), events[1..]);
      }
    }
  }

  lemma {:induction false} DoneGuards(r: Outcome, l: Line, events: seq<Key>)
    requires l.done && (r.Went? ==> r.k.Valid())
    ensures r.Went? ==> GuardHolds(r.k, l, events)
    decreases events
  {
    if events == [] || r.Stuck? {
    } else {
      DoneGuards(Handle(r.k, events[0]), Edit1(l, events[0]), events[1..]);
    }
  }

  lemma {:induction false} RoomIsLess(l: Line, events: seq<Key>, room: int)
    requires Typeable(l, events, room)
    ensures Typeable(l, events, 127)
    decreases events
  {
    if events == [] {
    } else {
      RoomIsLess(Edit1(l, events[0]), events[1..], room);
    }
  }

  /** A line that finds room on the screen and starts before its margin is one for which the guard holds. */
  lemma RoomSuffices(k: Keyboard, events: seq<Key>)
    requires Ready(k) && k.stopCol < WIDTH && HasEnter(events) && Typeable(NewLineOf(k), events, Room(k))
    ensures Typed(k, events)
  {
    RoomIsLess(NewLineOf(k), events, Room(k));
    RoomGuards(k, NewLineOf(k), events);
  }

  lemma {:induction false} TypingStaysUnscrolled(k: Keyboard, l: Line, events: seq<Key>)
    requires Unscrolled(k, l) && Typeable(l, events, Room(k))
    requires Type(k, events).Went? && !Edit(l, events).done
    ensures Unscrolled(Type(k, events).k, Edit(l, events))
    decreases events
  {
    if events == [] {
    } else {
      var e := events[0];
      if IsEnter(e) {
        DoneStays(Edit1(l, e), events[1..]);
      }
      StepStaysUnscrolled(k, l, e);
      TypingStaysUnscrolled(Handle(k, e).k, Edit1(l, e), events[1..]);
    }
  }

  lemma {:induction false} RoomEnough(l: Line, events: seq<Key>, room: int)
    requires Typeable(l, events, 127) && room >= 127
    ensures Typeable(l, events, room)
    decreases events
  {
    if events == [] {
    } else {
      RoomEnough(Edit1(l, events[0]), events[1..], room);
    }
  }

  /** After these keys the guard lets a backspace through iff there is a character to take back. */
  ghost predicate GuardRight(k: Keyboard, events: seq<Key>)
    requires k.Valid()
  {
    var r := Type(k, events);
    var l := Edit(NewLineOf(k), events);
    r.Went? && !l.done ==> (r.k.AtStop() <==> l.text == [])
  }

  /** After any keys without tabs and with at most 127 characters at a time. */
  ghost predicate GuardAlwaysRight(k: Keyboard)
    requires k.Valid()
  {
    forall events: seq<Key> :: Typeable(NewLineOf(k), events, 127) ==> GuardRight(k, events)
  }

  /**
   The guard is right over all typing iff the line does not start behind the last column and
   the screen has room below for the 127 characters that the ring has. Behind the last column the
   first character wraps, and taking it back leaves the cursor at the start of the next row,
   which the guard takes for a place with something left to erase. Without the room the line
   may scroll, and the stop position does not.
   */
  lemma GuardRightIff(k: Keyboard)
    requires Ready(k)
    ensures GuardAlwaysRight(k) <==> k.stopCol < WIDTH && Room(k) >= 127
  {
    if k.stopCol == WIDTH {
      GuardWrongAtMargin(k);
    } else if Room(k) < 127 {
      GuardWrongAfterScroll(k);
    } else {
      forall events: seq<Key> | Typeable(NewLineOf(k), events, 127) ensures GuardRight(k, events) {
        var r, l := Type(k, events), Edit(NewLineOf(k), events);
        RoomEnough(NewLineOf(k), events, Room(k));
        if r.Went? && !l.done {
          TypingStaysUnscrolled(k, NewLineOf(k), events);
          GuardIsExact(r.k, l);
        }
      }
    }
  }

  lemma GuardWrongAtMargin(k: Keyboard)
    requires Ready(k) && k.stopCol == WIDTH
    ensures
      var events: seq<Key> := [Event(16, false), Event(SCAN_BACKSPACE, false)];
      Typeable(NewLineOf(k), events, 127) && !GuardRight(k, events)
  {
    var q: Key, b: Key := Event(16, false), Event(SCAN_BACKSPACE, false);
    var l := NewLineOf(k);
    var k1 := Handle(k, q).k;
    CharsPrint(16, k.caps);
    assert k1.screen.col == 1 && k1.screen.row > 0 && 0 <= k1.tail;
    var k2 := Handle(k1, b).k;
    assert k2.screen.col == 0;
    assert [q, b][1..] == [b] && [b][1..] == [];
    assert Type(k2, []) == Went(k2);
    assert Type(k1, [b]) == Went(k2);
    assert Type(k, [q, b]) == Went(k2);
    assert Edit1(Edit1(l, q), b) == l;
    assert Edit(l, []) == l;
    assert Edit(Edit1(l, q), [b]) == l;
    assert Edit(l, [q, b]) == l;
    assert Typeable(Edit1(l, q), [b], 127);
  }

  // ---- a line that scrolls and is then taken back ----

  function Keys(scan: nat, n: nat): seq<Key>
    requires scan < 128
  {
    if n == 0 then [] else [Event(scan, false)] + Keys(scan, n - 1)
  }

  /** n characters have been typed from the stop position on, the last of them past the end of the screen. */
  ghost predicate Advanced(k: Keyboard, l: Line, n: nat) {
    && k.Valid() && k.input && !l.done && |l.text| == n && 0 <= k.tail
    && (if n <= Room(k) then k.screen.Position() == StopPosition(k) + n
        else n == Room(k) + 1 && k.screen.row == HEIGHT - 1 && k.screen.col == 1)
  }

  /** The screen has scrolled by a row, and n characters are left. */
  ghost predicate Receded(k: Keyboard, l: Line, n: nat) {
    && k.Valid() && k.input && !l.done && |l.text| == n
    && k.screen.Position() + WIDTH == StopPosition(k) + n && k.screen.col < WIDTH
  }

  /** What keys[0..] does when keys[0] is handled normally. */
  lemma OneKey(k: Keyboard, l: Line, scan: nat, n: nat, rest: seq<Key>)
    requires k.Valid() && k.input && scan < 128 && n > 0 && Handle(k, Event(scan, false)).Went?
    ensures
      var e: Key := Event(scan, false);
      var (all, left) := (Keys(scan, n) + rest, Keys(scan, n - 1) + rest);
      && Type(k, all) == Type(Handle(k, e).k, left)
      && Edit(l, all) == Edit(Edit1(l, e), left)
      && (Typeable(l, all, 127) <==> RoomFor(l, e, 127) && Typeable(Edit1(l, e), left, 127))
  {
    var e: Key := Event(scan, false);
    assert (Keys(scan, n) + rest)[0] == e && (Keys(scan, n) + rest)[1..] == Keys(scan, n - 1) + rest;
  }

  /** From (k, l) these keys lead to (k', l') and then go on with the rest. */
  ghost predicate Leads(k: Keyboard, l: Line, keys: seq<Key>, k': Keyboard, l': Line, rest: seq<Key>)
    requires k.Valid() && k'.Valid()
  {
    && Type(k, keys + rest) == Type(k', rest) && Edit(l, keys + rest) == Edit(l', rest)
    && (Typeable(l, keys + rest, 127) <==> Typeable(l', rest, 127))
    && k'.stopRow == k.stopRow && k'.stopCol == k.stopCol
  }

  lemma TypeOne(k: Keyboard, l: Line, c: nat)
    requires Advanced(k, l, c) && Room(k) <= 126 && c <= Room(k)
    ensures
      var e: Key := Event(16, false);
      var r := Handle(k, e);
      && RoomFor(l, e, 127) && r.Went? && r.k.stopRow == k.stopRow && r.k.stopCol == k.stopCol
      && Advanced(r.k, Edit1(l, e), c + 1)
  {
    CharsPrint(16, k.caps);
    assert Room(k) == c ==> k.screen.row == HEIGHT - 1 && k.screen.col == WIDTH;
  }

  lemma {:induction false} TypeOn(k: Keyboard, l: Line, c: nat, n: nat, rest: seq<Key>) returns (k': Keyboard, l': Line)
    requires Advanced(k, l, c) && Room(k) <= 126 && c + n <= Room(k) + 1
    ensures Advanced(k', l', c + n) && Leads(k, l, Keys(16, n), k', l', rest)
    decreases n
  {
    if n == 0 {
      k', l' := k, l;
      assert Keys(16, 0) + rest == rest;
    } else {
      var e: Key := Event(16, false);
      TypeOne(k, l, c);
      OneKey(k, l, 16, n, rest);
      k', l' := TypeOn(Handle(k, e).k, Edit1(l, e), c + 1, n - 1, rest);
    }
  }

  lemma EraseOne(k: Keyboard, l: Line, c: nat)
    requires Receded(k, l, c) && Room(k) <= 126 && 0 < c <= 127 && c != 80
    ensures
      var e: Key := Event(SCAN_BACKSPACE, false);
      var r := Handle(k, e);
      && RoomFor(l, e, 127) && r.Went? && r.k.stopRow == k.stopRow && r.k.stopCol == k.stopCol
      && Receded(r.k, Edit1(l, e), c - 1)
  {
    assert !k.AtStop() && k.screen.Position() > 0;
  }

  lemma {:induction false} EraseOn(k: Keyboard, l: Line, c: nat, n: nat, rest: seq<Key>)
    returns (k': Keyboard, l': Line)
    requires Receded(k, l, c) && Room(k) <= 126 && n <= c <= 127 && (c - n >= 80 || c < 80)
    ensures Receded(k', l', c - n) && Leads(k, l, Keys(SCAN_BACKSPACE, n), k', l', rest)
    decreases n
  {
    if n == 0 {
      k', l' := k, l;
      assert Keys(SCAN_BACKSPACE, 0) + rest == rest;
    } else {
      var e: Key := Event(SCAN_BACKSPACE, false);
      EraseOne(k, l, c);
      OneKey(k, l, SCAN_BACKSPACE, n, rest);
      k', l' := EraseOn(Handle(k, e).k, Edit1(l, e), c - 1, n - 1, rest);
    }
  }

  /**
   One character more than the room, and then backspaces: the guard stops them when a full
   row of 80 characters is left, or, with less typed, does not stop them at all.
   */
  lemma GuardWrongAfterScroll(k: Keyboard)
    requires Ready(k) && k.stopCol < WIDTH && Room(k) < 127
    ensures
      var room: nat := Room(k);
      var events := Keys(16, room + 1) + Keys(SCAN_BACKSPACE, if room >= 79 then room - 79 else room + 1);
      Typeable(NewLineOf(k), events, 127) && !GuardRight(k, events)
  {
    var room: nat := Room(k);
    var n := if room >= 79 then room - 79 else room + 1;
    var keys := Keys(SCAN_BACKSPACE, n);
    assert keys + [] == keys;
    var k1, l1 := TypeOn(k, NewLineOf(k), 0, room + 1, keys);
    var k2, l2 := EraseOn(k1, l1, room + 1, n, []);
    assert Type(k2, []) == Went(k2) && Edit(l2, []) == l2;
    GuardFailsHere(k2, l2, room + 1 - n);
  }

  lemma GuardFailsHere(k: Keyboard, l: Line, left: nat)
    requires Receded(k, l, left) && k.stopRow < HEIGHT && k.stopCol < WIDTH
    requires left == 80 || (left == 0 && StopPosition(k) >= WIDTH)
    ensures k.AtStop() <==> l.text != []
  {
  }

  // ---- the terminal ----

  /** Characters that move the cursor by one. */
  predicate Printable(text: seq<Byte>) {
    forall k :: 0 <= k < |text| ==> text[k] >= 32
  }

  /** Where a prompt of n characters on a new row leaves the cursor. */
  function PromptCol(n: nat): nat {
    if n == 0 then 0 else (n - 1) % WIDTH + 1
  }

  function PromptRow(d: Display, n: nat): nat {
    var row := d.row + 1 + (if n == 0 then 0 else (n - 1) / WIDTH);
    if row < HEIGHT then row else HEIGHT - 1
  }

  lemma {:induction false} PromptEnds(d: Display, prompt: seq<Byte>)
    requires d.Valid() && Printable(prompt)
    ensures Print(NewLine(d), prompt).col == PromptCol(|prompt|)
    ensures Print(NewLine(d), prompt).row == PromptRow(d, |prompt|)
    decreases |prompt|
  {
    if prompt == [] {
    } else {
      PromptEnds(d, prompt[..|prompt| - 1]);
      NextCell(|prompt| - 1);
    }
  }

  lemma NextCell(n: nat)
    ensures n == 0 || PromptCol(n) == WIDTH ==> n % WIDTH == 0 && (n > 0 ==> (n - 1) / WIDTH + 1 == n / WIDTH)
    ensures n > 0 && PromptCol(n) < WIDTH ==> n % WIDTH == (n - 1) % WIDTH + 1 && (n - 1) / WIDTH == n / WIDTH
  {
  }

  const PROMPT_COLOR: Byte := 7

  /** What the terminal prints before it waits for a line: a newline, and the prompt in its own colour. */
  function WithPrompt(d: Display, prompt: seq<Byte>): (r: Display)
    requires d.Valid()
    ensures r.Valid()
  {
    PrintIn(NewLine(d), PROMPT_COLOR, prompt).0
  }

  lemma PromptPlace(d: Display, prompt: seq<Byte>)
    requires d.Valid() && Printable(prompt)
    ensures WithPrompt(d, prompt).col == PromptCol(|prompt|) && WithPrompt(d, prompt).row == PromptRow(d, |prompt|)
  {
    PromptEnds(d, prompt);
    PlainPrints(NewLine(d), prompt);
    ColorsEndAlike(NewLine(d), NewLine(d), PROMPT_COLOR, d.color, prompt);
  }

  /**
   In the terminal's loop, where a line starts behind a prompt on a new row, the guard is right
   iff the prompt does not fill its last row and leaves 127 cells below it.
   */
  lemma TerminalGuardRightIff(k: Keyboard, d: Display, prompt: seq<Byte>)
    requires Ready(k) && d.Valid() && Printable(prompt) && k.screen == WithPrompt(d, prompt)
    ensures GuardAlwaysRight(k) <==>
      PromptCol(|prompt|) < WIDTH && PromptRow(d, |prompt|) * WIDTH + PromptCol(|prompt|) + 127 <= HEIGHT * WIDTH
  {
    PromptPlace(d, prompt);
    GuardRightIff(k);
  }

  /** So once the output has come to the last two rows, no prompt makes the guard right. */
  lemma LastRowNeverRight(k: Keyboard, d: Display, prompt: seq<Byte>)
    requires Ready(k) && d.Valid() && Printable(prompt) && k.screen == WithPrompt(d, prompt)
    requires d.row >= HEIGHT - 2
    ensures k.stopRow == HEIGHT - 1 && !GuardAlwaysRight(k)
  {
    PromptPlace(d, prompt);
    TerminalGuardRightIff(k, d, prompt);
  }
}
