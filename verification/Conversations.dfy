/** What the screen shows while a line is edited, after a turn of the terminal's loop, and after any number of turns. */
module Conversations {
  import opened Displays
  import opened Transcript
  import opened Keyboards
  import opened LineEditing
  import opened Turns

  // ---- a text whose end is edited ----

  /**
   The last line of the text is full, and the cursor is at the start of an empty line behind it: what was
   there was taken back.
   */
  ghost predicate Folded(d: Display, text: seq<Ink>, top: nat) {
    |Last(Layout(text))| == WIDTH && ShowsFrom(d, Layout(text) + [[]], top)
  }

  ghost predicate ShowsText(d: Display, text: seq<Ink>, top: nat) {
    ShowsFrom(d, Layout(text), top) || Folded(d, text, top)
  }

  /** One more character, which scrolls the screen only behind its last cell. */
  lemma PutText(d: Display, text: seq<Ink>, top: nat, ink: Ink)
    requires d.Valid() && ShowsText(d, text, top) && PlainChar(ink.ch) && ink.ch != NEWLINE
    ensures ShowsFrom(PutIn(d, ink.color, ink.ch), Layout(text + [ink]), TopAfter(d, top, ink.ch))
  {
    LayoutExtend(text, ink);
    if ShowsFrom(d, Layout(text), top) {
      PutShows(d, Layout(text), top, ink);
    } else {
      var lines: Lines := Layout(text) + [[]];
      PutShows(d, lines, top, ink);
      assert lines[..|lines| - 1] == Layout(text) && Last(lines) + [ink] == [ink];
    }
  }

  /** What taking the last character of an extended layout away leaves. */
  lemma ExtendBack(lines: Lines, ink: Ink)
    requires ink.ch != NEWLINE && |Last(lines)| <= WIDTH
    ensures
      var more := Extend(lines, ink);
      && Last(more) != []
      && more[..|more| - 1] + [Last(more)[..|Last(more)| - 1]] == if |Last(lines)| == WIDTH then lines + [[]] else lines
  {
    var more := Extend(lines, ink);
    if |Last(lines)| == WIDTH {
      assert more[..|more| - 1] == lines;
    } else {
      assert more[..|more| - 1] == lines[..|lines| - 1];
    }
  }

  lemma LastFits(text: seq<Ink>)
    ensures |Last(Layout(text))| <= WIDTH
    decreases |text|
  {
    var p := Paragraph(text);
    if |p| == |text| {
      ChunksAreCuts(p);
    } else {
      LastFits(text[|p| + 1..]);
    }
  }

  /** And one less. */
  lemma BackText(d: Display, text: seq<Ink>, top: nat, ink: Ink)
    requires d.Valid() && ShowsText(d, text + [ink], top) && ink.ch != NEWLINE && d.Position() > 0
    ensures CanPut(d, BACKSPACE) && ShowsText(PutChar(d, BACKSPACE), text, top)
  {
    LayoutExtend(text, ink);
    LastFits(text);
    ExtendBack(Layout(text), ink);
    if ShowsFrom(d, Layout(text + [ink]), top) {
      BackspaceInLine(d, Layout(text + [ink]), top);
    } else {
      BackspaceAcross(d, Layout(text + [ink]), top);
    }
  }

  // ---- one key, and all keys ----

  /** The screen shows the line behind `base`. */
  ghost predicate ShowsLine(k: Keyboard, base: seq<Ink>, l: Line, top: nat) {
    ShowsText(k.screen, base + Inks(l.text, k.screen.color), top)
  }

  lemma InksAppend(base: seq<Ink>, text: seq<Byte>, ch: Byte, color: Byte)
    ensures base + Inks(text + [ch], color) == base + Inks(text, color) + [Ink(ch, color)]
  {
  }

  lemma TypedShows(k: Keyboard, base: seq<Ink>, l: Line, scrolls: nat, ch: Byte, top: nat)
    requires Editing(k, l, scrolls) && ShowsLine(k, base, l, top) && ch >= 32 && HandleChar(k, ch).Went?
    ensures
      var top' := if |l.text| == Room(k) + scrolls * WIDTH then top + 1 else top;
      ShowsLine(HandleChar(k, ch).k, base, l.(text := l.text + [ch]), top')
  {
    var d := k.screen;
    InksAppend(base, l.text, ch, d.color);
    PutText(d, base + Inks(l.text, d.color), top, Ink(ch, d.color));
    assert |l.text| == Room(k) + scrolls * WIDTH <==> d.row == HEIGHT - 1 && d.col == WIDTH;
  }

  lemma ErasedShows(k: Keyboard, base: seq<Ink>, l: Line, scrolls: nat, top: nat)
    requires Editing(k, l, scrolls) && ShowsLine(k, base, l, top) && l.text != [] && Printable(l.text)
    ensures CanPut(k.screen, BACKSPACE)
    ensures ShowsText(PutChar(k.screen, BACKSPACE), base + Inks(l.text[..|l.text| - 1], k.screen.color), top)
  {
    var d, init, ch := k.screen, l.text[..|l.text| - 1], l.text[|l.text| - 1];
    CursorIsPositive(k, l.text, scrolls);
    assert l.text == init + [ch];
    InksAppend(base, init, ch, d.color);
    BackText(d, base + Inks(init, d.color), top, Ink(ch, d.color));
  }

  /** A key with a character, which is printable. */
  lemma CharKeyIs(k: Keyboard, l: Line, e: Key) returns (ch: Byte)
    requires k.Valid() && k.input && k.caps == l.caps && TypesNow(l, e) && e.scan != SCAN_TAB
    ensures ch >= 32 && Handle(k, e) == HandleChar(k, ch) && Edit1(l, e) == l.(text := l.text + [ch])
  {
    ch := Char(e.scan, k.caps);
    CharsPrint(e.scan, k.caps);
  }

  lemma CharKeyShows(k: Keyboard, base: seq<Ink>, l: Line, scrolls: nat, e: Key, top: nat)
    requires Editing(k, l, scrolls) && TypesNow(l, e) && e.scan != SCAN_TAB && Handle(k, e).Went?
    requires ShowsLine(k, base, l, top)
    ensures ShowsLine(Handle(k, e).k, base, Edit1(l, e), top + ScrollsAfter(k, l, scrolls, e) - scrolls)
  {
    var ch := CharKeyIs(k, l, e);
    TypedShows(k, base, l, scrolls, ch, top);
  }

  lemma BackKeyShows(k: Keyboard, base: seq<Ink>, l: Line, scrolls: nat, e: Key, top: nat)
    requires Editing(k, l, scrolls) && GuardFits(k, l, e) && Handle(k, e).Went?
    requires e.scan == SCAN_BACKSPACE && !e.released
    requires ShowsLine(k, base, l, top) && Printable(l.text)
    ensures ShowsLine(Handle(k, e).k, base, Edit1(l, e), top)
  {
    if l.text != [] {
      ErasedShows(k, base, l, scrolls, top);
    }
  }

  /** Every key that the guard fits keeps the screen showing the line behind what stood before it. */
  lemma StepShows(k: Keyboard, base: seq<Ink>, l: Line, scrolls: nat, e: Key, top: nat)
    requires Editing(k, l, scrolls) && RoomFor(l, e, 127) && GuardFits(k, l, e) && !IsEnter(e) && Handle(k, e).Went?
    requires ShowsLine(k, base, l, top) && Printable(l.text)
    ensures ShowsLine(Handle(k, e).k, base, Edit1(l, e), top + ScrollsAfter(k, l, scrolls, e) - scrolls)
  {
    if TypesNow(l, e) {
      CharKeyShows(k, base, l, scrolls, e, top);
    } else if e.scan == SCAN_BACKSPACE && !e.released {
      BackKeyShows(k, base, l, scrolls, e, top);
    } else {
      assert Handle(k, e).k.screen == k.screen && Edit1(l, e).text == l.text;
    }
  }

  lemma StepPrintable(l: Line, e: Key)
    requires Printable(l.text) && RoomFor(l, e, 127)
    ensures Printable(Edit1(l, e).text)
  {
    if TypesNow(l, e) {
      CharsPrint(e.scan, l.caps);
    }
  }

  /** Ring and screen follow the line, and the screen shows it. */
  ghost predicate Live(k: Keyboard, base: seq<Ink>, l: Line, scrolls: nat, top: nat) {
    Follows(k, l, scrolls) && Printable(l.text) && ShowsLine(k, base, l, top)
  }

  /** The keys up to an enter that bring the line back. */
  ghost predicate Ahead(k: Keyboard, l: Line, events: seq<Key>)
    requires k.Valid()
  {
    FitsFrom(k, l, events) && !PopsAtWrap(l, events, k.head)
  }

  lemma StepFollows(k: Keyboard, l: Line, scrolls: nat, events: seq<Key>)
    requires Follows(k, l, scrolls) && Ahead(k, l, events) && !IsEnter(events[0])
    ensures
      var (r, l') := (Handle(k, events[0]), Edit1(l, events[0]));
      && r.Went? && r.k.screen.color == k.screen.color && Room(r.k) == Room(k)
      && Follows(r.k, l', ScrollsAfter(k, l, scrolls, events[0])) && Ahead(r.k, l', events[1..])
  {
    EnterComesLater(events);
    StepKeepsRing(k, l, scrolls, events[0]);
    StepKeepsScreen(k, l, scrolls, events[0]);
  }

  lemma FirstFits(k: Keyboard, l: Line, events: seq<Key>)
    requires k.Valid() && Ahead(k, l, events)
    ensures RoomFor(l, events[0], 127) && GuardFits(k, l, events[0])
  {
  }

  lemma NextShows(
    k: Keyboard, base: seq<Ink>, l: Line, scrolls: nat, e: Key, top: nat, k': Keyboard, l': Line, top': nat)
    requires Editing(k, l, scrolls) && RoomFor(l, e, 127) && GuardFits(k, l, e) && !IsEnter(e)
    requires Printable(l.text) && ShowsLine(k, base, l, top)
    requires Handle(k, e) == Went(k') && l' == Edit1(l, e) && top' + scrolls == top + ScrollsAfter(k, l, scrolls, e)
    ensures ShowsLine(k', base, l', top') && Printable(l'.text)
  {
    StepShows(k, base, l, scrolls, e, top);
    StepPrintable(l, e);
  }

  /** A key that is not enter. */
  lemma StepLives(k: Keyboard, base: seq<Ink>, l: Line, scrolls: nat, events: seq<Key>, top: nat)
    returns (k': Keyboard, l': Line, top': nat)
    requires Live(k, base, l, scrolls, top) && Ahead(k, l, events) && !IsEnter(events[0])
    ensures Handle(k, events[0]) == Went(k') && l' == Edit1(l, events[0]) && k'.screen.color == k.screen.color
    ensures Room(k') == Room(k) && top' + scrolls == top + ScrollsAfter(k, l, scrolls, events[0])
    ensures Live(k', base, l', ScrollsAfter(k, l, scrolls, events[0]), top') && Ahead(k', l', events[1..])
  {
    StepFollows(k, l, scrolls, events);
    k', l' := Handle(k, events[0]).k, Edit1(l, events[0]);
    top' := top + ScrollsAfter(k, l, scrolls, events[0]) - scrolls;
    FirstFits(k, l, events);
    NextShows(k, base, l, scrolls, events[0], top, k', l', top');
  }

  function Break(color: Byte): seq<Ink> {
    [Ink(NEWLINE, color)]
  }

  function Gap(gap: bool, color: Byte): seq<Ink> {
    if gap then Break(color) else []
  }

  /** Enter breaks the line; where the line was folded that leaves an empty row. */
  lemma EnterShows(d: Display, text: seq<Ink>, top: nat) returns (gap: bool)
    requires d.Valid() && ShowsText(d, text, top)
    ensures gap <==> !ShowsFrom(d, Layout(text), top)
    ensures gap ==> |Last(Layout(text))| == WIDTH
    ensures ShowsFrom(NewLine(d), Layout(text + Gap(gap, d.color) + Break(d.color)), NextTop(d, top))
  {
    var ink := Ink(NEWLINE, d.color);
    gap := !ShowsFrom(d, Layout(text), top);
    LayoutExtend(text, ink);
    if gap {
      NewLineShows(d, Layout(text) + [[]], top);
      LayoutExtend(text + [ink], ink);
    } else {
      NewLineShows(d, Layout(text), top);
      assert text + [] == text;
    }
  }

  /** A longer text has no fewer lines. */
  lemma {:induction false} LayoutGrows(text: seq<Ink>, more: seq<Ink>)
    ensures |Layout(text)| <= |Layout(text + more)|
    decreases |more|
  {
    if more == [] {
      assert text + more == text;
    } else {
      var init, ink := more[..|more| - 1], more[|more| - 1];
      LayoutGrows(text, init);
      LayoutExtend(text + init, ink);
      assert text + init + [ink] == text + more;
    }
  }

  /** Has the screen not moved since it showed the last 25 lines of `base`, then enter leaves it showing the last 25. */
  lemma EnterKeepsTop(d: Display, base: seq<Ink>, text: seq<Ink>, top: nat, gap: bool)
    requires d.Valid() && ShowsText(d, base + text, top) && top == Top(Layout(base))
    requires gap <==> !ShowsFrom(d, Layout(base + text), top)
    ensures NextTop(d, top) == Top(Layout(base + text + Gap(gap, d.color) + Break(d.color)))
  {
    var ink := Ink(NEWLINE, d.color);
    LayoutGrows(base, text);
    LayoutExtend(base + text, ink);
    if gap {
      LayoutExtend(base + text + [ink], ink);
    } else {
      assert base + text + [] == base + text;
    }
  }

  /** The screen shows the line and a break behind `base`, and between them an empty row where the line was folded. */
  ghost predicate ShowsEnded(d: Display, base: seq<Ink>, text: seq<Byte>, gap: bool, top: nat) {
    var said := base + Inks(text, d.color);
    && (gap ==> |Last(Layout(said))| == WIDTH)
    && ShowsFrom(d, Layout(said + Gap(gap, d.color) + Break(d.color)), top)
  }

  ghost function TopEnded(base: seq<Ink>, text: seq<Byte>, gap: bool, color: Byte): nat {
    Top(Layout(base + Inks(text, color) + Gap(gap, color) + Break(color)))
  }

  lemma LastKeyShows(k: Keyboard, base: seq<Ink>, l: Line, scrolls: nat, events: seq<Key>, top: nat)
    returns (gap: bool, top': nat)
    requires Follows(k, l, scrolls) && events != [] && IsEnter(events[0]) && ShowsLine(k, base, l, top)
    ensures Type(k, events).Went? && Type(k, events).k.screen.color == k.screen.color
    ensures ShowsEnded(Type(k, events).k.screen, base, Edit(l, events).text, gap, top')
    ensures top == Top(Layout(base)) ==> top' == TopEnded(base, Edit(l, events).text, gap, k.screen.color)
  {
    EnterDelivers(k, l, scrolls, events[0]);
    DoneStays(Edit1(l, events[0]), events[1..]);
    assert Type(k, events) == Type(Handle(k, events[0]).k, events[1..]);
    gap := EnterShows(k.screen, base + Inks(l.text, k.screen.color), top);
    top' := NextTop(k.screen, top);
    if top == Top(Layout(base)) {
      EnterKeepsTop(k.screen, base, Inks(l.text, k.screen.color), top, gap);
    }
  }

  /** Up to and with the enter key. */
  lemma {:induction false} TypingShows(k: Keyboard, base: seq<Ink>, l: Line, scrolls: nat, events: seq<Key>, top: nat)
    returns (gap: bool, top': nat)
    requires Live(k, base, l, scrolls, top) && Ahead(k, l, events)
    ensures Type(k, events).Went? && Type(k, events).k.screen.color == k.screen.color
    ensures ShowsEnded(Type(k, events).k.screen, base, Edit(l, events).text, gap, top')
    ensures top == Top(Layout(base)) && scrolls == 0 && Typeable(l, events, Room(k)) ==>
              top' == TopEnded(base, Edit(l, events).text, gap, k.screen.color)
    decreases events
  {
    var e := events[0];
    if IsEnter(e) {
      gap, top' := LastKeyShows(k, base, l, scrolls, events, top);
    } else {
      var k1, l1, top1 := StepLives(k, base, l, scrolls, events, top);
      gap, top' := TypingShows(k1, base, l1, ScrollsAfter(k, l, scrolls, e), events[1..], top1);
    }
  }

  // ---- a turn ----

  /**
   What stands in the transcript after a turn: a break, the prompt in colour 7, the line, a break, and
   the line again.
   */
  ghost function Said(before: seq<Ink>, prompt: seq<Byte>, line: seq<Byte>, gap: bool, color: Byte): seq<Ink> {
    before + Break(color) + Inks(prompt, 7) + Inks(line, color) + Gap(gap, color) + Break(color) + Inks(line, color)
  }

  /** The prompt behind what the screen shows. */
  lemma PromptShows(d: Display, before: seq<Ink>, top: nat, prompt: seq<Byte>) returns (top': nat)
    requires d.Valid() && ShowsFrom(d, Layout(before), top) && Plain(prompt)
    ensures
      var text := before + Break(d.color) + Inks(prompt, 7);
      && ShowsFrom(WithPrompt(d, prompt), Layout(text), top') && WithPrompt(d, prompt).color == d.color
      && (top == Top(Layout(before)) ==> top' == Top(Layout(text)))
  {
    var ink := Ink(NEWLINE, d.color);
    NewLineShows(d, Layout(before), top);
    LayoutExtend(before, ink);
    if top == Top(Layout(before)) {
      TopStaysLast(d, Layout(before), ink);
    }
    top' := PrintInShows(NewLine(d), before + [ink], NextTop(d, top), 7, prompt);
  }

  lemma StartsLive(k: Keyboard, prompt: seq<Byte>, base: seq<Ink>, top: nat)
    requires k.Valid() && k.head == k.tail && ShowsFrom(Prompted(k, prompt).screen, Layout(base), top)
    ensures Live(Prompted(k, prompt), base, Line([], k.caps, false), 0, top)
  {
    assert base + Inks([], Prompted(k, prompt).screen.color) == base;
  }

  lemma AnswerShows(k: Keyboard, base: seq<Ink>, line: seq<Byte>, gap: bool, top: nat) returns (top': nat)
    requires k.Valid() && 0 <= k.tail && ShowsEnded(k.screen, base, line, gap, top) && Printable(line)
    ensures
      var text := base + Inks(line, k.screen.color) + Gap(gap, k.screen.color) + Break(k.screen.color);
      && ShowsFrom(Answered(k, line).screen, Layout(text + Inks(line, k.screen.color)), top')
      && Answered(k, line).screen.color == k.screen.color
      && (top == Top(Layout(text)) ==> top' == Top(Layout(text + Inks(line, k.screen.color))))
  {
    var c := k.screen.color;
    top' := PrintInShows(k.screen, base + Inks(line, c) + Gap(gap, c) + Break(c), top, c, line);
  }

  // ---- lines typed without backspace ----

  lemma PrintInStep(d: Display, color: Byte, ch: Byte, text: seq<Byte>)
    requires d.Valid() && CanPut(d, ch)
    ensures PrintIn(d, color, [ch] + text) == PrintIn(PutIn(d, color, ch), color, text)
  {
    assert ([ch] + text)[0] == ch && ([ch] + text)[1..] == text;
  }

  lemma OneJustTyped(k: Keyboard, l: Line, e: Key)
    requires k.Valid() && k.input && !l.done && k.caps == l.caps && !IsEnter(e) && Handle(k, e).Went?
    requires !e.released ==> e.scan != SCAN_BACKSPACE && e.scan != SCAN_TAB
    ensures
      var (k', l') := (Handle(k, e).k, Edit1(l, e));
      && k'.input && !l'.done && k'.caps == l'.caps && k'.screen.color == k.screen.color
      && (!TypesNow(l, e) ==> k'.screen == k.screen && l'.text == l.text)
      && (TypesNow(l, e) ==>
            var ch := Char(e.scan, l.caps);
            && ch >= 32 && CanPut(k.screen, ch) && l'.text == l.text + [ch]
            && k'.screen == PutIn(k.screen, k.screen.color, ch))
  {
    if TypesNow(l, e) {
      CharsPrint(e.scan, l.caps);
    }
  }

  lemma EnterJustPrints(k: Keyboard, l: Line, events: seq<Key>)
    requires k.Valid() && k.input && !l.done && events != [] && IsEnter(events[0]) && Type(k, events).Went?
    ensures Edit(l, events).text == l.text && Type(k, events).k.screen == NewLine(k.screen)
  {
    DoneStays(Edit1(l, events[0]), events[1..]);
    assert Type(k, events) == Type(Handle(k, events[0]).k, events[1..]);
  }

  /** What is added to a line by keys without backspace. */
  ghost predicate Adds(k: Keyboard, l: Line, events: seq<Key>, added: seq<Byte>)
    requires k.Valid() && Type(k, events).Went?
  {
    && Edit(l, events).text == l.text + added && Printable(added)
    && Type(k, events).k.screen == NewLine(PrintIn(k.screen, k.screen.color, added).0)
  }

  lemma TailJustTypes(events: seq<Key>)
    requires events != [] && JustTypes(events) && HasEnter(events) && !IsEnter(events[0])
    ensures JustTypes(events[1..]) && HasEnter(events[1..])
    ensures !events[0].released ==> events[0].scan != SCAN_BACKSPACE && events[0].scan != SCAN_TAB
  {
    EnterComesLater(events);
    assert forall i :: 0 <= i < |events[1..]| ==> events[1..][i] == events[i + 1];
  }

  lemma StepAdds(k: Keyboard, l: Line, events: seq<Key>, rest: seq<Byte>) returns (added: seq<Byte>)
    requires k.Valid() && k.input && !l.done && k.caps == l.caps && events != [] && !IsEnter(events[0])
    requires !events[0].released ==> events[0].scan != SCAN_BACKSPACE && events[0].scan != SCAN_TAB
    requires Type(k, events).Went? && Handle(k, events[0]).Went?
    requires Type(Handle(k, events[0]).k, events[1..]) == Type(k, events)
    requires Adds(Handle(k, events[0]).k, Edit1(l, events[0]), events[1..], rest)
    ensures Adds(k, l, events, added)
  {
    var e := events[0];
    OneJustTyped(k, l, e);
    if TypesNow(l, e) {
      var ch := Char(e.scan, l.caps);
      added := [ch] + rest;
      PrintInStep(k.screen, k.screen.color, ch, rest);
      assert l.text + [ch] + rest == l.text + added;
    } else {
      added := rest;
    }
  }

  /** Without backspace the keys just print what they add to the line, and enter breaks it. */
  lemma {:induction false} JustTypesPrints(k: Keyboard, l: Line, events: seq<Key>) returns (added: seq<Byte>)
    requires k.Valid() && k.input && !l.done && k.caps == l.caps && JustTypes(events) && HasEnter(events)
    requires Type(k, events).Went?
    ensures Adds(k, l, events, added)
    decreases events
  {
    var e := events[0];
    if IsEnter(e) {
      EnterJustPrints(k, l, events);
      added := [];
    } else {
      TailJustTypes(events);
      OneJustTyped(k, l, e);
      var rest := JustTypesPrints(Handle(k, e).k, Edit1(l, e), events[1..]);
      added := StepAdds(k, l, events, rest);
    }
  }

  /** So they show the line without an empty row, and go on showing the last 25 lines. */
  lemma JustTypesShows(k: Keyboard, base: seq<Ink>, caps: bool, events: seq<Key>, top: nat) returns (top': nat)
    requires k.Valid() && k.input && k.caps == caps && JustTypes(events) && HasEnter(events) && Type(k, events).Went?
    requires ShowsFrom(k.screen, Layout(base), top)
    ensures Type(k, events).k.screen.color == k.screen.color
    ensures ShowsEnded(Type(k, events).k.screen, base, LineOf(caps, events).text, false, top')
    ensures top == Top(Layout(base)) ==> top' == TopEnded(base, LineOf(caps, events).text, false, k.screen.color)
  {
    var d, c := k.screen, k.screen.color;
    var line := JustTypesPrints(k, Line([], caps, false), events);
    assert [] + line == line;
    var text := base + Inks(line, c);
    var top1 := PrintInShows(d, base, top, c, line);
    var d1, ink := PrintIn(d, c, line).0, Ink(NEWLINE, c);
    NewLineShows(d1, Layout(text), top1);
    LayoutExtend(text, ink);
    if top == Top(Layout(base)) {
      TopStaysLast(d1, Layout(text), ink);
    }
    assert text + Gap(false, c) == text;
    top' := NextTop(d1, top1);
  }

  // ---- turns ----

  /** In these cases the screen goes on showing the last 25 lines: the line finds room on it, or it is just typed. */
  ghost predicate Tight(k: Keyboard, prompt: seq<Byte>, events: seq<Key>)
    requires k.Valid()
  {
    JustTypes(events) || Typeable(Line([], k.caps, false), events, Room(Prompted(k, prompt)))
  }

  lemma LineShows(k: Keyboard, prompt: seq<Byte>, base: seq<Ink>, events: seq<Key>, top: nat)
    returns (gap: bool, top': nat)
    requires k.Valid() && k.head == k.tail && Answerable(k, prompt, events)
    requires ShowsFrom(Prompted(k, prompt).screen, Layout(base), top)
    ensures Type(Prompted(k, prompt), events).Went?
    ensures
      var (p, line) := (Prompted(k, prompt), LineOf(k.caps, events).text);
      var d := Type(p, events).k.screen;
      && d.color == p.screen.color && ShowsEnded(d, base, line, gap, top') && (JustTypes(events) ==> !gap)
      && (Tight(k, prompt, events) && top == Top(Layout(base)) ==> top' == TopEnded(base, line, gap, p.screen.color))
  {
    var p := Prompted(k, prompt);
    LineComesBack(k, prompt, events);
    if JustTypes(events) {
      gap := false;
      top' := JustTypesShows(p, base, k.caps, events, top);
    } else {
      StartsLive(k, prompt, base, top);
      gap, top' := TypingShows(p, base, Line([], k.caps, false), 0, events, top);
    }
  }

  /** Screen d' shows what d showed and a turn behind it; `tight` says that it goes on showing the last 25 lines. */
  ghost predicate ShowsTurn(
    d: Display, d': Display, before: seq<Ink>, top: nat, prompt: seq<Byte>, line: seq<Byte>, gap: bool,
    top': nat, tight: bool)
  {
    var (c, said) := (d.color, Said(before, prompt, line, gap, d.color));
    && d'.color == c && ShowsFrom(d', Layout(said), top')
    && (gap ==> |Last(Layout(before + Break(c) + Inks(prompt, 7) + Inks(line, c)))| == WIDTH)
    && (tight && top == Top(Layout(before)) ==> top' == Top(Layout(said)))
  }

  /**
   A turn of the loop, whatever keys edit the line: behind what the screen showed before it then shows a break, the
   prompt in colour 7, the line as it was edited, a break and the line as it was printed back, wrapped at 80 columns.
   Only where the user took back a character that had wrapped there may be an empty row more.
   If the screen showed the last 25 lines, and the line found room on it or was just typed, it shows the last 25 again.
   */
  lemma TurnShows(k: Keyboard, prompt: seq<Byte>, events: seq<Key>, before: seq<Ink>, top: nat)
    returns (gap: bool, top': nat)
    requires k.Valid() && k.head == k.tail && Answerable(k, prompt, events)
    requires Plain(prompt) && ShowsFrom(k.screen, Layout(before), top)
    ensures Type(Prompted(k, prompt), events).Went? && 0 <= Type(Prompted(k, prompt), events).k.tail
    ensures
      ShowsTurn(
        k.screen, AfterLine(k, prompt, events).screen, before, top, prompt, LineOf(k.caps, events).text, gap, top',
        Tight(k, prompt, events))
    ensures JustTypes(events) ==> !gap
  {
    var c, p, base := k.screen.color, Prompted(k, prompt), before + Break(k.screen.color) + Inks(prompt, 7);
    var top1 := PromptShows(k.screen, before, top, prompt);
    var top2;
    gap, top2 := LineShows(k, prompt, base, events, top1);
    LineComesBack(k, prompt, events);
    top' := AnswerShows(Type(p, events).k, base, LineOf(k.caps, events).text, gap, top2);
  }

  /** What stands in the transcript after a number of turns, with an empty row in those turns where `gaps` says so. */
  ghost function Spoken(
    before: seq<Ink>, prompt: seq<Byte>, lines: seq<seq<Byte>>, gaps: seq<bool>, color: Byte): seq<Ink>
    requires |gaps| == |lines|
    decreases |lines|
  {
    var n := |lines| - 1;
    if lines == [] then before
    else Said(Spoken(before, prompt, lines[..n], gaps[..n], color), prompt, lines[n], gaps[n], color)
  }

  lemma SpokenGoesOn(
    before: seq<Ink>, prompt: seq<Byte>, lines: seq<seq<Byte>>, gaps: seq<bool>, color: Byte,
    line: seq<Byte>, gap: bool)
    requires |gaps| == |lines|
    ensures Spoken(before, prompt, lines + [line], gaps + [gap], color)
         == Said(Spoken(before, prompt, lines, gaps, color), prompt, line, gap, color)
  {
    assert (lines + [line])[..|lines|] == lines && (gaps + [gap])[..|lines|] == gaps;
  }

  /**
   The screen shows what was said in these turns; if `last` holds, the last 25 lines of it, and without
   empty rows.
   */
  ghost predicate Recorded(
    d: Display, before: seq<Ink>, prompt: seq<Byte>, lines: seq<seq<Byte>>, gaps: seq<bool>, color: Byte,
    top: nat, last: bool)
  {
    && |gaps| == |lines| && d.color == color
    && var said := Spoken(before, prompt, lines, gaps, color);
       && ShowsFrom(d, Layout(said), top)
       && (last ==> top == Top(Layout(said)) && forall n :: 0 <= n < |gaps| ==> !gaps[n])
  }

  lemma RecordStarts(d: Display, before: seq<Ink>, prompt: seq<Byte>, top: nat, last: bool)
    requires ShowsFrom(d, Layout(before), top) && (last ==> top == Top(Layout(before)))
    ensures Recorded(d, before, prompt, [], [], d.color, top, last)
  {
  }

  lemma RecordGoesOn(
    d: Display, d': Display, before: seq<Ink>, prompt: seq<Byte>, lines: seq<seq<Byte>>, gaps: seq<bool>,
    top: nat, last: bool,
    line: seq<Byte>, gap: bool, top': nat, tight: bool)
    requires Recorded(d, before, prompt, lines, gaps, d.color, top, last)
    requires ShowsTurn(d, d', Spoken(before, prompt, lines, gaps, d.color), top, prompt, line, gap, top', tight)
    requires last ==> tight && !gap
    ensures Recorded(d', before, prompt, lines + [line], gaps + [gap], d.color, top', last)
  {
    SpokenGoesOn(before, prompt, lines, gaps, d.color, line, gap);
  }
}
