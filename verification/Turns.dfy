/** One turn after the other of the loop of terminal/terminal.c: prompt, wait for a line, print it. */
module Turns {
  import opened Displays
  import opened Keyboards
  import opened LineEditing

  /** The keyboard once the terminal has printed its prompt and started to wait. */
  function Prompted(k: Keyboard, prompt: seq<Byte>): (r: Keyboard)
    requires k.Valid()
    ensures r.Valid()
  {
    var d := WithPrompt(k.screen, prompt);
    k.(screen := d, stopRow := d.row, stopCol := d.col, input := true)
  }

  /** The keyboard once the line typed is copied out and printed. */
  function Answered(k: Keyboard, text: seq<Byte>): (r: Keyboard)
    requires k.Valid() && 0 <= k.tail
    ensures r.Valid()
  {
    k.(head := k.tail, screen := PrintAll(k.screen, text).0)
  }

  /** The line that the user edits with these keys. */
  function LineOf(caps: bool, events: seq<Key>): Line {
    Edit(Line([], caps, false), events)
  }

  /** The lines that the user edits, one after the other; only caps lock lasts from one to the next. */
  function LinesOf(caps: bool, inputs: seq<seq<Key>>): (lines: seq<seq<Byte>>)
    ensures |lines| == |inputs|
    decreases |inputs|
  {
    if inputs == [] then []
    else [LineOf(caps, inputs[0]).text] + LinesOf(LineOf(caps, inputs[0]).caps, inputs[1..])
  }

  /** Where one turn of the loop leaves the keyboard. */
  function AfterLine(k: Keyboard, prompt: seq<Byte>, events: seq<Key>): (r: Keyboard)
    requires k.Valid() && Type(Prompted(k, prompt), events).Went? && 0 <= Type(Prompted(k, prompt), events).k.tail
    ensures r.Valid()
  {
    Answered(Type(Prompted(k, prompt), events).k, LineOf(k.caps, events).text)
  }

  /** k' is where a turn leads from k. */
  ghost predicate Turned(k: Keyboard, prompt: seq<Byte>, events: seq<Key>, k': Keyboard)
    requires k.Valid()
  {
    && Type(Prompted(k, prompt), events).Went? && 0 <= Type(Prompted(k, prompt), events).k.tail
    && k' == AfterLine(k, prompt, events)
  }

  // ---- one line ----

  /** Between two lines nothing is pending, so the next one starts ready. */
  lemma PromptedIsReady(k: Keyboard, prompt: seq<Byte>)
    requires k.Valid() && k.head == k.tail
    ensures Ready(Prompted(k, prompt)) && NewLineOf(Prompted(k, prompt)) == Line([], k.caps, false)
  {
  }

  /** What the user edits without the tab key is printable. */
  lemma {:induction false} EditPrints(l: Line, events: seq<Key>)
    requires Typeable(l, events, 127) && Printable(l.text)
    ensures Printable(Edit(l, events).text)
    decreases events
  {
    if events == [] {
    } else {
      if TypesNow(l, events[0]) {
        CharsPrint(events[0].scan, l.caps);
      }
      EditPrints(Edit1(l, events[0]), events[1..]);
    }
  }

  /** The prompt prints, and at it the line fits and can be returned. */
  ghost predicate Answerable(k: Keyboard, prompt: seq<Byte>, events: seq<Key>)
    requires k.Valid()
  {
    && PrintIn(NewLine(k.screen), PROMPT_COLOR, prompt).1
    && Fits(Prompted(k, prompt), events) && Returnable(Prompted(k, prompt), events)
  }

  /** A turn gives back the line that the user edited, and leaves nothing pending. */
  lemma LineComesBack(k: Keyboard, prompt: seq<Byte>, events: seq<Key>)
    requires k.Valid() && k.head == k.tail && Answerable(k, prompt, events)
    ensures Deliverable(Prompted(k, prompt), events)
    ensures
      var (r, l) := (Type(Prompted(k, prompt), events), LineOf(k.caps, events));
      && r.Went? && 0 <= r.k.tail && Contents(r.k) == l.text + [NUL] && Printable(l.text)
      && AfterLine(k, prompt, events).head == AfterLine(k, prompt, events).tail
      && AfterLine(k, prompt, events).caps == l.caps
  {
    var p := Prompted(k, prompt);
    PromptedIsReady(k, prompt);
    LineReturned(p, events);
    TypingDelivers(p, NewLineOf(p), 0, events);
    EditPrints(NewLineOf(p), events);
  }

  lemma CommandIs(buffer: seq<Byte>, text: seq<Byte>, size: nat)
    requires Printable(text) && size <= |buffer| && buffer[..size] == text + [NUL]
    ensures NUL in buffer && Text(buffer) == text && Plain(text)
  {
    var front := buffer[..size];
    assert front[..|text|] == text && front[|text|] == NUL;
    assert buffer[..|text|] == front[..|text|] && buffer[|text|] == front[|text|];
    TextIs(buffer, text);
  }

  // ---- any number of lines ----

  /** Each line fits, and can be returned, where the ones before it leave ring and screen. */
  ghost predicate Session(k: Keyboard, prompt: seq<Byte>, inputs: seq<seq<Key>>)
    requires k.Valid() && k.head == k.tail
    decreases |inputs|
  {
    inputs == []
    || (Answerable(k, prompt, inputs[0])
        && (LineComesBack(k, prompt, inputs[0]); Session(AfterLine(k, prompt, inputs[0]), prompt, inputs[1..])))
  }

  lemma SessionStep(k: Keyboard, prompt: seq<Byte>, inputs: seq<seq<Key>>, n: nat)
    requires k.Valid() && k.head == k.tail && n < |inputs| && Session(k, prompt, inputs[n..])
    ensures Answerable(k, prompt, inputs[n])
    ensures
      var r := Type(Prompted(k, prompt), inputs[n]);
      && r.Went? && 0 <= r.k.tail
      && var k' := AfterLine(k, prompt, inputs[n]);
         && k'.head == k'.tail && k'.caps == LineOf(k.caps, inputs[n]).caps
         && Session(k', prompt, inputs[n + 1..])
  {
    assert inputs[n..][0] == inputs[n] && inputs[n..][1..] == inputs[n + 1..];
    LineComesBack(k, prompt, inputs[n]);
  }

  /** One line more has come back, and one less is to come. */
  lemma LinesStep(caps: bool, inputs: seq<seq<Key>>, n: nat, commands: seq<seq<Byte>>)
    requires n < |inputs|
    ensures
      var l := LineOf(caps, inputs[n]);
      commands + LinesOf(caps, inputs[n..]) == commands + [l.text] + LinesOf(l.caps, inputs[n + 1..])
  {
    assert inputs[n..][0] == inputs[n] && inputs[n..][1..] == inputs[n + 1..];
    var l := LineOf(caps, inputs[n]);
    assert LinesOf(caps, inputs[n..]) == [l.text] + LinesOf(l.caps, inputs[n + 1..]);
  }

  // ---- lines typed without backspace ----

  /** Neither the backspace nor the tab key is pressed. */
  predicate JustTypes(events: seq<Key>) {
    forall i :: 0 <= i < |events| && !events[i].released ==>
      events[i].scan != SCAN_BACKSPACE && events[i].scan != SCAN_TAB
  }

  /** Then no guard and no pop comes into it, wherever ring and screen are. */
  lemma {:induction false} JustTypesFits(k: Keyboard, l: Line, events: seq<Key>)
    requires k.Valid() && JustTypes(events) && |Edit(l, events).text| <= 126
    ensures |l.text| <= |Edit(l, events).text|
    ensures Typeable(l, events, 127) && GuardHolds(k, l, events) && !PopsAtWrap(l, events, k.head)
    decreases events
  {
    if events == [] {
    } else {
      var r := Handle(k, events[0]);
      assert forall i :: 0 <= i < |events[1..]| ==> events[1..][i] == events[i + 1];
      JustTypesFits(if r.Went? then r.k else k, Edit1(l, events[0]), events[1..]);
    }
  }

  /** So every such line comes back, over any number of them, and however far the screen has scrolled. */
  lemma {:induction false} JustTypesSession(k: Keyboard, prompt: seq<Byte>, inputs: seq<seq<Key>>)
    requires k.Valid() && k.head == k.tail && Printable(prompt)
    requires forall n :: 0 <= n < |inputs| ==> HasEnter(inputs[n]) && JustTypes(inputs[n])
    requires forall n :: 0 <= n < |inputs| ==> |LinesOf(k.caps, inputs)[n]| <= 126
    ensures Session(k, prompt, inputs)
    decreases |inputs|
  {
    if inputs == [] {
    } else {
      assert |LinesOf(k.caps, inputs)[0]| <= 126;
      JustTypesAnswerable(k, prompt, inputs[0]);
      LineComesBack(k, prompt, inputs[0]);
      var k' := AfterLine(k, prompt, inputs[0]);
      forall n | 0 <= n < |inputs[1..]| ensures |LinesOf(k'.caps, inputs[1..])[n]| <= 126 {
        assert LinesOf(k'.caps, inputs[1..])[n] == LinesOf(k.caps, inputs)[n + 1];
      }
      assert forall n :: 0 <= n < |inputs[1..]| ==> inputs[1..][n] == inputs[n + 1];
      JustTypesSession(k', prompt, inputs[1..]);
    }
  }

  lemma JustTypesAnswerable(k: Keyboard, prompt: seq<Byte>, events: seq<Key>)
    requires k.Valid() && Printable(prompt)
    requires HasEnter(events) && JustTypes(events) && |LineOf(k.caps, events).text| <= 126
    ensures Answerable(k, prompt, events)
  {
    PlainPrints(NewLine(k.screen), prompt);
    ColorsEndAlike(NewLine(k.screen), NewLine(k.screen), PROMPT_COLOR, k.screen.color, prompt);
    JustTypesFits(Prompted(k, prompt), NewLineOf(Prompted(k, prompt)), events);
  }

  /** From turn n on the session goes on, and with the lines that came back it gives `lines`. */
  ghost predicate GoesOn(
    k: Keyboard, prompt: seq<Byte>, inputs: seq<seq<Key>>, n: nat, commands: seq<seq<Byte>>, lines: seq<seq<Byte>>)
    requires k.Valid() && n <= |inputs|
  {
    k.head == k.tail && Session(k, prompt, inputs[n..]) && commands + LinesOf(k.caps, inputs[n..]) == lines
  }

  lemma TurnAdvances(
    k: Keyboard, prompt: seq<Byte>, inputs: seq<seq<Key>>, n: nat, commands: seq<seq<Byte>>, lines: seq<seq<Byte>>,
    k': Keyboard)
    requires k.Valid() && k'.Valid() && n < |inputs| && GoesOn(k, prompt, inputs, n, commands, lines)
    requires Turned(k, prompt, inputs[n], k')
    ensures GoesOn(k', prompt, inputs, n + 1, commands + [LineOf(k.caps, inputs[n]).text], lines)
  {
    SessionStep(k, prompt, inputs, n);
    LinesStep(k.caps, inputs, n, commands);
  }

  lemma FirstAnswerable(
    k: Keyboard, prompt: seq<Byte>, inputs: seq<seq<Key>>, n: nat, commands: seq<seq<Byte>>, lines: seq<seq<Byte>>)
    requires k.Valid() && n < |inputs| && GoesOn(k, prompt, inputs, n, commands, lines)
    ensures Answerable(k, prompt, inputs[n])
  {
    SessionStep(k, prompt, inputs, n);
  }
}
