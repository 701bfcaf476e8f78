/** The demand-driven rolling summary: a capped transcript, one call at a time, spaced by the staleness window. */
module Summarizer {
  import opened Optionals
  import opened JsText

  const RESOLVED_ANSWERS_CAP: nat := 8

  /** What one summarizer call is given, and when it was started. */
  datatype Request = Request(transcript: string, prior: Option<string>, answers: seq<string>)

  /** The runtime's fields, with what it has sent out so far: its calls and its callbacks. */
  datatype Runtime = Runtime(
    transcript: string,
    answers: seq<string>,
    lastSummary: Option<string>,
    lastSummaryAt: int,
    inFlight: bool,
    disposed: bool,
    calls: seq<Request>,
    callbacks: nat
  )

  const FRESH: Runtime := Runtime("", [], None, 0, false, false, [], 0)

  function LastOf<T>(s: seq<T>, n: nat): seq<T> {
    if |s| > n then s[|s| - n..] else s
  }

  function Heard(r: Runtime, text: string, cap: nat): Runtime {
    var trimmed := Trim(text);
    if r.disposed || trimmed == "" then r
    else r.(transcript := LastOf(if r.transcript == "" then trimmed else r.transcript + "\n" + trimmed, cap))
  }

  function Answered(r: Runtime, text: string): Runtime {
    var trimmed := Trim(text);
    if r.disposed || trimmed == "" then r else r.(answers := LastOf(r.answers + [trimmed], RESOLVED_ANSWERS_CAP))
  }

  predicate Stale(r: Runtime, now: int, staleness: int) {
    r.lastSummaryAt == 0 || now - r.lastSummaryAt >= staleness
  }

  function Asked(r: Runtime, now: int, staleness: int): Runtime {
    if r.disposed || r.inFlight || r.transcript == "" || !Stale(r, now, staleness) then r
    else r.(inFlight := true, calls := r.calls + [Request(r.transcript, r.lastSummary, r.answers)])
  }

  /** The call under way settles: with a summary, or with an error. */
  function Settled(r: Runtime, summary: Option<string>, now: int): Runtime {
    if r.disposed then r.(inFlight := false)
    else
      r.(inFlight := false, lastSummary := if summary.Some? then summary else r.lastSummary, lastSummaryAt := now,
         callbacks := r.callbacks + 1)
  }

  class MeetingSummarizerRuntime {
    const staleness: int
    const cap: nat
    var transcript: string
    var answers: seq<string>
    var lastSummary: Option<string>
    var lastSummaryAt: int
    var inFlight: bool
    var disposed: bool
    /** What the summarizer and the owner have been called with. */
    var calls: seq<Request>
    var callbacks: nat

    constructor (staleness: int, cap: nat)
      ensures View() == FRESH && this.staleness == staleness && this.cap == cap
    {
      this.staleness, this.cap := staleness, cap;
      transcript, answers, lastSummary, lastSummaryAt := "", [], None, 0;
      inFlight, disposed, calls, callbacks := false, false, [], 0;
    }

    function View(): Runtime
      reads this
    {
      Runtime(transcript, answers, lastSummary, lastSummaryAt, inFlight, disposed, calls, callbacks)
    }

    method RecordUtterance(text: string)
      modifies this
      ensures View() == Heard(old(View()), text, cap)
    {
      if disposed {
        return;
      }
      var trimmed := Trim(text);
      if |trimmed| == 0 {
        return;
      }
      if |transcript| == 0 {
        transcript := trimmed;
      } else {
        transcript := transcript + "\n" + trimmed;
      }
      if |transcript| > cap {
        transcript := transcript[|transcript| - cap..];
      }
    }

    method RecordAssistantAnswer(text: string)
      modifies this
      ensures View() == Answered(old(View()), text)
    {
      if disposed {
        return;
      }
      var trimmed := Trim(text);
      if |trimmed| == 0 {
        return;
      }
      answers := answers + [trimmed];
      if |answers| > RESOLVED_ANSWERS_CAP {
        answers := answers[|answers| - RESOLVED_ANSWERS_CAP..];
      }
    }

    method RefreshIfStale(now: int)
      modifies this
      ensures View() == Asked(old(View()), now, staleness)
    {
      if disposed || inFlight {
        return;
      }
      if |transcript| == 0 {
        return;
      }
      if lastSummaryAt != 0 && now - lastSummaryAt < staleness {
        return;
      }
      inFlight := true;
      calls := calls + [Request(transcript, lastSummary, answers)];
    }

    method Settle(summary: Option<string>, now: int)
      modifies this
      ensures View() == Settled(old(View()), summary, now)
    {
      inFlight := false;
      if disposed {
        return;
      }
      if summary.Some? {
        lastSummary := summary;
      }
      lastSummaryAt := now;
      callbacks := callbacks + 1;
    }

    method Dispose()
      modifies this
      ensures View() == old(View()).(disposed := true)
    {
      disposed := true;
    }
  }

  // ---------- whole runs ----------

  datatype Event =
    | Utterance(text: string)
    | Answer(text: string)
    | Ask(now: int)
    | Done(summary: Option<string>, now: int)
    | Disposed

  /** A call settles only while one is under way; the clock reads positive times. */
  predicate Possible(r: Runtime, e: Event) {
    match e
    case Done(_, now) => r.inFlight && now > 0
    case _ => true
  }

  function Apply(r: Runtime, e: Event, cap: nat, staleness: int): Runtime {
    match e
    case Utterance(text) => Heard(r, text, cap)
    case Answer(text) => Answered(r, text)
    case Ask(now) => Asked(r, now, staleness)
    case Done(summary, now) => Settled(r, summary, now)
    case Disposed => r.(disposed := true)
  }

  function Run(events: seq<Event>, cap: nat, staleness: int): Runtime {
    if events == [] then FRESH
    else Apply(Run(events[..|events| - 1], cap, staleness), events[|events| - 1], cap, staleness)
  }

  predicate RunOk(events: seq<Event>, cap: nat, staleness: int) {
    events == [] || (RunOk(events[..|events| - 1], cap, staleness)
                     && Possible(Run(events[..|events| - 1], cap, staleness), events[|events| - 1]))
  }

  /** The trimmed non-blank utterances before the disposal. */
  function Spoken(events: seq<Event>): (lines: seq<string>)
    ensures forall i :: 0 <= i < |lines| ==> lines[i] != ""
  {
    if events == [] then []
    else
      var before, e := events[..|events| - 1], events[|events| - 1];
      Spoken(before) + if e.Utterance? && Trim(e.text) != "" && Disposed !in before then [Trim(e.text)] else []
  }

  function Answers(events: seq<Event>): seq<string> {
    if events == [] then []
    else
      var before, e := events[..|events| - 1], events[|events| - 1];
      Answers(before) + if e.Answer? && Trim(e.text) != "" && Disposed !in before then [Trim(e.text)] else []
  }

  function JoinLines(lines: seq<string>): string {
    if lines == [] then ""
    else if |lines| == 1 then lines[0]
    else JoinLines(lines[..|lines| - 1]) + "\n" + lines[|lines| - 1]
  }

  /** Cutting before adding does not change the last characters. */
  lemma LastOfLast<T>(s: seq<T>, t: seq<T>, n: nat)
    ensures LastOf(LastOf(s, n) + t, n) == LastOf(s + t, n)
  {
    assert |LastOf(s + t, n)| == |LastOf(LastOf(s, n) + t, n)|;
  }

  lemma {:induction false} JoinNonempty(lines: seq<string>)
    requires forall i :: 0 <= i < |lines| ==> lines[i] != ""
    ensures JoinLines(lines) == "" <==> lines == []
  {
  }

  lemma JoinStep(lines: seq<string>, line: string)
    ensures JoinLines(lines + [line]) == if lines == [] then line else JoinLines(lines) + "\n" + line
  {
    assert (lines + [line])[..|lines|] == lines;
  }

  /**
   * In every run, whatever is recorded, asked for, settled or disposed of in between, the transcript is the last `cap`
   * characters of all non-blank utterances joined by line breaks, and the answers carried are the last 8.
   */
  lemma {:induction false} TranscriptIsTail(events: seq<Event>, cap: nat, staleness: int)
    ensures var r := Run(events, cap, staleness);
      && r.transcript == LastOf(JoinLines(Spoken(events)), cap)
      && r.answers == LastOf(Answers(events), RESOLVED_ANSWERS_CAP)
      && (r.disposed <==> Disposed in events)
  {
    hide Trim, JoinLines, LastOf, Run, Spoken, Answers, Apply;
    if events == [] {
      NothingSaid(cap, staleness);
    } else {
      var before, e := events[..|events| - 1], events[|events| - 1];
      assert before + [e] == events;
      TranscriptIsTail(before, cap, staleness);
      RunStep(before, e, cap, staleness);
      WindowStep(Run(before, cap, staleness), before, e, cap, staleness);
    }
  }

  lemma NothingSaid(cap: nat, staleness: int)
    ensures Run([], cap, staleness) == FRESH && LastOf(JoinLines(Spoken([])), cap) == ""
    ensures LastOf(Answers([]), RESOLVED_ANSWERS_CAP) == []
  {
  }

  function Line(e: Event): string {
    if e.Utterance? then Trim(e.text) else ""
  }

  lemma RunStep(before: seq<Event>, e: Event, cap: nat, staleness: int)
    ensures Run(before + [e], cap, staleness) == Apply(Run(before, cap, staleness), e, cap, staleness)
    ensures Spoken(before + [e]) == Spoken(before) + if Line(e) != "" && Disposed !in before then [Line(e)] else []
    ensures Answers(before + [e])
         == Answers(before) + if e.Answer? && Trim(e.text) != "" && Disposed !in before then [Trim(e.text)] else []
  {
    hide Trim, Apply;
    assert (before + [e])[..|before|] == before;
  }

  lemma WindowStep(r: Runtime, before: seq<Event>, e: Event, cap: nat, staleness: int)
    requires r.transcript == LastOf(JoinLines(Spoken(before)), cap)
      && r.answers == LastOf(Answers(before), RESOLVED_ANSWERS_CAP)
    requires r.disposed <==> Disposed in before
    ensures var v := Apply(r, e, cap, staleness);
      && v.transcript == LastOf(JoinLines(Spoken(before + [e])), cap)
      && v.answers == LastOf(Answers(before + [e]), RESOLVED_ANSWERS_CAP)
      && (v.disposed <==> Disposed in before + [e])
  {
    hide Trim, JoinLines, LastOf, Spoken, Answers, Run;
    RunStep(before, e, cap, staleness);
    TailStep(Spoken(before), Line(e), cap);
    if e.Answer? {
      LastOfLast(Answers(before), [Trim(e.text)], RESOLVED_ANSWERS_CAP);
    }
    assert Answers(before) + [] == Answers(before);
  }

  lemma TailStep(lines: seq<string>, line: string, cap: nat)
    requires forall i :: 0 <= i < |lines| ==> lines[i] != ""
    ensures var window := LastOf(JoinLines(lines), cap);
      LastOf(if window == "" then line else window + "\n" + line, cap) == LastOf(JoinLines(lines + [line]), cap)
    ensures lines + [] == lines
  {
    hide JoinLines, LastOf;
    JoinNonempty(lines);
    JoinStep(lines, line);
    WindowJoin(JoinLines(lines), line, cap);
  }

  lemma WindowJoin(full: string, line: string, cap: nat)
    ensures var window := LastOf(full, cap);
      LastOf(if window == "" then line else window + "\n" + line, cap) ==
        LastOf(if full == "" then line else full + "\n" + line, cap)
  {
    hide LastOf;
    EmptyWindow(full, cap);
    var window := LastOf(full, cap);
    if window != "" {
      LastOfLast(full, "\n" + line, cap);
      BreakJoins(window, line);
      BreakJoins(full, line);
    } else {
      EmptyWindow(line, cap);
      EmptyWindow(full + "\n" + line, cap);
    }
  }

  lemma BreakJoins(text: string, line: string)
    ensures text + "\n" + line == text + ("\n" + line)
  {
  }

  lemma EmptyWindow(text: string, cap: nat)
    ensures LastOf(text, cap) == "" <==> text == "" || cap == 0
  {
  }

  /** The times at which calls were started, and at which they settled. */
  function Starts(events: seq<Event>, cap: nat, staleness: int): seq<int> {
    if events == [] then []
    else
      var before, e := events[..|events| - 1], events[|events| - 1];
      Starts(before, cap, staleness)
      + Started(Run(before, cap, staleness), Run(events, cap, staleness), e)
  }

  function Settles(events: seq<Event>): seq<int> {
    if events == [] then []
    else
      var before, e := events[..|events| - 1], events[|events| - 1];
      Settles(before) + if e.Done? then [e.now] else []
  }

  ghost predicate Timeline(r: Runtime, starts: seq<int>, settles: seq<int>, staleness: int) {
    && |r.calls| == |starts| == |settles| + (if r.inFlight then 1 else 0)
    && Spaced(starts, settles, staleness)
    && (!r.disposed ==>
          && r.lastSummaryAt == (if settles == [] then 0 else settles[|settles| - 1])
          && r.callbacks == |settles|)
    && (settles != [] ==> settles[|settles| - 1] > 0)
  }

  ghost predicate Spaced(starts: seq<int>, settles: seq<int>, staleness: int)
    requires |starts| <= |settles| + 1
  {
    forall i :: 1 <= i < |starts| ==> starts[i] - settles[i - 1] >= staleness
  }

  /**
   * In every run at most one call is under way, every call but the first starts at least the staleness window after the
   * one before it settled, well or badly, and each call settled before the disposal has had its one callback.
   */
  lemma {:induction false} OneCallAtATime(events: seq<Event>, cap: nat, staleness: int)
    requires RunOk(events, cap, staleness)
    ensures Timeline(Run(events, cap, staleness), Starts(events, cap, staleness), Settles(events), staleness)
  {
    hide Apply, Run, Starts, Settles, Timeline, Possible;
    if events == [] {
      NothingCalled(cap, staleness);
    } else {
      var before, e := events[..|events| - 1], events[|events| - 1];
      assert before + [e] == events;
      OneCallAtATime(before, cap, staleness);
      TimesStep(before, e, cap, staleness);
      TimelineStep(Run(before, cap, staleness), e, Starts(before, cap, staleness), Settles(before), cap, staleness);
    }
  }

  lemma NothingCalled(cap: nat, staleness: int)
    ensures Timeline(Run([], cap, staleness), Starts([], cap, staleness), Settles([]), staleness)
  {
  }

  function Started(r: Runtime, v: Runtime, e: Event): seq<int> {
    if e.Ask? && |v.calls| > |r.calls| then [e.now] else []
  }

  lemma TimesStep(before: seq<Event>, e: Event, cap: nat, staleness: int)
    ensures var r, v := Run(before, cap, staleness), Run(before + [e], cap, staleness);
      && v == Apply(r, e, cap, staleness)
      && Starts(before + [e], cap, staleness) == Starts(before, cap, staleness) + Started(r, v, e)
      && Settles(before + [e]) == Settles(before) + if e.Done? then [e.now] else []
  {
    hide Apply;
    assert (before + [e])[..|before|] == before;
  }

  lemma TimelineStep(r: Runtime, e: Event, starts: seq<int>, settles: seq<int>, cap: nat, staleness: int)
    requires Timeline(r, starts, settles, staleness) && Possible(r, e)
    ensures var v := Apply(r, e, cap, staleness);
      Timeline(v, starts + Started(r, v, e), settles + if e.Done? then [e.now] else [], staleness)
  {
    hide Trim, LastOf;
    assert starts + [] == starts && settles + [] == settles;
  }

  /** Nothing goes out after disposal: no callback, and no further call, whatever happens next. */
  lemma {:induction false} SilentAfterDispose(events: seq<Event>, more: seq<Event>, cap: nat, staleness: int)
    requires Run(events, cap, staleness).disposed
    ensures var r, s := Run(events, cap, staleness), Run(events + more, cap, staleness);
      s.disposed && s.callbacks == r.callbacks && s.calls == r.calls && s.lastSummary == r.lastSummary
  {
    hide Trim, LastOf;
    if more == [] {
      assert events + more == events;
    } else {
      SilentAfterDispose(events, more[..|more| - 1], cap, staleness);
      assert (events + more)[..|events + more| - 1] == events + more[..|more| - 1];
    }
  }

  // ---------- exactly which calls are made, and with what ----------

  /** The last summary that came back before the disposal, whatever errors came after it. */
  function Summary(events: seq<Event>): Option<string> {
    if events == [] then None
    else
      var before, e := events[..|events| - 1], events[|events| - 1];
      if e.Done? && e.summary.Some? && Disposed !in before then e.summary else Summary(before)
  }

  lemma SummaryStep(before: seq<Event>, e: Event)
    ensures Summary(before + [e]) ==
            if e.Done? && e.summary.Some? && Disposed !in before then e.summary else Summary(before)
  {
    assert (before + [e])[..|before|] == before;
  }

  lemma {:induction false} SummaryIsLast(events: seq<Event>, cap: nat, staleness: int)
    ensures Run(events, cap, staleness).lastSummary == Summary(events)
  {
    hide Trim, Run, Spoken, Answers, Summary, LastOf, Stale, JoinLines;
    if events == [] {
      NoSummary(cap, staleness);
    } else {
      var before, e := events[..|events| - 1], events[|events| - 1];
      assert before + [e] == events;
      SummaryIsLast(before, cap, staleness);
      TranscriptIsTail(before, cap, staleness);
      RunStep(before, e, cap, staleness);
      SummaryStep(before, e);
    }
  }

  lemma NoSummary(cap: nat, staleness: int)
    ensures Run([], cap, staleness).lastSummary == None && Summary([]) == None
  {
  }

  /**
   * Asking makes a call exactly when the runtime is not disposed, every earlier call has settled, something has been
   * heard, and no call has settled within the staleness window; and the call carries the tail of what was heard, the
   * last summary that came back, and the last 8 answers.
   */
  lemma AskedExactly(events: seq<Event>, now: int, cap: nat, staleness: int)
    requires RunOk(events, cap, staleness)
    ensures var before, after := Run(events, cap, staleness).calls, Run(events + [Ask(now)], cap, staleness).calls;
      var settles := Settles(events);
      var heard := LastOf(JoinLines(Spoken(events)), cap);
      var due := Disposed !in events && |before| == |settles| && heard != ""
                 && (settles == [] || now - settles[|settles| - 1] >= staleness);
      after == before + if due then [Request(heard, Summary(events), LastOf(Answers(events), 8))] else []
  {
    hide Trim, Run, Spoken, Answers, Summary, LastOf, JoinLines, Settles, Starts, Spaced;
    TranscriptIsTail(events, cap, staleness);
    SummaryIsLast(events, cap, staleness);
    OneCallAtATime(events, cap, staleness);
    RunStep(events, Ask(now), cap, staleness);
  }
}
