/** One synthesis, from the model's chunk stream to the calls made on the sink: stream early, ground or retract. */
module Synthesis {
  import opened JsText
  import opened Optionals
  import opened StatusGate
  import Citations

  datatype Chunk = StartChunk | TextDelta(delta: string) | DoneChunk

  /** How the chunk stream stopped, if it did not stop on a done chunk. */
  datatype Ending = Exhausted | Threw

  datatype Reason = RefusalReason | Ungrounded

  /** A citation as an answer is announced with it. */
  datatype RichCitation = RichCitation(rank: nat, cardId: string, quote: Option<string>)

  datatype SinkCall =
    | Start(sourceCardIds: seq<string>)
    | Delta(text: string)
    | Done(text: string, citations: seq<RichCitation>, additional: seq<nat>)
    | Refuse(reason: Reason)
    | Retract(reason: Reason)
    | Miss(reason: Reason)

  /** The verified citations of a final text; this synthesis's sources are fixed inside. */
  datatype Grounding = Grounding(citations: string -> seq<Citations.Detail>, alsoRanks: string -> seq<nat>,
                                 cardIds: seq<string>)

  // ---------- the decisions taken on done ----------

  predicate Survives(d: Citations.Detail, cardIds: seq<string>) {
    d.status != Citations.Dropped && 1 <= d.rank <= |cardIds|
  }

  function Enriched(d: Citations.Detail, cardIds: seq<string>): RichCitation
    requires Survives(d, cardIds)
  {
    RichCitation(d.rank, cardIds[d.rank - 1], d.quote)
  }

  /** Surviving citations whose rank has a card, each with the card at its rank and the quote it came with. */
  function Resolve(detail: seq<Citations.Detail>, cardIds: seq<string>): (rich: seq<RichCitation>)
    ensures forall k :: 0 <= k < |rich| ==>
      1 <= rich[k].rank <= |cardIds| && rich[k].cardId == cardIds[rich[k].rank - 1]
    ensures |rich| <= |detail|
  {
    if detail == [] then []
    else (if Survives(detail[0], cardIds) then [Enriched(detail[0], cardIds)] else []) + Resolve(detail[1..], cardIds)
  }

  /** What survives is resolved, in order and nothing else. */
  lemma {:induction false} ResolvesFrom(detail: seq<Citations.Detail>, cardIds: seq<string>, k: nat) returns (j: nat)
    requires k < |Resolve(detail, cardIds)|
    ensures j < |detail| && Survives(detail[j], cardIds)
    ensures Resolve(detail, cardIds)[k] == Enriched(detail[j], cardIds)
  {
    if !Survives(detail[0], cardIds) {
      assert [] + Resolve(detail[1..], cardIds) == Resolve(detail[1..], cardIds);
      j := ResolvesFrom(detail[1..], cardIds, k);
      j := j + 1;
    } else if k == 0 {
      j := 0;
    } else {
      j := ResolvesFrom(detail[1..], cardIds, k - 1);
      j := j + 1;
    }
  }

  lemma {:induction false} ResolvesTo(detail: seq<Citations.Detail>, cardIds: seq<string>, j: nat)
    requires j < |detail| && Survives(detail[j], cardIds)
    ensures Enriched(detail[j], cardIds) in Resolve(detail, cardIds)
  {
    if j > 0 {
      ResolvesTo(detail[1..], cardIds, j - 1);
      assert Enriched(detail[1..][j - 1], cardIds) in Resolve(detail[1..], cardIds);
    }
  }

  /** A citation announced is a surviving one. */
  ghost predicate Backed(c: RichCitation, detail: seq<Citations.Detail>, cardIds: seq<string>) {
    exists j: nat :: j < |detail| && Survives(detail[j], cardIds) && c == Enriched(detail[j], cardIds)
  }

  lemma ResolvesBoth(detail: seq<Citations.Detail>, cardIds: seq<string>)
    ensures var rich := Resolve(detail, cardIds);
      && (forall k :: 0 <= k < |rich| ==> Backed(rich[k], detail, cardIds))
      && (forall j :: 0 <= j < |detail| && Survives(detail[j], cardIds) ==> Enriched(detail[j], cardIds) in rich)
  {
    hide Resolve, Survives;
    var rich := Resolve(detail, cardIds);
    forall k | 0 <= k < |rich|
      ensures Backed(rich[k], detail, cardIds)
    {
      var j := ResolvesFrom(detail, cardIds, k);
    }
    forall j | 0 <= j < |detail| && Survives(detail[j], cardIds)
      ensures Enriched(detail[j], cardIds) in rich
    {
      ResolvesTo(detail, cardIds, j);
    }
  }

  function Uncited(ranks: seq<nat>, rich: seq<RichCitation>): (left: seq<nat>)
    ensures forall r :: r in left <==> r in ranks && forall c :: c in rich ==> c.rank != r
  {
    if ranks == [] then []
    else
      var rest := Uncited(ranks[1..], rich);
      if exists i :: 0 <= i < |rich| && rich[i].rank == ranks[0] then rest else [ranks[0]] + rest
  }

  predicate IsCited(rich: seq<RichCitation>, rank: nat) {
    exists i :: 0 <= i < |rich| && rich[i].rank == rank
  }

  lemma UncitedStep(ranks: seq<nat>, rich: seq<RichCitation>)
    ensures ranks == [] ==> Uncited(ranks, rich) == []
    ensures ranks != [] ==>
      Uncited(ranks, rich) == (if IsCited(rich, ranks[0]) then [] else [ranks[0]]) + Uncited(ranks[1..], rich)
  {
  }

  /** The ranks that are left are left in order, as often as they were given. */
  lemma {:induction false} UncitedSnoc(ranks: seq<nat>, rank: nat, rich: seq<RichCitation>)
    ensures Uncited(ranks + [rank], rich) == Uncited(ranks, rich) + if IsCited(rich, rank) then [] else [rank]
  {
    hide Uncited, IsCited;
    UncitedStep(ranks, rich);
    UncitedStep(ranks + [rank], rich);
    if ranks == [] {
      UncitedStep([], rich);
      assert (ranks + [rank])[1..] == [];
    } else {
      UncitedSnoc(ranks[1..], rank, rich);
      assert (ranks + [rank])[1..] == ranks[1..] + [rank];
    }
  }

  // ---------- the streaming state, as values ----------

  datatype Live = Live(accumulated: string, streaming: bool, streamedLen: nat, calls: seq<SinkCall>)

  const FRESH: Live := Live("", false, 0, [])

  predicate IsTerminator(c: char) {
    c == '.' || c == '!' || c == '?' || c == '\n'
  }

  /** The end of the last finished sentence in body[from..end], or `from` if none is finished. */
  function LastBreak(body: string, from: nat, end: nat): (r: nat)
    requires from <= end <= |body|
    ensures from <= r <= end
    ensures r == from || IsTerminator(body[r - 1])
    ensures forall i :: r <= i < end ==> !IsTerminator(body[i])
    decreases end
  {
    if end == from then from
    else if IsTerminator(body[end - 1]) then end
    else LastBreak(body, from, end - 1)
  }

  function Begin(l: Live, g: Grounding): Live {
    if l.streaming then l else l.(streaming := true, calls := l.calls + [Start(g.cardIds)])
  }

  function FlushTo(l: Live, body: string, to: nat): Live
    requires to <= |body|
  {
    if to <= l.streamedLen then l
    else l.(streamedLen := to, calls := l.calls + [Delta(body[l.streamedLen..to])])
  }

  function Flush(l: Live, body: string, force: bool): Live {
    if !l.streaming || |body| <= l.streamedLen then l
    else FlushTo(l, body, if force then |body| else LastBreak(body, l.streamedLen, |body|))
  }

  function OnDelta(l: Live, delta: string, g: Grounding): Live {
    var l' := l.(accumulated := l.accumulated + delta);
    match Gate(l'.accumulated)
    case Answering(body) => Flush(Begin(l', g), body, false)
    case _ => l'
  }

  function Withdraw(l: Live, reason: Reason): seq<SinkCall> {
    l.calls + [if l.streaming then Retract(reason) else Refuse(reason), Miss(reason)]
  }

  function OnDone(l: Live, g: Grounding): seq<SinkCall> {
    match Classify(l.accumulated)
    case Refusal => Withdraw(l, RefusalReason)
    case Body(body) =>
      var text := FinalText(body);
      var rich := Resolve(g.citations(text), g.cardIds);
      if rich == [] then Withdraw(l, Ungrounded)
      else
        var told := if l.streaming then Flush(l, text, true).calls else Begin(l, g).calls + [Delta(text)];
        told + [Done(text, rich, Uncited(g.alsoRanks(body), rich))]
  }

  function OnThrow(l: Live): seq<SinkCall> {
    if l.streaming then Withdraw(l, RefusalReason) else l.calls
  }

  function RunFrom(l: Live, chunks: seq<Chunk>, ending: Ending, g: Grounding): seq<SinkCall>
    decreases |chunks|
  {
    if chunks == [] then
      match ending
      case Threw => OnThrow(l)
      case Exhausted => l.calls
    else
      match chunks[0]
      case StartChunk => RunFrom(l, chunks[1..], ending, g)
      case TextDelta(d) => RunFrom(OnDelta(l, d, g), chunks[1..], ending, g)
      case DoneChunk => OnDone(l, g)
  }

  /** Every call one synthesis makes on its sink. */
  function Trace(chunks: seq<Chunk>, ending: Ending, g: Grounding): seq<SinkCall> {
    RunFrom(FRESH, chunks, ending, g)
  }

  // ---------- the same, as the pipeline runs it ----------

  class SynthesisRun {
    const grounding: Grounding
    var accumulated: string
    var streaming: bool
    var streamedLen: nat
    var calls: seq<SinkCall>

    ghost function View(): Live
      reads this
    {
      Live(accumulated, streaming, streamedLen, calls)
    }

    constructor (grounding: Grounding)
      ensures View() == FRESH && this.grounding == grounding
    {
      this.grounding := grounding;
      accumulated, streaming, streamedLen, calls := "", false, 0, [];
    }

    method StartStreamingIfNeeded()
      modifies this
      ensures View() == Begin(old(View()), grounding)
    {
      if streaming {
        return;
      }
      streaming := true;
      calls := calls + [Start(grounding.cardIds)];
    }

    method FlushSentences(body: string, force: bool)
      modifies this
      ensures View() == Flush(old(View()), body, force)
    {
      if !streaming || |body| <= streamedLen {
        return;
      }
      var flushTo := streamedLen;
      if force {
        flushTo := |body|;
      } else {
        var i := |body|;
        while i > streamedLen
          invariant streamedLen <= i <= |body|
          invariant flushTo == streamedLen
          invariant LastBreak(body, streamedLen, |body|) == LastBreak(body, streamedLen, i)
        {
          if IsTerminator(body[i - 1]) {
            flushTo := i;
            break;
          }
          i := i - 1;
        }
      }
      if flushTo <= streamedLen {
        return;
      }
      var delta := body[streamedLen..flushTo];
      streamedLen := flushTo;
      calls := calls + [Delta(delta)];
    }

    method WithdrawAnswer(reason: Reason)
      modifies this
      ensures calls == Withdraw(old(View()), reason)
    {
      calls := calls + [if streaming then Retract(reason) else Refuse(reason)];
      calls := calls + [Miss(reason)];
    }

    method Finish()
      modifies this
      ensures calls == OnDone(old(View()), grounding)
    {
      var verdict := Classify(accumulated);
      if verdict.Refusal? {
        WithdrawAnswer(RefusalReason);
        return;
      }
      var text := FinalText(verdict.body);
      var rich := Resolve(grounding.citations(text), grounding.cardIds);
      if rich == [] {
        WithdrawAnswer(Ungrounded);
        return;
      }
      if streaming {
        FlushSentences(text, true);
      } else {
        StartStreamingIfNeeded();
        calls := calls + [Delta(text)];
      }
      calls := calls + [Done(text, rich, Uncited(grounding.alsoRanks(verdict.body), rich))];
    }

    method Drive(chunks: seq<Chunk>, ending: Ending)
      requires View() == FRESH
      modifies this
      ensures calls == Trace(chunks, ending, grounding)
    {
      ghost var whole := Trace(chunks, ending, grounding);
      var i := 0;
      while i < |chunks|
        invariant 0 <= i <= |chunks|
        invariant RunFrom(View(), chunks[i..], ending, grounding) == whole
      {
        assert chunks[i..][0] == chunks[i] && chunks[i..][1..] == chunks[i + 1..];
        match chunks[i] {
          case StartChunk =>
          case TextDelta(delta) =>
            accumulated := accumulated + delta;
            var gate := Gate(accumulated);
            if gate.Answering? {
              StartStreamingIfNeeded();
              FlushSentences(gate.body, false);
            }
          case DoneChunk =>
            Finish();
            return;
        }
        i := i + 1;
      }
      assert chunks[i..] == [];
      if ending.Threw? && streaming {
        WithdrawAnswer(RefusalReason);
      }
    }
  }

  // ---------- what was streamed when the stream stopped ----------

  /** The state after the chunks before the first done chunk. */
  function Streamed(l: Live, chunks: seq<Chunk>, g: Grounding): Live
    decreases |chunks|
  {
    if chunks == [] || chunks[0].DoneChunk? then l
    else if chunks[0].StartChunk? then Streamed(l, chunks[1..], g)
    else Streamed(OnDelta(l, chunks[0].delta, g), chunks[1..], g)
  }

  predicate IsDone(chunks: seq<Chunk>)
    decreases |chunks|
  {
    chunks != [] && (chunks[0].DoneChunk? || IsDone(chunks[1..]))
  }

  lemma {:induction false} RunStopsAfterStreaming(l: Live, chunks: seq<Chunk>, ending: Ending, g: Grounding)
    ensures var s := Streamed(l, chunks, g);
      RunFrom(l, chunks, ending, g) ==
      if IsDone(chunks) then OnDone(s, g) else if ending.Threw? then OnThrow(s) else s.calls
    decreases |chunks|
  {
    if chunks != [] && !chunks[0].DoneChunk? {
      var next := if chunks[0].StartChunk? then l else OnDelta(l, chunks[0].delta, g);
      RunStopsAfterStreaming(next, chunks[1..], ending, g);
    }
  }

  /** Everything the deltas of a trace put on the page. */
  function Revealed(calls: seq<SinkCall>): (text: string) {
    if calls == [] then ""
    else
      var last := calls[|calls| - 1];
      Revealed(calls[..|calls| - 1]) + if last.Delta? then last.text else ""
  }

  lemma RevealedSnoc(calls: seq<SinkCall>, last: SinkCall)
    ensures Revealed(calls + [last]) == Revealed(calls) + if last.Delta? then last.text else ""
  {
    assert (calls + [last])[..|calls|] == calls;
  }

  /** A start followed by non-empty deltas. */
  ghost predicate Streaming(calls: seq<SinkCall>, g: Grounding) {
    && calls != [] && calls[0] == Start(g.cardIds)
    && forall i :: 1 <= i < |calls| ==> calls[i].Delta?
  }

  ghost predicate LiveInv(l: Live, g: Grounding) {
    && (!l.streaming ==> l.calls == [] && l.streamedLen == 0)
    && (l.streaming ==> Streaming(l.calls, g))
    && |Revealed(l.calls)| == l.streamedLen
  }

  lemma FlushKeepsInv(l: Live, body: string, force: bool, g: Grounding)
    requires LiveInv(l, g)
    ensures LiveInv(Flush(l, body, force), g)
    ensures Flush(l, body, force).streaming == l.streaming && Flush(l, body, force).accumulated == l.accumulated
    ensures var n := Flush(l, body, force).streamedLen;
      n == l.streamedLen || (0 < n <= |body| && (!force ==> IsTerminator(body[n - 1])))
    ensures l.streaming && Revealed(l.calls) <= body ==>
              Revealed(Flush(l, body, force).calls) == body[..Flush(l, body, force).streamedLen]
  {
    var l' := Flush(l, body, force);
    if l' != l {
      RevealedSnoc(l.calls, Delta(body[l.streamedLen..l'.streamedLen]));
    }
  }

  lemma BeginKeepsInv(l: Live, g: Grounding)
    requires LiveInv(l, g)
    ensures LiveInv(Begin(l, g), g) && Begin(l, g).streaming
    ensures Begin(l, g).accumulated == l.accumulated && Begin(l, g).streamedLen == l.streamedLen
    ensures Revealed(Begin(l, g).calls) == Revealed(l.calls)
  {
    if !l.streaming {
      RevealedSnoc(l.calls, Start(g.cardIds));
    }
  }

  lemma OnDeltaKeepsInv(l: Live, delta: string, g: Grounding)
    requires LiveInv(l, g)
    ensures LiveInv(OnDelta(l, delta, g), g)
  {
    var l' := l.(accumulated := l.accumulated + delta);
    var gate := Gate(l'.accumulated);
    hide Gate;
    if gate.Answering? {
      BeginKeepsInv(l', g);
      FlushKeepsInv(Begin(l', g), gate.body, false, g);
    }
  }

  lemma {:induction false} StreamedKeepsInv(l: Live, chunks: seq<Chunk>, g: Grounding)
    requires LiveInv(l, g)
    ensures LiveInv(Streamed(l, chunks, g), g)
    decreases |chunks|
  {
    if chunks != [] && chunks[0].TextDelta? {
      OnDeltaKeepsInv(l, chunks[0].delta, g);
      StreamedKeepsInv(OnDelta(l, chunks[0].delta, g), chunks[1..], g);
    } else if chunks != [] && chunks[0].StartChunk? {
      StreamedKeepsInv(l, chunks[1..], g);
    }
  }

  // ---------- the shape of every trace ----------

  datatype Outcome = Silent | LeftOpen | Answered | Withdrawn(reason: Reason) | Refused(reason: Reason)

  /** Nothing; or a refusal and its miss; or a start, deltas, and at most one terminal, a retraction with its miss. */
  ghost predicate HasShape(calls: seq<SinkCall>, o: Outcome, g: Grounding) {
    var n := |calls|;
    match o
    case Silent => calls == []
    case LeftOpen => Streaming(calls, g)
    case Answered => n >= 2 && calls[n - 1].Done? && Streaming(calls[..n - 1], g)
    case Withdrawn(r) => n >= 3 && calls[n - 2] == Retract(r) && calls[n - 1] == Miss(r) && Streaming(calls[..n - 2], g)
    case Refused(r) => calls == [Refuse(r), Miss(r)]
  }

  /** The outcome, from how the stream stopped and what it had accumulated. */
  function OutcomeOf(l: Live, done: bool, ending: Ending, g: Grounding): Outcome {
    if done then
      match Classify(l.accumulated)
      case Refusal => if l.streaming then Withdrawn(RefusalReason) else Refused(RefusalReason)
      case Body(body) =>
        if Resolve(g.citations(FinalText(body)), g.cardIds) == [] then
          if l.streaming then Withdrawn(Ungrounded) else Refused(Ungrounded)
        else Answered
    else if !l.streaming then Silent
    else if ending.Threw? then Withdrawn(RefusalReason)
    else LeftOpen
  }

  lemma DoneShape(l: Live, g: Grounding, ending: Ending)
    requires LiveInv(l, g)
    ensures HasShape(OnDone(l, g), OutcomeOf(l, true, ending, g), g)
  {
    hide Classify, FinalText, Flush, Begin, Revealed, Resolve, Uncited, Withdraw;
    var verdict := Classify(l.accumulated);
    if verdict.Refusal? {
      WithdrawShape(l, RefusalReason, g);
    } else {
      var text := FinalText(verdict.body);
      var rich := Resolve(g.citations(text), g.cardIds);
      if rich == [] {
        WithdrawShape(l, Ungrounded, g);
      } else {
        BeginKeepsInv(l, g);
        FlushKeepsInv(l, text, true, g);
        var told := if l.streaming then Flush(l, text, true).calls else Begin(l, g).calls + [Delta(text)];
        assert Streaming(told, g);
        var calls := OnDone(l, g);
        assert calls[..|calls| - 1] == told;
      }
    }
  }

  lemma WithdrawShape(l: Live, reason: Reason, g: Grounding)
    requires LiveInv(l, g)
    ensures HasShape(Withdraw(l, reason), if l.streaming then Withdrawn(reason) else Refused(reason), g)
  {
    var calls := Withdraw(l, reason);
    assert calls[..|calls| - 2] == l.calls;
  }

  /** Every run has one of the five shapes, and how the stream stopped decides which. */
  lemma EveryTraceHasShape(chunks: seq<Chunk>, ending: Ending, g: Grounding)
    ensures HasShape(Trace(chunks, ending, g), OutcomeOf(Streamed(FRESH, chunks, g), IsDone(chunks), ending, g), g)
  {
    var l := Streamed(FRESH, chunks, g);
    StreamedKeepsInv(FRESH, chunks, g);
    RunStopsAfterStreaming(FRESH, chunks, ending, g);
    hide Classify, FinalText;
    if IsDone(chunks) {
      DoneShape(l, g, ending);
    } else if ending.Threw? && l.streaming {
      WithdrawShape(l, RefusalReason, g);
    }
  }

  datatype Kind = Misses | Withdrawals

  predicate IsOf(c: SinkCall, kind: Kind) {
    match kind
    case Misses => c.Miss?
    case Withdrawals => c.Refuse? || c.Retract?
  }

  function Count(calls: seq<SinkCall>, kind: Kind): nat {
    if calls == [] then 0 else (if IsOf(calls[0], kind) then 1 else 0) + Count(calls[1..], kind)
  }

  lemma {:induction false} CountAppend(a: seq<SinkCall>, b: seq<SinkCall>, kind: Kind)
    ensures Count(a + b, kind) == Count(a, kind) + Count(b, kind)
  {
    if a == [] {
      assert a + b == b;
    } else {
      CountAppend(a[1..], b, kind);
      assert (a + b)[1..] == a[1..] + b;
    }
  }

  lemma {:induction false} StreamingCountsNothing(calls: seq<SinkCall>, kind: Kind)
    requires forall i :: 0 <= i < |calls| ==> calls[i].Start? || calls[i].Delta?
    ensures Count(calls, kind) == 0
  {
    if calls != [] {
      StreamingCountsNothing(calls[1..], kind);
    }
  }

  /** The calls before the terminal ones, and the terminal ones. */
  lemma ShapeParts(calls: seq<SinkCall>, o: Outcome, g: Grounding) returns (front: seq<SinkCall>, back: seq<SinkCall>)
    requires HasShape(calls, o, g)
    ensures calls == front + back
    ensures forall i :: 0 <= i < |front| ==> front[i].Start? || front[i].Delta?
    ensures match o
      case Silent => back == []
      case LeftOpen => back == []
      case Answered => |back| == 1 && back[0].Done?
      case Withdrawn(r) => back == [Retract(r), Miss(r)]
      case Refused(r) => back == [Refuse(r), Miss(r)]
  {
    var tail := if o.Answered? then 1 else if o.Withdrawn? || o.Refused? then 2 else 0;
    front, back := calls[..|calls| - tail], calls[|calls| - tail..];
  }

  lemma ShapeCounts(calls: seq<SinkCall>, o: Outcome, g: Grounding)
    requires HasShape(calls, o, g)
    ensures Count(calls, Misses) == Count(calls, Withdrawals) == if o.Withdrawn? || o.Refused? then 1 else 0
  {
    hide HasShape, Count;
    var front, back := ShapeParts(calls, o, g);
    TailCounts(front, back);
  }

  lemma ShortCount(calls: seq<SinkCall>, kind: Kind)
    requires |calls| <= 2
    ensures Count(calls, kind) ==
            (if |calls| > 0 && IsOf(calls[0], kind) then 1 else 0)
              + (if |calls| > 1 && IsOf(calls[1], kind) then 1 else 0)
  {
    hide IsOf;
    if |calls| > 0 {
      assert Count(calls, kind) == (if IsOf(calls[0], kind) then 1 else 0) + Count(calls[1..], kind);
    }
  }

  lemma TailCounts(front: seq<SinkCall>, back: seq<SinkCall>)
    requires forall i :: 0 <= i < |front| ==> front[i].Start? || front[i].Delta?
    requires |back| <= 2
    ensures Count(front + back, Misses) ==
            (if |back| > 0 && back[0].Miss? then 1 else 0) + (if |back| > 1 && back[1].Miss? then 1 else 0)
    ensures Count(front + back, Withdrawals) ==
            (if |back| > 0 && (back[0].Refuse? || back[0].Retract?) then 1 else 0)
            + (if |back| > 1 && (back[1].Refuse? || back[1].Retract?) then 1 else 0)
  {
    hide Count;
    CountAppend(front, back, Misses);
    CountAppend(front, back, Withdrawals);
    StreamingCountsNothing(front, Misses);
    StreamingCountsNothing(front, Withdrawals);
    ShortCount(back, Misses);
    ShortCount(back, Withdrawals);
  }

  /** A miss is recorded exactly once when the answer is refused or withdrawn, and never otherwise. */
  lemma MissRecordedOnce(chunks: seq<Chunk>, ending: Ending, g: Grounding)
    ensures var calls := Trace(chunks, ending, g);
      var o := OutcomeOf(Streamed(FRESH, chunks, g), IsDone(chunks), ending, g);
      Count(calls, Misses) == Count(calls, Withdrawals) == if o.Withdrawn? || o.Refused? then 1 else 0
  {
    EveryTraceHasShape(chunks, ending, g);
    hide *;
    ShapeCounts(Trace(chunks, ending, g), OutcomeOf(Streamed(FRESH, chunks, g), IsDone(chunks), ending, g), g);
  }

  /**
   * An answer stands only on citations: at least one, each on the card at its rank, none offered again as additional.
   */
  lemma AnsweredMeansGrounded(chunks: seq<Chunk>, ending: Ending, g: Grounding)
    requires var calls := Trace(chunks, ending, g); calls != [] && calls[|calls| - 1].Done?
    ensures var done := Trace(chunks, ending, g)[|Trace(chunks, ending, g)| - 1];
      && IsDone(chunks)
      && Classify(Streamed(FRESH, chunks, g).accumulated).Body?
      && done.text == FinalText(Classify(Streamed(FRESH, chunks, g).accumulated).body)
      && done.citations != []
      && done.citations == Resolve(g.citations(done.text), g.cardIds)
      && (forall k :: 0 <= k < |done.citations| ==> Backed(done.citations[k], g.citations(done.text), g.cardIds))
      && (forall j :: 0 <= j < |g.citations(done.text)| && Survives(g.citations(done.text)[j], g.cardIds) ==>
            Enriched(g.citations(done.text)[j], g.cardIds) in done.citations)
      && (forall c :: c in done.citations ==> 1 <= c.rank <= |g.cardIds| && c.cardId == g.cardIds[c.rank - 1])
      && (forall r :: r in done.additional ==> forall c :: c in done.citations ==> c.rank != r)
  {
    hide Classify, FinalText, Streamed, Resolve, Backed, Survives, Trace, Uncited, IsDone;
    DoneIs(chunks, ending, g);
    ResolvesBoth(g.citations(FinalText(Classify(Streamed(FRESH, chunks, g).accumulated).body)), g.cardIds);
  }

  /** A done call is last only on done, and then carries what its text resolves to. */
  lemma DoneIs(chunks: seq<Chunk>, ending: Ending, g: Grounding)
    requires var calls := Trace(chunks, ending, g); calls != [] && calls[|calls| - 1].Done?
    ensures var done := Trace(chunks, ending, g)[|Trace(chunks, ending, g)| - 1];
      && IsDone(chunks)
      && Classify(Streamed(FRESH, chunks, g).accumulated).Body?
      && var body := Classify(Streamed(FRESH, chunks, g).accumulated).body;
         var rich := Resolve(g.citations(FinalText(body)), g.cardIds);
         rich != [] && done == Done(FinalText(body), rich, Uncited(g.alsoRanks(body), rich))
  {
    hide Classify, FinalText, Streamed, Flush, Begin, Resolve, Uncited;
    EveryTraceHasShape(chunks, ending, g);
    RunStopsAfterStreaming(FRESH, chunks, ending, g);
  }

  // ---------- what the page reads ----------

  /** The model's output: its text deltas before the first done chunk. */
  function Output(chunks: seq<Chunk>): string
    decreases |chunks|
  {
    if chunks == [] || chunks[0].DoneChunk? then ""
    else (if chunks[0].TextDelta? then chunks[0].delta else "") + Output(chunks[1..])
  }

  lemma OneDelta(l: Live, d: string, g: Grounding)
    ensures OnDelta(l, d, g).accumulated == l.accumulated + d
  {
  }

  lemma StreamStep(l: Live, chunks: seq<Chunk>, g: Grounding)
    requires chunks != [] && chunks[0].TextDelta?
    ensures Streamed(l, chunks, g) == Streamed(OnDelta(l, chunks[0].delta, g), chunks[1..], g)
    ensures Output(chunks) == chunks[0].delta + Output(chunks[1..])
    ensures IsDone(chunks) <==> IsDone(chunks[1..])
  {
    hide OnDelta;
  }

  lemma {:induction false} StreamedAccumulates(l: Live, chunks: seq<Chunk>, g: Grounding)
    ensures Streamed(l, chunks, g).accumulated == l.accumulated + Output(chunks)
    decreases |chunks|
  {
    if chunks == [] || chunks[0].DoneChunk? {
    } else if chunks[0].StartChunk? {
      StreamedAccumulates(l, chunks[1..], g);
    } else {
      hide OnDelta, Streamed, Output;
      var d := chunks[0].delta;
      StreamStep(l, chunks, g);
      OneDelta(l, d, g);
      StreamedAccumulates(OnDelta(l, d, g), chunks[1..], g);
      assert l.accumulated + d + Output(chunks[1..]) == l.accumulated + (d + Output(chunks[1..]));
    }
  }

  predicate Answers(chunks: seq<Chunk>, s: string) {
    IsDone(chunks) && Output(chunks) == s
  }

  lemma RevealedNothing()
    ensures Revealed([]) == ""
  {
  }

  // ---------- refusals ----------

  lemma {:induction false} StreamingSticks(l: Live, chunks: seq<Chunk>, g: Grounding)
    requires l.streaming
    ensures Streamed(l, chunks, g).streaming
    decreases |chunks|
  {
    if chunks != [] && chunks[0].TextDelta? {
      StreamingSticks(OnDelta(l, chunks[0].delta, g), chunks[1..], g);
    } else if chunks != [] && chunks[0].StartChunk? {
      StreamingSticks(l, chunks[1..], g);
    }
  }

  lemma {:induction false} HiddenNeverStreams(l: Live, chunks: seq<Chunk>, g: Grounding, s: string)
    requires forall k :: 0 <= k <= |s| ==> !Gate(s[..k]).Answering?
    requires !l.streaming && l.accumulated + Output(chunks) <= s
    ensures !Streamed(l, chunks, g).streaming
    decreases |chunks|
  {
    hide Gate;
    if chunks == [] || chunks[0].DoneChunk? {
    } else if chunks[0].StartChunk? {
      HiddenNeverStreams(l, chunks[1..], g, s);
    } else {
      var acc := l.accumulated + chunks[0].delta;
      assert l.accumulated + Output(chunks) == acc + Output(chunks[1..]);
      assert s[..|acc|] == acc;
      HiddenNeverStreams(OnDelta(l, chunks[0].delta, g), chunks[1..], g, s);
    }
  }

  /**
   * Grounded-or-nothing for refusals: a refused output reveals nothing, however it is cut, if and only if its refusal
   * is a status line whose tag follows "STATUS:" within two white-space characters on the same line.
   */
  lemma RefusalNeverStreamedIff(s: string, g: Grounding)
    requires Classify(s).Refusal?
    ensures (forall chunks, ending :: Answers(chunks, s) ==>
               Trace(chunks, ending, g) == [Refuse(RefusalReason), Miss(RefusalReason)])
            <==> MatchStatus(s).Line? && TightGap(s)
  {
    hide Gate, Classify, MatchStatus, TightGap, Trace, Answers, HasShape;
    RefusalHiddenIff(s);
    if MatchStatus(s).Line? && TightGap(s) {
      forall chunks, ending | Answers(chunks, s)
        ensures Trace(chunks, ending, g) == [Refuse(RefusalReason), Miss(RefusalReason)]
      {
        HiddenRun(s, g, chunks, ending);
      }
    } else {
      var k :| 0 <= k <= |s| && Gate(s[..k]).Answering?;
      RevealedRefusalIsRetracted(s, k, g);
      var chunks := [TextDelta(s[..k]), TextDelta(s[k..]), DoneChunk];
      WithdrawnIsNotRefused(Trace(chunks, Exhausted, g), g);
    }
  }

  lemma WithdrawnIsNotRefused(calls: seq<SinkCall>, g: Grounding)
    requires HasShape(calls, Withdrawn(RefusalReason), g)
    ensures calls != [Refuse(RefusalReason), Miss(RefusalReason)]
  {
  }

  lemma HiddenRun(s: string, g: Grounding, chunks: seq<Chunk>, ending: Ending)
    requires Classify(s).Refusal? && Answers(chunks, s)
    requires forall k :: 0 <= k <= |s| ==> !Gate(s[..k]).Answering?
    ensures Trace(chunks, ending, g) == [Refuse(RefusalReason), Miss(RefusalReason)]
  {
    hide Gate, Classify, Streamed;
    RevealedNothing();
    RunStopsAfterStreaming(FRESH, chunks, ending, g);
    StreamedAccumulates(FRESH, chunks, g);
    StreamedKeepsInv(FRESH, chunks, g);
    assert "" + Output(chunks) == s;
    HiddenNeverStreams(FRESH, chunks, g, s);
  }

  /**
   * The failing family: cut where the gate mistakes the prefix for an answer, the refusal is streamed and retracted.
   */
  lemma RevealedRefusalIsRetracted(s: string, k: nat, g: Grounding)
    requires Classify(s).Refusal? && k <= |s| && Gate(s[..k]).Answering?
    ensures var chunks := [TextDelta(s[..k]), TextDelta(s[k..]), DoneChunk];
      && Answers(chunks, s)
      && HasShape(Trace(chunks, Exhausted, g), Withdrawn(RefusalReason), g)
  {
    hide Gate, Classify, HasShape, Trace, Streamed, Answers;
    var chunks := [TextDelta(s[..k]), TextDelta(s[k..]), DoneChunk];
    TwoDeltas(s[..k], s[k..]);
    assert s[..k] + s[k..] == s;
    assert FRESH.accumulated + s[..k] == s[..k];
    var l := OnDelta(FRESH, s[..k], g);
    StreamStep(FRESH, chunks, g);
    StreamingSticks(l, chunks[1..], g);
    StreamedAccumulates(FRESH, chunks, g);
    assert FRESH.accumulated + s == s;
    EveryTraceHasShape(chunks, Exhausted, g);
  }

  lemma TwoDeltas(a: string, b: string)
    ensures Answers([TextDelta(a), TextDelta(b), DoneChunk], a + b)
  {
    var chunks := [TextDelta(a), TextDelta(b), DoneChunk];
    assert chunks[1..] == [TextDelta(b), DoneChunk];
    assert chunks[1..][1..] == [DoneChunk];
    assert IsDone(chunks[1..][1..]) && IsDone(chunks[1..]);
    assert Output(chunks[1..]) == b + "" == b;
  }

  // ---------- the two ways the protocol's promises fail, on concrete outputs ----------

  /** Both kinds of refusal that open the stream and are withdrawn: a split status line, and the legacy sentinel. */
  lemma LooseRefusalsAreShown(g: Grounding)
    ensures var split := "STATUS:" + "\n" + "no_relevant_context";
      && Classify(split).Refusal? && Classify(SENTINEL).Refusal?
      && (exists chunks :: Answers(chunks, split) && HasShape(Trace(chunks, Exhausted, g), Withdrawn(RefusalReason), g))
      && (exists chunks ::
            Answers(chunks, SENTINEL) && HasShape(Trace(chunks, Exhausted, g), Withdrawn(RefusalReason), g))
  {
    hide Gate, Classify, MatchStatus, TightGap, HasShape, Trace, Answers, RevealedAt, LowerAll;
    ConcreteWords();
    LooseRefusalIsShown("STATUS:", "no_relevant_context", g);
    LegacyRefusalIsShown(g);
  }

  lemma LegacyRefusalIsShown(g: Grounding)
    ensures Classify(SENTINEL).Refusal?
    ensures exists chunks ::
      Answers(chunks, SENTINEL) && HasShape(Trace(chunks, Exhausted, g), Withdrawn(RefusalReason), g)
  {
    hide Gate, Classify, MatchStatus, TightGap, HasShape, Trace, Answers, RevealedAt;
    LegacySentinel();
    SentinelIsRevealed(SENTINEL);
    RevealedRefusalIsRetracted(SENTINEL, RevealedAt(SENTINEL), g);
  }

  lemma LooseRefusalIsShown(word: string, tag: string, g: Grounding)
    requires LowerAll(word) == KEYWORD && LowerAll(tag) == NO_CONTEXT
    ensures var s := word + "\n" + tag;
      && Classify(s).Refusal?
      && exists chunks :: Answers(chunks, s) && HasShape(Trace(chunks, Exhausted, g), Withdrawn(RefusalReason), g)
  {
    hide Gate, MatchStatus, TightGap, HasShape, Trace, Answers, RevealedAt, LowerAll;
    var s := word + "\n" + tag;
    SplitStatusLine(word, tag);
    RevealedAtIs(s);
    LooseLineIsShown(s, RevealedAt(s));
    RevealedRefusalIsRetracted(s, RevealedAt(s), g);
  }
}
