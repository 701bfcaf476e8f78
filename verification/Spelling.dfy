/** What a page reads of an answer: whether its deltas, however cut, spell the text that is stored. */
module Spelling {
  import opened JsText
  import opened WordForms
  import opened StatusGate
  import opened Synthesis

  predicate Grounds(text: string, g: Grounding) {
    Resolve(g.citations(text), g.cardIds) != []
  }

  /** The finished sentences of a text. */
  function Finished(text: string): (t: string)
    ensures t <= text
  {
    text[..LastBreak(text, 0, |text|)]
  }

  /** What the gate shows of an output that is still arriving has its finished sentences in common with a text. */
  ghost predicate ShownIsIn(s: string, k: nat, text: string)
    requires k <= |s|
  {
    Gate(s[..k]).Answering? ==> Finished(Gate(s[..k]).body) <= text
  }

  lemma FlushSpells(l: Live, body: string, text: string, g: Grounding)
    requires LiveInv(l, g) && l.streaming && Revealed(l.calls) <= text && Finished(body) <= text
    ensures Revealed(Flush(l, body, false).calls) <= text
  {
    hide Streaming, Revealed;
    var l' := Flush(l, body, false);
    if l' != l {
      var n := l'.streamedLen;
      SameBreak(body, l.streamedLen);
      RevealedSnoc(l.calls, Delta(body[l.streamedLen..n]));
      assert Revealed(l.calls) == text[..l.streamedLen];
      assert body[..n] == text[..n];
      assert text[..n] == text[..l.streamedLen] + body[l.streamedLen..n];
    }
  }

  /** A break found after `from` is the last break. */
  lemma SameBreak(body: string, from: nat)
    requires from <= |body|
    ensures LastBreak(body, from, |body|) > from ==> LastBreak(body, 0, |body|) == LastBreak(body, from, |body|)
  {
  }

  lemma OnDeltaSpells(l: Live, delta: string, g: Grounding, s: string, text: string)
    requires LiveInv(l, g) && Revealed(l.calls) <= text && l.accumulated + delta <= s
    requires forall k :: 0 <= k <= |s| ==> ShownIsIn(s, k, text)
    ensures Revealed(OnDelta(l, delta, g).calls) <= text
  {
    hide Gate, Flush, Begin, LastBreak, Revealed, Streaming, Finished;
    var l' := l.(accumulated := l.accumulated + delta);
    assert s[..|l'.accumulated|] == l'.accumulated && ShownIsIn(s, |l'.accumulated|, text);
    var gate := Gate(l'.accumulated);
    if gate.Answering? {
      BeginKeepsInv(l', g);
      FlushSpells(Begin(l', g), gate.body, text, g);
    }
  }

  lemma {:induction false} StreamedSpells(l: Live, chunks: seq<Chunk>, g: Grounding, s: string, text: string)
    requires LiveInv(l, g) && Revealed(l.calls) <= text && l.accumulated + Output(chunks) <= s
    requires forall k :: 0 <= k <= |s| ==> ShownIsIn(s, k, text)
    ensures Revealed(Streamed(l, chunks, g).calls) <= text
    decreases |chunks|
  {
    hide ShownIsIn, LiveInv, OnDelta, Revealed;
    if chunks == [] || chunks[0].DoneChunk? {
    } else if chunks[0].StartChunk? {
      StreamedSpells(l, chunks[1..], g, s, text);
    } else {
      var d := chunks[0].delta;
      assert l.accumulated + Output(chunks) == l.accumulated + d + Output(chunks[1..]);
      OnDeltaKeepsInv(l, d, g);
      OnDeltaSpells(l, d, g, s, text);
      OneDelta(l, d, g);
      StreamedSpells(OnDelta(l, d, g), chunks[1..], g, s, text);
    }
  }

  lemma RevealedOnDone(l: Live, g: Grounding)
    requires LiveInv(l, g) && Classify(l.accumulated).Body?
    requires Grounds(FinalText(Classify(l.accumulated).body), g)
    ensures var text := FinalText(Classify(l.accumulated).body);
      Revealed(OnDone(l, g)) ==
      Revealed(l.calls) + if |text| > l.streamedLen then text[l.streamedLen..] else ""
  {
    hide Classify, FinalText, Resolve, Uncited, Streaming, Revealed;
    RevealedNothing();
    var body := Classify(l.accumulated).body;
    var text := FinalText(body);
    var rich := Resolve(g.citations(text), g.cardIds);
    var done := Done(text, rich, Uncited(g.alsoRanks(body), rich));
    if l.streaming {
      RevealedSnoc(Flush(l, text, true).calls, done);
      if |text| > l.streamedLen {
        assert text[l.streamedLen..] == text[l.streamedLen..|text|];
        RevealedSnoc(l.calls, Delta(text[l.streamedLen..]));
      }
      assert forall shown: string :: shown + "" == shown;
    } else {
      var started := Begin(l, g).calls;
      RevealedSnoc(l.calls, Start(g.cardIds));
      RevealedSnoc(started, Delta(text));
      RevealedSnoc(started + [Delta(text)], done);
      assert text[0..] == text;
    }
  }

  /** What is on the page is never taken off it by a delta. */
  lemma OnDeltaReveals(l: Live, delta: string, g: Grounding)
    ensures Revealed(l.calls) <= Revealed(OnDelta(l, delta, g).calls)
  {
    hide Gate, LastBreak, Revealed;
    var l' := l.(accumulated := l.accumulated + delta);
    var gate := Gate(l'.accumulated);
    if gate.Answering? {
      var begun := Begin(l', g);
      RevealedSnoc(l.calls, Start(g.cardIds));
      var flushed := Flush(begun, gate.body, false);
      if flushed != begun {
        RevealedSnoc(begun.calls, flushed.calls[|begun.calls|]);
      }
    }
  }

  lemma {:induction false} StreamedReveals(l: Live, chunks: seq<Chunk>, g: Grounding)
    ensures Revealed(l.calls) <= Revealed(Streamed(l, chunks, g).calls)
    decreases |chunks|
  {
    hide OnDelta, Revealed;
    if chunks != [] && chunks[0].TextDelta? {
      OnDeltaReveals(l, chunks[0].delta, g);
      StreamedReveals(OnDelta(l, chunks[0].delta, g), chunks[1..], g);
    } else if chunks != [] && chunks[0].StartChunk? {
      StreamedReveals(l, chunks[1..], g);
    }
  }

  lemma AnsweringRun(s: string, g: Grounding, chunks: seq<Chunk>, ending: Ending)
    requires Classify(s).Body? && Grounds(FinalText(Classify(s).body), g) && Answers(chunks, s)
    ensures var l := Streamed(FRESH, chunks, g);
      var text := FinalText(Classify(s).body);
      && |Revealed(l.calls)| == l.streamedLen
      && Revealed(Trace(chunks, ending, g)) == Revealed(l.calls)
         + if |text| > l.streamedLen then text[l.streamedLen..] else ""
  {
    hide Gate, OnDone, Streamed, Classify, FinalText, Grounds, Revealed, Streaming;
    RevealedNothing();
    RunStopsAfterStreaming(FRESH, chunks, ending, g);
    StreamedKeepsInv(FRESH, chunks, g);
    StreamedAccumulates(FRESH, chunks, g);
    assert "" + Output(chunks) == s;
    RevealedOnDone(Streamed(FRESH, chunks, g), g);
  }

  /** The first of two deltas puts the finished sentences of what the gate shows on the page. */
  lemma FirstDeltaReveals(s: string, k: nat, g: Grounding)
    requires k <= |s| && Gate(s[..k]).Answering?
    ensures Revealed(OnDelta(FRESH, s[..k], g).calls) == Finished(Gate(s[..k]).body)
  {
    hide Gate, LastBreak, Revealed, Finished;
    var body, start := Gate(s[..k]).body, Start(g.cardIds);
    assert "" + s[..k] == s[..k];
    RevealedNothing();
    RevealedSnoc([], start);
    RevealedSnoc([start], Delta(Finished(body)));
    assert [] + [start] == [start];
    FinishedSlice(body);
  }

  lemma FinishedSlice(body: string)
    ensures Finished(body) == body[0..LastBreak(body, 0, |body|)]
    ensures "" + "" + Finished(body) == Finished(body)
    ensures LastBreak(body, 0, |body|) == 0 ==> Finished(body) == ""
  {
    hide LastBreak;
  }

  /** Cut at k, the run has what the gate showed there on the page to the end. */
  lemma CutReveals(s: string, k: nat, g: Grounding)
    requires Classify(s).Body? && Grounds(FinalText(Classify(s).body), g)
    requires k <= |s| && Gate(s[..k]).Answering?
    ensures var chunks := [TextDelta(s[..k]), TextDelta(s[k..]), DoneChunk];
      Answers(chunks, s) && Finished(Gate(s[..k]).body) <= Revealed(Trace(chunks, Exhausted, g))
  {
    hide Gate, Classify, FinalText, Grounds, Trace, Streamed, Answers, Revealed, OnDelta, Finished;
    var chunks := [TextDelta(s[..k]), TextDelta(s[k..]), DoneChunk];
    TwoDeltas(s[..k], s[k..]);
    assert s[..k] + s[k..] == s;
    FirstDeltaReveals(s, k, g);
    StreamStep(FRESH, chunks, g);
    StreamedReveals(OnDelta(FRESH, s[..k], g), chunks[1..], g);
    AnsweringRun(s, g, chunks, Exhausted);
  }

  /**
   * The deltas of every cut spell the text if and only if whatever the gate shows on the way has its sentences in the
   * text.
   */
  lemma SpelledIffShown(s: string, g: Grounding)
    requires Classify(s).Body? && Grounds(FinalText(Classify(s).body), g)
    ensures var text := FinalText(Classify(s).body);
      (forall chunks, ending :: Answers(chunks, s) ==> Revealed(Trace(chunks, ending, g)) == text)
      <==> (forall k :: 0 <= k <= |s| ==> ShownIsIn(s, k, text))
  {
    hide Gate, Classify, FinalText, Grounds, Trace, Answers, Streamed, Revealed, Finished;
    var text := FinalText(Classify(s).body);
    if forall k :: 0 <= k <= |s| ==> ShownIsIn(s, k, text) {
      forall chunks, ending | Answers(chunks, s)
        ensures Revealed(Trace(chunks, ending, g)) == text
      {
        SpelledRun(s, g, chunks, ending);
      }
    } else {
      var k :| 0 <= k <= |s| && !ShownIsIn(s, k, text);
      CutReveals(s, k, g);
      assert Revealed(Trace([TextDelta(s[..k]), TextDelta(s[k..]), DoneChunk], Exhausted, g)) != text;
    }
  }

  lemma SpelledRun(s: string, g: Grounding, chunks: seq<Chunk>, ending: Ending)
    requires Classify(s).Body? && Grounds(FinalText(Classify(s).body), g) && Answers(chunks, s)
    requires forall k :: 0 <= k <= |s| ==> ShownIsIn(s, k, FinalText(Classify(s).body))
    ensures Revealed(Trace(chunks, ending, g)) == FinalText(Classify(s).body)
  {
    hide Gate, Classify, FinalText, Grounds, Trace, Streamed, Revealed, ShownIsIn, Streaming;
    var text := FinalText(Classify(s).body);
    var l := Streamed(FRESH, chunks, g);
    RevealedNothing();
    assert "" + Output(chunks) == s;
    StreamedSpells(FRESH, chunks, g, s, text);
    AnsweringRun(s, g, chunks, ending);
    assert text[..l.streamedLen] + text[l.streamedLen..] == text;
  }

  // ---------- which answers those are ----------

  /** The text of an answer body without its ALSO line, before runs of newlines are shortened and the end is trimmed. */
  function WithoutAlso(body: string): string {
    match FindAlso(body, 0)
    case NoAlso => body
    case Also(start, end) => body[..start] + body[end..]
  }

  predicate ThreeBreaks(s: string) {
    exists i :: 0 <= i && i + 2 < |s| && s[i] == '\n' && s[i + 1] == '\n' && s[i + 2] == '\n'
  }

  /**
   * Taking the ALSO line out leaves every finished sentence as it is: there is no such line; or it starts after the
   * last sentence, no three newlines in a row come before that, and the last sentence's newline, if it ends in one,
   * is not trailing.
   */
  predicate KeepsSentences(body: string) {
    match FindAlso(body, 0)
    case NoAlso => true
    case Also(start, _) =>
      var n := LastBreak(body, 0, |body|);
      && n <= start
      && !ThreeBreaks(Finished(body))
      && (n == 0 || InkFrom(WithoutAlso(body), n - 1))
  }

  predicate InkFrom(s: string, at: nat) {
    exists i :: at <= i < |s| && !IsSpace(s[i])
  }

  // ---------- the ALSO line and the sentences before it ----------

  /** The end of the last finished sentence. */
  function Last(s: string): (n: nat)
    ensures n <= |s| && (n > 0 ==> IsTerminator(s[n - 1]))
    ensures forall i :: n <= i < |s| ==> !IsTerminator(s[i])
  {
    LastBreak(s, 0, |s|)
  }

  lemma LastIs(s: string, n: nat)
    requires n <= |s| && (n > 0 ==> IsTerminator(s[n - 1]))
    requires forall i :: n <= i < |s| ==> !IsTerminator(s[i])
    ensures Last(s) == n
  {
  }

  /** A prefix has no later break. */
  lemma LastOfPrefix(p: string, s: string)
    requires p <= s
    ensures Last(p) <= Last(s)
  {
    if Last(p) > 0 {
      assert p[Last(p) - 1] == s[Last(p) - 1];
    }
  }

  lemma LastOfCons(c: char, s: string)
    ensures Last([c] + s) == if Last(s) > 0 then Last(s) + 1 else if IsTerminator(c) then 1 else 0
  {
    var n := if Last(s) > 0 then Last(s) + 1 else if IsTerminator(c) then 1 else 0;
    assert forall i :: 0 < i <= |s| ==> ([c] + s)[i] == s[i - 1];
    LastIs([c] + s, n);
  }

  lemma LastOfAppend(a: string, b: string)
    ensures Last(a + b) == if Last(b) > 0 then |a| + Last(b) else Last(a)
  {
    var n := if Last(b) > 0 then |a| + Last(b) else Last(a);
    assert forall i :: |a| <= i < |a + b| ==> (a + b)[i] == b[i - |a|];
    LastIs(a + b, n);
  }

  /** Shortening runs of newlines never moves the last break right, and moves it left if there is a run to shorten. */
  lemma {:induction false} CollapseMovesBack(s: string)
    ensures Last(Collapse(s)) <= Last(s)
    ensures ThreeBreaks(s) ==> Last(Collapse(s)) < Last(s)
    ensures !ThreeBreaks(s) ==> Collapse(s) == s
  {
    hide IsTerminator, Last, ThreeBreaks;
    if s != "" {
      var c, tail := s[0], s[1..];
      assert s == [c] + tail;
      CollapseMovesBack(tail);
      LastOfCons(c, tail);
      LastOfCons(c, Collapse(tail));
      ThreeBreaksOfCons(s);
      NewlineIsBreak(s);
    } else {
      NoBreaks();
    }
  }

  lemma NoBreaks()
    ensures !ThreeBreaks("")
  {
  }

  lemma NewlineIsBreak(s: string)
    ensures |s| >= 2 && s[1] == '\n' ==> Last(s[1..]) > 0
  {
    if |s| >= 2 && s[1] == '\n' {
      assert s[1..][0] == '\n';
    }
  }

  lemma ThreeBreaksOfCons(s: string)
    requires s != ""
    ensures ThreeBreaks(s) <==> ThreeBreaks(s[1..]) || (|s| >= 3 && s[0] == s[1] == s[2] == '\n')
    ensures ThreeBreaks(s[1..]) ==> Last(s[1..]) > 0
  {
    var tail := s[1..];
    assert forall i :: 0 <= i < |tail| ==> tail[i] == s[i + 1];
    if ThreeBreaks(tail) {
      var i :| 0 <= i && i + 2 < |tail| && tail[i] == '\n' && tail[i + 1] == '\n' && tail[i + 2] == '\n';
      assert s[i + 1] == '\n' && s[i + 1 + 1] == '\n' && s[i + 1 + 2] == '\n';
      assert IsTerminator(tail[i]);
    }
    if ThreeBreaks(s) {
      var i :| 0 <= i && i + 2 < |s| && s[i] == '\n' && s[i + 1] == '\n' && s[i + 2] == '\n';
      if i > 0 {
        assert tail[i - 1] == '\n' && tail[i - 1 + 1] == '\n' && tail[i - 1 + 2] == '\n';
      }
    }
  }

  lemma {:induction false} TrimEndIs(s: string, n: nat)
    ensures n <= |TrimEnd(s)| <==> n == 0 || InkFrom(s, n - 1)
  {
    hide IsSpace;
    if s != "" {
      var last := |s| - 1;
      if IsSpace(s[last]) {
        TrimEndIs(s[..last], n);
        if n > 0 {
          DropSpace(s, n - 1);
        }
      } else if 0 < n <= |s| {
        assert !IsSpace(s[last]);
      }
    }
  }

  lemma DropSpace(s: string, at: nat)
    requires s != "" && IsSpace(s[|s| - 1])
    ensures InkFrom(s, at) <==> InkFrom(s[..|s| - 1], at)
  {
    var front := s[..|s| - 1];
    if InkFrom(s, at) {
      var i :| at <= i < |s| && !IsSpace(s[i]);
      assert front[i] == s[i];
    }
  }

  lemma ThreeBreaksInPrefix(p: string, s: string)
    requires p <= s
    ensures ThreeBreaks(p) ==> ThreeBreaks(s)
    ensures ThreeBreaks(s) && Last(s) <= |p| ==> ThreeBreaks(p)
  {
    if ThreeBreaks(p) {
      var i :| 0 <= i && i + 2 < |p| && p[i] == '\n' && p[i + 1] == '\n' && p[i + 2] == '\n';
      assert s[i] == '\n' && s[i + 1] == '\n' && s[i + 2] == '\n';
    }
    if ThreeBreaks(s) && Last(s) <= |p| {
      var i :| 0 <= i && i + 2 < |s| && s[i] == '\n' && s[i + 1] == '\n' && s[i + 2] == '\n';
      assert p[i] == '\n' && p[i + 1] == '\n' && p[i + 2] == '\n';
    }
  }

  /** Taking the ALSO line out never moves the last break right, and moves it left if it came after the line's start. */
  lemma AlsoMovesBack(body: string)
    ensures var x := WithoutAlso(body);
      && Last(x) <= Last(body)
      && (FindAlso(body, 0).Also? ==>
            var start := FindAlso(body, 0).start;
            && (Last(body) > start ==> Last(x) < Last(body))
            && (Last(body) <= start ==> body[..Last(body)] <= x && Last(x) == Last(body)))
  {
    hide IsTerminator, Last, FindAlso, AlsoAt;
    var m := FindAlso(body, 0);
    if m.Also? {
      assert body == body[..m.end] + body[m.end..];
      LastOfAppend(body[..m.end], body[m.end..]);
      LastOfAppend(body[..m.start], body[m.end..]);
      LastUpTo(body, m.start, m.end);
    }
  }

  lemma LastUpTo(s: string, i: nat, j: nat)
    requires i <= j <= |s|
    ensures Last(s[..i]) <= Last(s[..j])
    ensures Last(s[..j]) <= i ==> Last(s[..i]) == Last(s[..j])
  {
    hide IsTerminator;
    LastOfPrefix(s[..i], s[..j]);
    var n := Last(s[..j]);
    if n <= i {
      assert n > 0 ==> s[..i][n - 1] == s[..j][n - 1];
      assert forall q :: n <= q < i ==> s[..i][q] == s[..j][q];
      LastIs(s[..i], n);
    }
  }

  lemma LastOfFinal(body: string)
    ensures Last(FinalText(body)) <= Last(WithoutAlso(body)) <= Last(body)
    ensures FindAlso(body, 0).Also? && ThreeBreaks(WithoutAlso(body)) ==>
      Last(FinalText(body)) < Last(WithoutAlso(body))
  {
    hide Last, FindAlso, ThreeBreaks;
    AlsoMovesBack(body);
    CollapseMovesBack(WithoutAlso(body));
    LastOfPrefix(FinalText(body), if FindAlso(body, 0).Also? then Collapse(WithoutAlso(body)) else body);
  }

  lemma FinishedIs(s: string)
    ensures Finished(s) == s[..Last(s)] && Last(Finished(s)) == Last(s)
  {
    var n := Last(s);
    assert n > 0 ==> s[..n][n - 1] == s[n - 1];
    LastIs(s[..n], n);
  }

  lemma SentencesWereKept(body: string)
    requires FindAlso(body, 0).Also? && Finished(body) <= FinalText(body)
    ensures var n := Last(body);
      && n <= FindAlso(body, 0).start
      && !ThreeBreaks(body[..n])
      && (n == 0 || InkFrom(WithoutAlso(body), n - 1))
  {
    hide IsTerminator, FindAlso, AlsoAt, ThreeBreaks, InkFrom, Finished, Last, Collapse;
    var x, n := WithoutAlso(body), Last(body);
    FinishedIs(body);
    LastOfFinal(body);
    AlsoMovesBack(body);
    CollapseMovesBack(x);
    LastOfPrefix(Finished(body), FinalText(body));
    TrimEndIs(x, n);
    if n <= FindAlso(body, 0).start {
      ThreeBreaksInPrefix(body[..n], x);
    }
  }

  lemma SentencesAreKept(body: string)
    requires FindAlso(body, 0).Also?
    requires Last(body) <= FindAlso(body, 0).start && !ThreeBreaks(body[..Last(body)])
    requires Last(body) == 0 || InkFrom(WithoutAlso(body), Last(body) - 1)
    ensures Finished(body) <= FinalText(body)
  {
    hide IsTerminator, FindAlso, AlsoAt, ThreeBreaks, InkFrom, Finished, Last, Collapse;
    var x, n := WithoutAlso(body), Last(body);
    FinishedIs(body);
    AlsoMovesBack(body);
    ThreeBreaksInPrefix(body[..n], x);
    CollapseMovesBack(x);
    TrimEndIs(x, n);
  }

  /**
   * The condition on the ALSO line is exact: it says when the stored text keeps every finished sentence of the body.
   */
  lemma KeepsSentencesIff(body: string)
    ensures Finished(body) <= FinalText(body) <==> KeepsSentences(body)
  {
    hide FindAlso, ThreeBreaks, InkFrom, Last, LastBreak, Finished, FinalText, WithoutAlso;
    LastBreakIsLast(body);
    FinishedIs(body);
    if FindAlso(body, 0).NoAlso? {
      PlainText(body);
    } else {
      if Finished(body) <= FinalText(body) {
        SentencesWereKept(body);
      }
      if KeepsSentences(body) {
        SentencesAreKept(body);
      }
    }
  }

  lemma PlainText(body: string)
    ensures FindAlso(body, 0).NoAlso? ==> FinalText(body) == body
  {
  }

  lemma LastBreakIsLast(s: string)
    ensures LastBreak(s, 0, |s|) == Last(s)
  {
  }

  // ---------- what a loose status line puts on the page ----------

  /**
   * How much of an answer's loose status line is streamed as prose by some cut: up to its last newline before the
   * tag.
   */
  function Leak(s: string): (n: nat)
    ensures n <= |s|
  {
    var m := MatchStatus(s);
    if m.NoLine? || m.status.NoRelevantContext? || TightGap(s) then 0
    else
      LineFacts(s);
      LastBreak(s, 0, m.tag)
  }

  lemma TagHasNoBreak(s: string, i: nat)
    requires MatchStatus(s).Line? && MatchStatus(s).status.Answer?
    requires MatchStatus(s).tag <= i < MatchStatus(s).tag + |ANSWER|
    ensures i < |s| && !IsTerminator(s[i])
  {
    hide MatchStatus, Matches, SkipSpaces;
    LineFacts(s);
    MatchesAt(s, MatchStatus(s).tag, ANSWER, i - MatchStatus(s).tag);
  }

  lemma LastBeforeTag(s: string, k: nat)
    requires MatchStatus(s).Line? && MatchStatus(s).status.Answer?
    requires k < MatchStatus(s).tag + |ANSWER|
    ensures k <= |s| && MatchStatus(s).tag <= |s|
    ensures Last(s[..k]) <= LastBreak(s, 0, MatchStatus(s).tag)
    ensures k >= MatchStatus(s).tag ==> Last(s[..k]) == LastBreak(s, 0, MatchStatus(s).tag)
  {
    hide MatchStatus, IsTerminator, Last, LastBreak, Matches, SkipSpaces;
    LineFacts(s);
    forall i | MatchStatus(s).tag <= i < k
      ensures i < |s| && !IsTerminator(s[i])
    {
      TagHasNoBreak(s, i);
    }
    LastWithin(s, MatchStatus(s).tag, k);
  }

  /** Where no break follows, the last break stays. */
  lemma LastWithin(s: string, n: nat, k: nat)
    requires n <= |s| && k <= |s| && forall i :: n <= i < k ==> !IsTerminator(s[i])
    ensures Last(s[..k]) <= LastBreak(s, 0, n)
    ensures k >= n ==> Last(s[..k]) == LastBreak(s, 0, n)
  {
    hide IsTerminator, Last, LastBreak;
    LastOfSlice(s, n);
    if k >= n {
      assert forall i :: 0 <= i < k - n ==> s[n..k][i] == s[i + n];
      NoneIsZero(s[n..k]);
      LastOfAppend(s[..n], s[n..k]);
      assert s[..n] + s[n..k] == s[..k];
    } else {
      LastUpTo(s, k, n);
    }
  }

  lemma NoneIsZero(s: string)
    requires forall i :: 0 <= i < |s| ==> !IsTerminator(s[i])
    ensures Last(s) == 0
  {
  }

  lemma LastOfSlice(s: string, n: nat)
    requires n <= |s|
    ensures LastBreak(s, 0, n) == Last(s[..n])
  {
    var r := LastBreak(s, 0, n);
    assert r > 0 ==> s[..n][r - 1] == s[r - 1];
    LastIs(s[..n], r);
  }

  lemma GateOfBody(s: string)
    requires Classify(s).Body?
    ensures Gate(s) == Forming || Gate(s) == Answering(Classify(s).body)
  {
  }

  /** Some prefix of a loosely tagged answer shows everything that can leak. */
  lemma LeakIsShown(s: string)
    requires Classify(s).Body? && Leak(s) > 0
    ensures exists k :: 0 <= k <= |s| && Gate(s[..k]).Answering? && Finished(Gate(s[..k]).body) == s[..Leak(s)]
  {
    hide MatchStatus, Gate, TightGap, Finished, LastBreak, Leak, RevealedAt, Last;
    LeakIs(s);
    var k := MatchStatus(s).tag + |ANSWER| - 1;
    RevealedAtIs(s);
    LooseLineIsShown(s, k);
    LastBeforeTag(s, k);
    FinishedIs(s[..k]);
    assert s[..k][..Leak(s)] == s[..Leak(s)];
  }

  lemma LeakIs(s: string)
    requires Leak(s) > 0
    ensures MatchStatus(s).Line? && MatchStatus(s).status.Answer? && !TightGap(s) && MatchStatus(s).tag <= |s|
    ensures Leak(s) == LastBreak(s, 0, MatchStatus(s).tag)
  {
    hide MatchStatus, TightGap, LastBreak;
    LineFacts(s);
  }

  lemma PrefixesAgree(a: string, b: string, text: string)
    requires a <= text && b <= text && |a| <= |b|
    ensures a <= b
  {
  }

  lemma LeakEndsSentence(s: string)
    ensures Last(s[..Leak(s)]) == Leak(s)
  {
    hide MatchStatus, TightGap;
    var n := Leak(s);
    assert n > 0 ==> s[..n][n - 1] == s[n - 1];
    LastIs(s[..n], n);
  }

  lemma ShownIff(s: string)
    requires Classify(s).Body?
    ensures var body := Classify(s).body;
      (forall k :: 0 <= k <= |s| ==> ShownIsIn(s, k, FinalText(body)))
      <==> (Gate(s).Answering? ==> KeepsSentences(body)) && s[..Leak(s)] <= body
  {
    hide Gate, Classify, MatchStatus, TightGap, Finished, FinalText, KeepsSentences, Leak, Last;
    var body, text := Classify(s).body, FinalText(Classify(s).body);
    GateOfBody(s);
    KeepsSentencesIff(body);
    assert s[..|s|] == s;
    if forall k :: 0 <= k <= |s| ==> ShownIsIn(s, k, text) {
      assert ShownIsIn(s, |s|, text);
      if Leak(s) > 0 {
        LeakIsShown(s);
        var k :| 0 <= k <= |s| && Gate(s[..k]).Answering? && Finished(Gate(s[..k]).body) == s[..Leak(s)];
        assert ShownIsIn(s, k, text);
        if Gate(s) == Forming {
          FormingAllAlong(s, k);
        }
        LeakEndsSentence(s);
        LastOfPrefix(s[..Leak(s)], text);
        LastOfFinal(body);
        FinishedIs(body);
        PrefixesAgree(s[..Leak(s)], Finished(body), text);
      }
    } else if (Gate(s).Answering? ==> KeepsSentences(body)) && s[..Leak(s)] <= body {
      var k :| 0 <= k <= |s| && !ShownIsIn(s, k, text);
      ShownIsKept(s, k);
    }
  }

  lemma ShownIsKept(s: string, k: nat)
    requires Classify(s).Body? && k <= |s|
    requires (Gate(s).Answering? ==> KeepsSentences(Classify(s).body)) && s[..Leak(s)] <= Classify(s).body
    ensures ShownIsIn(s, k, FinalText(Classify(s).body))
  {
    hide Gate, Classify, TightGap, MatchStatus, Finished, FinalText, KeepsSentences, Last, LastBreak;
    var body := Classify(s).body;
    GateOfBody(s);
    KeepsSentencesIff(body);
    if Gate(s[..k]).Answering? {
      var shown := Gate(s[..k]).body;
      if Gate(s) == Forming {
        FormingAllAlong(s, k);
      }
      GateShows(s, k);
      FinishedIs(body);
      FinishedIs(shown);
      if shown <= body {
        LastOfPrefix(shown, body);
        PrefixesAgree(Finished(shown), Finished(body), body);
      } else {
        AnswerLine(s);
        LastBeforeTag(s, k);
        LeakEndsSentence(s);
        LastOfPrefix(s[..Leak(s)], body);
        PrefixesAgree(Finished(shown), s[..Leak(s)], s);
        PrefixesAgree(s[..Leak(s)], Finished(body), body);
      }
    }
  }

  lemma AnswerLine(s: string)
    requires Classify(s).Body? && MatchStatus(s).Line?
    ensures MatchStatus(s).status.Answer?
  {
    hide MatchStatus;
  }

  /**
   * "The page's accumulated text equals the full body", for every answer that grounds: it holds however the output is
   * cut into deltas if and only if, once the gate has opened, the body's finished sentences all precede its ALSO line
   * and stay as they are, and what a loose status line leaks is how the body itself begins.
   */
  lemma DeltasSpellAnswerIff(s: string, g: Grounding)
    requires Classify(s).Body? && Grounds(FinalText(Classify(s).body), g)
    ensures var body := Classify(s).body;
      (forall chunks, ending :: Answers(chunks, s) ==> Revealed(Trace(chunks, ending, g)) == FinalText(body))
      <==> (Gate(s).Answering? ==> KeepsSentences(body)) && s[..Leak(s)] <= body
  {
    hide *;
    SpelledIffShown(s, g);
    ShownIff(s);
  }

  /** Without an ALSO line and without a leak nothing is stripped or added: the deltas of every cut spell the answer. */
  lemma PlainAnswersAreSpelled(s: string, g: Grounding, chunks: seq<Chunk>, ending: Ending)
    requires Classify(s).Body? && FindAlso(Classify(s).body, 0).NoAlso? && Leak(s) == 0
    requires Grounds(Classify(s).body, g) && Answers(chunks, s)
    ensures Revealed(Trace(chunks, ending, g)) == Classify(s).body
  {
    hide Gate, Classify, Grounds, Trace, Answers, FindAlso, Revealed, Leak;
    DeltasSpellAnswerIff(s, g);
  }

  // ---------- the two failing families ----------

  /**
   * A newline between the colon and an answer's tag: cut after it, the control token is put on the page as prose and
   * stays there, whatever the body is.
   */
  lemma SplitTagShowsToken(word: string, tag: string, body: string, g: Grounding)
    requires LowerAll(word) == KEYWORD && LowerAll(tag) == ANSWER && Grounds(FinalText(body), g)
    ensures var s := word + "\n" + tag + ("\n" + body);
      && Classify(s) == Body(body)
      && exists chunks :: Answers(chunks, s) && word + "\n" <= Revealed(Trace(chunks, Exhausted, g))
  {
    hide *;
    var s := word + "\n" + tag + ("\n" + body);
    SplitTagLeaks(word, tag, body);
    LeakIsShown(s);
    var k :| 0 <= k <= |s| && Gate(s[..k]).Answering? && Finished(Gate(s[..k]).body) == s[..Leak(s)];
    CutReveals(s, k, g);
  }

  lemma SplitTagLeaks(word: string, tag: string, body: string)
    requires LowerAll(word) == KEYWORD && LowerAll(tag) == ANSWER
    ensures var s := word + "\n" + tag + ("\n" + body);
      && Classify(s) == Body(body) && MatchStatus(s).Line? && MatchStatus(s).tag == |word + "\n"|
      && Leak(s) == |word + "\n"| && s[..Leak(s)] == word + "\n"
  {
    hide Gate, MatchStatus, Classify, TightGap, LowerAll;
    TaggedAnswer(word, "\n", tag, body);
    var s := word + "\n" + tag + ("\n" + body);
    assert s[|word|] == '\n';
    assert s[..|word| + 1] == word + "\n";
  }

  /**
   * A tagged answer that ends in an ALSO line: streamed in one piece, the newline before that line is on the page,
   * and the stored text does not have it.
   */
  lemma AlsoLineLeavesNewline(status: string, text: string, indent: string, word: string, ranks: string, g: Grounding)
    requires IsTrimmed(text) && FindAlso(text, 0).NoAlso? && LowerAll(word) == ALSO
    requires forall i :: 0 <= i < |indent| ==> IsBlank(indent[i])
    requires forall i :: 0 <= i < |ranks| ==> ranks[i] in RANK_LIST_CHARS
    requires Gate(status + text + ("\n" + indent + word + ranks)) == Answering(text + ("\n" + indent + word + ranks))
    requires Grounds(Collapse(text), g)
    ensures var s := status + text + ("\n" + indent + word + ranks);
      && Classify(s).Body? && FinalText(Classify(s).body) == Collapse(text)
      && exists chunks :: Answers(chunks, s) && text + "\n" <= Revealed(Trace(chunks, Exhausted, g))
  {
    hide *;
    var line := "\n" + indent + word + ranks;
    var s, body := status + text + line, text + line;
    StripsAlso(text, indent, word, ranks);
    OpenGateIsBody(s);
    assert s[..|s|] == s;
    CutReveals(s, |s|, g);
    FinishedIs(body);
    BreakAt(body, |text|);
    PrefixesAgree(text + "\n", Finished(body), body);
  }

  lemma OpenGateIsBody(s: string)
    ensures Gate(s).Answering? ==> Classify(s) == Body(Gate(s).body)
  {
  }

  lemma BreakAt(s: string, i: nat)
    requires i < |s| && s[i] == '\n'
    ensures i < Last(s)
  {
  }

  // ---------- what a refusal puts on the page ----------

  /** A status line with a newline between the colon and the tag. */
  predicate BreaksAfterColon(s: string) {
    var m := MatchStatus(s);
    m.Line? && exists q :: m.gap <= q < m.tag && q < |s| && s[q] == '\n'
  }

  /** What the gate takes for an answer, of a refusal that is still arriving, is all that has arrived. */
  lemma RefusalShows(s: string, k: nat)
    requires Classify(s).Refusal? && k <= |s| && Gate(s[..k]).Answering?
    ensures var m, lead := MatchStatus(s), SkipSpaces(s, 0);
      && Gate(s[..k]).body == s[..k]
      && k < if m.Line? then m.tag + |NO_CONTEXT| else lead + |SENTINEL|
  {
    hide MatchStatus, Matches, SkipSpaces, SkipBlanks, IsSpace, StillForming, StartsWith;
    var m, lead := MatchStatus(s), SkipSpaces(s, 0);
    if m.Line? {
      RefusedLine(s);
      if k < m.tag + |NO_CONTEXT| {
        BeforeTag(s, k);
      } else {
        AfterTag(s, k);
      }
    } else {
      SkipSpacesPrefix(s, k, 0);
      SentinelStartsWithN(s, lead);
      StartsWithPrefix(s, k, lead, SENTINEL);
      NoKeywordAtN(s[..k], lead);
    }
  }

  lemma RefusedLine(s: string)
    requires Classify(s).Refusal? && MatchStatus(s).Line?
    ensures MatchStatus(s).status.NoRelevantContext?
  {
    hide MatchStatus;
  }

  lemma NoKeywordAtN(s: string, at: nat)
    requires SkipSpaces(s, 0) == at || SkipSpaces(s, 0) == |s|
    requires at < |s| ==> s[at] == 'N'
    ensures MatchStatus(s).NoLine?
  {
    hide MatchStatus, SkipSpaces;
    var lead := SkipSpaces(s, 0);
    if Matches(s, lead, KEYWORD) {
      MatchesAt(s, lead, KEYWORD, 0);
    }
    NoKeywordNoLine(s);
  }

  lemma NoTerminatorInRefusal(s: string, k: nat, i: nat)
    requires Classify(s).Refusal? && !BreaksAfterColon(s)
    requires var m, lead := MatchStatus(s), SkipSpaces(s, 0);
      lead <= i < k <= |s| && k < if m.Line? then m.tag + |NO_CONTEXT| else lead + |SENTINEL|
    ensures !IsTerminator(s[i])
  {
    hide MatchStatus, Matches, SkipSpaces, IsTerminator, IsSpace, Classify, StartsWith;
    var m, lead := MatchStatus(s), SkipSpaces(s, 0);
    if m.Line? {
      RefusedLine(s);
      LineFacts(s);
      if i < m.gap {
        MatchesAt(s, lead, KEYWORD, i - lead);
        KeywordHasNoTerminator(i - lead);
        LettersEndNothing(s[i]);
      } else if i < m.tag {
        assert IsSpace(s[i]) && s[i] != '\n';
        LettersEndNothing(s[i]);
      } else {
        MatchesAt(s, m.tag, NO_CONTEXT, i - m.tag);
        TagEndsNothing(i - m.tag);
        LettersEndNothing(s[i]);
      }
    } else {
      SentinelAt(s, i);
    }
  }

  lemma LettersEndNothing(c: char)
    ensures IsTerminator(c) ==> Lower(c) == c
    ensures IsSpace(c) && c != '\n' ==> !IsTerminator(c)
  {
  }

  lemma TagEndsNothing(i: nat)
    requires i < |NO_CONTEXT|
    ensures !IsTerminator(NO_CONTEXT[i])
  {
  }

  lemma SentinelAt(s: string, i: nat)
    requires Classify(s).Refusal? && MatchStatus(s).NoLine?
    requires SkipSpaces(s, 0) <= i < |s| && i < SkipSpaces(s, 0) + |SENTINEL| - 1
    ensures !IsTerminator(s[i])
  {
    hide MatchStatus, SkipSpaces, IsTerminator, Classify;
    var lead := SkipSpaces(s, 0);
    SentinelStarts(s);
    assert s[lead..lead + |SENTINEL|][i - lead] == s[i];
    SentinelEndsLast(i - lead);
  }

  lemma SentinelStarts(s: string)
    requires Classify(s).Refusal? && MatchStatus(s).NoLine?
    ensures StartsWith(s, SkipSpaces(s, 0), SENTINEL)
  {
    hide MatchStatus, SkipSpaces, StartsWith;
  }

  lemma SentinelEndsLast(i: nat)
    requires i < |SENTINEL| - 1
    ensures !IsTerminator(SENTINEL[i])
  {
  }

  lemma KeywordHasNoTerminator(i: nat)
    requires i < |KEYWORD|
    ensures !IsTerminator(KEYWORD[i])
  {
  }

  /** Without a newline in the gap, nothing but leading white space is ever shown of a refusal. */
  lemma RefusalShowsSpace(s: string, k: nat)
    requires Classify(s).Refusal? && !BreaksAfterColon(s) && k <= |s|
    ensures ShownIsIn(s, k, s[..SkipSpaces(s, 0)])
  {
    hide Gate, Classify, MatchStatus, SkipSpaces, Finished, BreaksAfterColon, IsTerminator, Last;
    if Gate(s[..k]).Answering? {
      var lead := SkipSpaces(s, 0);
      RefusalShows(s, k);
      forall i | lead <= i < k
        ensures !IsTerminator(s[i])
      {
        NoTerminatorInRefusal(s, k, i);
      }
      FinishedIs(s[..k]);
      if lead <= k {
        LastWithin(s, lead, k);
      }
      assert s[..k][..Last(s[..k])] == s[..Last(s[..k])];
    }
  }

  lemma SpacesHaveNoInk(s: string)
    requires forall i :: 0 <= i < |s| ==> IsSpace(s[i])
    ensures Ink(s) == ""
  {
    hide IsSpace;
    if s != "" {
      SpacesHaveNoInk(s[1..]);
    }
  }

  /** A refused run reveals what was streamed before done, and no more. */
  lemma RefusedRun(s: string, g: Grounding, chunks: seq<Chunk>, ending: Ending)
    requires Classify(s).Refusal? && Answers(chunks, s)
    ensures Revealed(Trace(chunks, ending, g)) == Revealed(Streamed(FRESH, chunks, g).calls)
  {
    hide Gate, Streamed, Classify, Revealed;
    var l := Streamed(FRESH, chunks, g);
    RunStopsAfterStreaming(FRESH, chunks, ending, g);
    StreamedAccumulates(FRESH, chunks, g);
    assert "" + Output(chunks) == s;
    var withdrawn := if l.streaming then Retract(RefusalReason) else Refuse(RefusalReason);
    RevealedSnoc(l.calls, withdrawn);
    RevealedSnoc(l.calls + [withdrawn], Miss(RefusalReason));
    assert l.calls + [withdrawn] + [Miss(RefusalReason)] == l.calls + [withdrawn, Miss(RefusalReason)];
    assert forall shown: string :: shown + "" == shown;
  }

  /** A cut after the newline puts the control token of a refusal on the page. */
  lemma BrokenRefusalShowsInk(s: string, g: Grounding)
    requires Classify(s).Refusal? && BreaksAfterColon(s)
    ensures exists chunks, ending :: Answers(chunks, s) && Ink(Revealed(Trace(chunks, ending, g))) != ""
  {
    hide Gate, Classify, MatchStatus, SkipSpaces, Matches, TightGap, Trace, Streamed, Answers, Revealed, OnDelta;
    hide Finished, RevealedAt, IsSpace, Ink, Last, Tag;
    RefusedLine(s);
    LineFacts(s);
    var m, lead := MatchStatus(s), SkipSpaces(s, 0);
    var q :| m.gap <= q < m.tag && q < |s| && s[q] == '\n';
    BrokenIsLoose(s, q);
    RevealedAtIs(s);
    var k := m.tag + |Tag(m.status)| - 1;
    LooseLineIsShown(s, k);
    var chunks := [TextDelta(s[..k]), TextDelta(s[k..]), DoneChunk];
    TwoDeltas(s[..k], s[k..]);
    assert s[..k] + s[k..] == s;
    FirstDeltaReveals(s, k, g);
    StreamStep(FRESH, chunks, g);
    StreamedReveals(OnDelta(FRESH, s[..k], g), chunks[1..], g);
    RefusedRun(s, g, chunks, Exhausted);
    FinishedIs(s[..k]);
    TagLetters(m.status);
    BreakAt(s[..k], q);
    var shown := Revealed(Trace(chunks, Exhausted, g));
    assert shown[lead] == s[..k][..Last(s[..k])][lead] == s[lead];
    NotBlankAt(s, lead);
    InInk(shown, s[lead]);
  }

  lemma NotBlankAt(s: string, at: nat)
    requires at == SkipSpaces(s, 0) < |s|
    ensures !IsSpace(s[at])
  {
  }

  lemma BrokenIsLoose(s: string, q: nat)
    requires MatchStatus(s).Line? && MatchStatus(s).gap <= q < MatchStatus(s).tag && q < |s| && s[q] == '\n'
    ensures !TightGap(s)
  {
    hide MatchStatus;
  }

  /**
   * A refusal puts something other than white space on the page, in some cut, if and only if its status line has a
   * newline between the colon and the tag. Every other refusal, the legacy sentinel included, can open the stream but
   * shows nothing.
   */
  lemma RefusalShowsInkIff(s: string, g: Grounding)
    requires Classify(s).Refusal?
    ensures (exists chunks, ending :: Answers(chunks, s) && Ink(Revealed(Trace(chunks, ending, g))) != "")
            <==> BreaksAfterColon(s)
  {
    hide Gate, Classify, MatchStatus, SkipSpaces, Trace, Answers, Streamed, Revealed, BreaksAfterColon, Ink, IsSpace;
    if BreaksAfterColon(s) {
      BrokenRefusalShowsInk(s, g);
    } else {
      forall chunks, ending | Answers(chunks, s)
        ensures Ink(Revealed(Trace(chunks, ending, g))) == ""
      {
        QuietRun(s, g, chunks, ending);
      }
    }
  }

  lemma QuietRun(s: string, g: Grounding, chunks: seq<Chunk>, ending: Ending)
    requires Classify(s).Refusal? && !BreaksAfterColon(s) && Answers(chunks, s)
    ensures Ink(Revealed(Trace(chunks, ending, g))) == ""
  {
    hide Gate, Classify, MatchStatus, Trace, Streamed, Revealed, BreaksAfterColon, Ink, ShownIsIn, Streaming, IsSpace;
    var space := s[..SkipSpaces(s, 0)];
    forall k: nat | k <= |s|
      ensures ShownIsIn(s, k, space)
    {
      RefusalShowsSpace(s, k);
    }
    RevealedNothing();
    assert "" + Output(chunks) == s;
    StreamedSpells(FRESH, chunks, g, s, space);
    RefusedRun(s, g, chunks, ending);
    SpacesHaveNoInk(Revealed(Trace(chunks, ending, g)));
  }

  // ---------- what is on the page while an answer streams ----------

  /** Exactly the finished sentences of what the gate shows are on the page, or nothing if it shows nothing yet. */
  ghost predicate ShowsSentences(l: Live) {
    match Gate(l.accumulated)
    case Answering(body) => l.streaming && Revealed(l.calls) == Finished(body)
    case _ => !l.streaming && Revealed(l.calls) == ""
  }

  /** A longer body goes on from the same finished sentences. */
  lemma FlushShowsSentences(l: Live, was: string, body: string, g: Grounding)
    requires LiveInv(l, g) && l.streaming && Revealed(l.calls) == Finished(was) && was <= body
    ensures Revealed(Flush(l, body, false).calls) == Finished(body)
  {
    hide Streaming, Revealed, Last, LastBreak, Finished;
    FinishedIs(was);
    FinishedIs(body);
    LastOfPrefix(was, body);
    FlushReaches(l, body);
    assert was[..Last(was)] == body[..Last(was)];
    var n := Last(body);
    if n > l.streamedLen {
      RevealedSnoc(l.calls, Delta(body[l.streamedLen..n]));
      assert body[..n] == body[..l.streamedLen] + body[l.streamedLen..n];
    }
  }

  /** A flush goes as far as the last break. */
  lemma FlushReaches(l: Live, body: string)
    requires l.streaming && l.streamedLen <= Last(body)
    ensures Flush(l, body, false) ==
            if Last(body) == l.streamedLen then l
            else l.(streamedLen := Last(body), calls := l.calls + [Delta(body[l.streamedLen..Last(body)])])
  {
    SameBreak(body, l.streamedLen);
    LastNotAfter(body, l.streamedLen);
  }

  lemma LastNotAfter(body: string, from: nat)
    requires from <= |body|
    ensures LastBreak(body, from, |body|) >= Last(body)
  {
  }

  lemma OnDeltaShowsSentences(l: Live, delta: string, g: Grounding, s: string)
    requires Steady(s) && LiveInv(l, g) && ShowsSentences(l) && l.accumulated + delta <= s
    ensures ShowsSentences(OnDelta(l, delta, g))
  {
    hide Gate, Flush, LastBreak, Revealed, Streaming, Finished, Steady;
    var l' := l.(accumulated := l.accumulated + delta);
    var k, n := |l.accumulated|, |l'.accumulated|;
    assert s[..k] == l.accumulated && s[..n] == l'.accumulated;
    var gate := Gate(l'.accumulated);
    if Gate(s[..k]).Answering? {
      GateOnlyGrows(s, k, n);
      FlushShowsSentences(l', Gate(s[..k]).body, gate.body, g);
    } else if gate.Answering? {
      BeginKeepsInv(l', g);
      NothingFinished();
      assert "" <= gate.body;
      FlushShowsSentences(Begin(l', g), "", gate.body, g);
    }
    FlushKeepsRest(Begin(l', g), if gate.Answering? then gate.body else "");
  }

  lemma NothingFinished()
    ensures Finished("") == ""
  {
  }

  lemma FlushKeepsRest(l: Live, body: string)
    ensures var v := Flush(l, body, false); v.accumulated == l.accumulated && v.streaming == l.streaming
  {
    hide LastBreak;
  }

  lemma {:induction false} StreamedShowsSentences(l: Live, chunks: seq<Chunk>, g: Grounding, s: string)
    requires Steady(s) && LiveInv(l, g) && ShowsSentences(l) && l.accumulated + Output(chunks) <= s
    ensures ShowsSentences(Streamed(l, chunks, g))
    decreases |chunks|
  {
    hide Steady, LiveInv, ShowsSentences, OnDelta;
    if chunks == [] || chunks[0].DoneChunk? {
    } else if chunks[0].StartChunk? {
      StreamedShowsSentences(l, chunks[1..], g, s);
    } else {
      var d := chunks[0].delta;
      assert l.accumulated + Output(chunks) == l.accumulated + d + Output(chunks[1..]);
      OnDeltaKeepsInv(l, d, g);
      OnDeltaShowsSentences(l, d, g, s);
      OneDelta(l, d, g);
      StreamedShowsSentences(OnDelta(l, d, g), chunks[1..], g, s);
    }
  }

  /**
   * While a steady answer arrives, in whatever pieces, the page has exactly the finished sentences of what has arrived
   * of it: all up to the last full stop, exclamation or question mark, or newline, and nothing of the sentence being
   * written.
   */
  lemma PageHasSentences(s: string, k: nat, chunks: seq<Chunk>, g: Grounding)
    requires Steady(s) && k <= |s| && Output(chunks) == s[..k]
    ensures var page := Revealed(Streamed(FRESH, chunks, g).calls);
      match Gate(s[..k])
      case Answering(body) =>
        && page <= body && (page != "" ==> page[|page| - 1] in ['.', '!', '?', '\n'])
        && forall i :: |page| <= i < |body| ==> body[i] !in ['.', '!', '?', '\n']
      case _ => page == ""
  {
    hide Gate, Streamed, Revealed, Steady, Streaming;
    RevealedNothing();
    NothingIsForming();
    assert "" + Output(chunks) == s[..k];
    StreamedShowsSentences(FRESH, chunks, g, s);
    StreamedAccumulates(FRESH, chunks, g);
  }

  lemma NothingIsForming()
    ensures Gate("") == Forming
  {
  }
}
