/** How every token call and every refresh ends, told from the steps of the run alone. */
module TokenOutcomes {
  import opened Optionals
  import opened TokenRotation

  // ---------- runs, by their last step ----------

  lemma {:induction false} RunAppend(w: World, a: seq<Step>, b: seq<Step>)
    requires RunOk(w, a + b)
    ensures RunOk(w, a) && RunOk(Run(w, a), b) && Run(w, a + b) == Run(Run(w, a), b)
    decreases |a|
  {
    hide Next, Enabled;
    if a == [] {
      assert a + b == b;
    } else {
      assert (a + b)[0] == a[0] && (a + b)[1..] == a[1..] + b;
      RunAppend(Next(w, a[0]), a[1..], b);
    }
  }

  lemma RunSnoc(w: World, front: seq<Step>, s: Step)
    requires RunOk(w, front + [s])
    ensures RunOk(w, front) && Enabled(Run(w, front), s) && Run(w, front + [s]) == Next(Run(w, front), s)
  {
    RunAppend(w, front, [s]);
    var v := Run(w, front);
    hide Next, Enabled;
    assert [s][1..] == [];
    assert RunOk(v, [s]) && Run(v, [s]) == Run(Next(v, s), []);
  }

  // ---------- what the steps say ----------

  /** The call's read failed, or came after the connection was removed. */
  predicate ReadFailed(steps: seq<Step>, c: nat) {
    steps != [] &&
    var front, s := steps[..|steps| - 1], steps[|steps| - 1];
    ReadFailed(front, c) || s == ReadFails(c) || (s == Read(c) && Disconnect in front)
  }

  /** The refresh was refused, its encryption or its second read failed, or that read came after a disconnect. */
  predicate RefreshFailed(steps: seq<Step>, f: nat) {
    steps != [] &&
    var front, s := steps[..|steps| - 1], steps[|steps| - 1];
    || RefreshFailed(front, f)
    || s == Refresh(f, None) || s == EncryptFails(f) || s == ReReadFails(f) || (s == ReRead(f) && Disconnect in front)
  }

  /** The refresh a call has waited for. */
  function FlightOf(s: CallState): Option<nat> {
    match s
    case Waiting(f, _) => Some(f)
    case Returned(_, _, _, via) => via
    case Threw(waited) => waited
    case _ => None
  }

  /** The row a call has read. */
  function RowOf(s: CallState): Option<nat> {
    match s
    case HasRead(at) => Some(at)
    case Waiting(_, at) => Some(at)
    case Returned(_, at, _, _) => Some(at)
    case _ => None
  }

  predicate IsOver(s: CallState) {
    s.Returned? || s.Threw?
  }

  /** The states of one call before and after other things have happened. */
  predicate CallOn(a: CallState, b: CallState) {
    && (IsOver(a) ==> b == a)
    && (FlightOf(a).Some? ==> FlightOf(b) == FlightOf(a))
    && (RowOf(a).Some? ==> b.Threw? || RowOf(b) == RowOf(a))
  }

  ghost predicate CallsOn(w: World, v: World) {
    |w.calls| <= |v.calls| && forall c :: 0 <= c < |w.calls| ==> CallOn(w.calls[c].state, v.calls[c].state)
  }

  lemma CallsOnStep(w: World, s: Step)
    requires Enabled(w, s)
    ensures CallsOn(w, Next(w, s))
  {
    hide IsExpired;
  }

  lemma {:induction false} CallsOnRun(w: World, steps: seq<Step>)
    requires RunOk(w, steps)
    ensures CallsOn(w, Run(w, steps))
    decreases |steps|
  {
    hide Next, Enabled;
    if steps != [] {
      CallsOnStep(w, steps[0]);
      CallsOnRun(Next(w, steps[0]), steps[1..]);
    }
  }

  // ---------- the story of a run ----------

  ghost predicate Story(w: World, steps: seq<Step>) {
    && (w.row.None? <==> Disconnect in steps)
    && (forall f :: 0 <= f < |w.flights| ==> (w.flights[f].phase == Ended(None) <==> RefreshFailed(steps, f)))
    && (forall f: nat :: RefreshFailed(steps, f) ==> f < |w.flights|)
    && (forall c :: 0 <= c < |w.calls| ==> CallStory(w, steps, c))
    && (forall c: nat :: ReadFailed(steps, c) || Resume(c) in steps ==> c < |w.calls|)
  }

  ghost predicate CallStory(w: World, steps: seq<Step>, c: nat)
    requires c < |w.calls|
  {
    var s := w.calls[c].state;
    && (s.Threw? && s.waited.None? <==> ReadFailed(steps, c))
    && (IsOver(s) && FlightOf(s).Some? <==> Resume(c) in steps)
    && (FlightOf(s).Some? ==> FlightOf(s).value < |w.flights|)
    && (IsOver(s) && FlightOf(s).Some? ==> (s.Threw? <==> RefreshFailed(steps, FlightOf(s).value)))
  }

  /** A refresh that has ended stays as it ended. */
  lemma FlightStory(w: World, front: seq<Step>, s: Step, f: nat)
    requires Story(w, front) && Enabled(w, s) && Grows(w, Next(w, s)) && f < |Next(w, s).flights|
    ensures Next(w, s).flights[f].phase == Ended(None) <==> RefreshFailed(front + [s], f)
  {
    hide CallStory, Grows, IsExpired, RefreshFailed;
    RefreshFailedSnoc(front, s, f);
    if f < |w.flights| {
      assert FlightGrows(w.flights[f], Next(w, s).flights[f]) by {
        GrowsAt(w, Next(w, s), f);
      }
    }
  }

  lemma GrowsAt(w: World, v: World, f: nat)
    requires Grows(w, v) && f < |w.flights|
    ensures f < |v.flights| && FlightGrows(w.flights[f], v.flights[f])
  {
  }

  lemma RefreshFailedSnoc(front: seq<Step>, s: Step, f: nat)
    ensures RefreshFailed(front + [s], f) <==>
      || RefreshFailed(front, f)
      || s == Refresh(f, None) || s == EncryptFails(f) || s == ReReadFails(f) || (s == ReRead(f) && Disconnect in front)
  {
    assert (front + [s])[..|front|] == front;
  }

  lemma ReadFailedSnoc(front: seq<Step>, s: Step, c: nat)
    ensures ReadFailed(front + [s], c) <==>
      ReadFailed(front, c) || s == ReadFails(c) || (s == Read(c) && Disconnect in front)
  {
    assert (front + [s])[..|front|] == front;
  }

  /** A step that is not the call's own leaves its story, up to what its refresh has come to. */
  lemma OthersStory(w: World, front: seq<Step>, s: Step, c: nat)
    requires Story(w, front) && Inv(w) && Enabled(w, s) && Grows(w, Next(w, s))
    requires c < |w.calls| && c < |Next(w, s).calls| && Next(w, s).calls[c] == w.calls[c]
    requires s != ReadFails(c) && s != Read(c) && s != Resume(c)
    ensures CallStory(Next(w, s), front + [s], c)
  {
    hide Grows, IsExpired, RefreshFailed, ReadFailed, Chain, Coalesced, FlightOk, Next, Enabled;
    ReadFailedSnoc(front, s, c);
    assert Resume(c) in front + [s] <==> Resume(c) in front;
    assert CallStory(w, front, c) && CallOk(w, w.calls[c]);
    var flight := FlightOf(w.calls[c].state);
    if flight.Some? {
      EndedStory(w, front, s, flight.value);
    }
  }

  /** One of its own steps. */
  lemma OwnStory(w: World, front: seq<Step>, s: Step, c: nat)
    requires Story(w, front) && Inv(w) && Enabled(w, s) && Grows(w, Next(w, s)) && Inv(Next(w, s))
    requires c < |w.calls| && c < |Next(w, s).calls|
    requires s == ReadFails(c) || s == Read(c) || s == Decide(c) || s == Resume(c)
    ensures CallStory(Next(w, s), front + [s], c)
  {
    hide Grows, IsExpired, RefreshFailed, ReadFailed, Chain, Coalesced, FlightOk;
    ReadFailedSnoc(front, s, c);
    assert Resume(c) in front + [s] <==> Resume(c) in front || s == Resume(c);
    assert CallStory(w, front, c) && CallOk(w, w.calls[c]) && CallOk(Next(w, s), Next(w, s).calls[c]);
    if s == Resume(c) {
      EndedStory(w, front, s, w.calls[c].state.flight);
    }
  }

  lemma NewStory(w: World, front: seq<Step>, s: Step, c: nat)
    requires Story(w, front) && Enabled(w, s) && |w.calls| <= c < |Next(w, s).calls|
    ensures CallStory(Next(w, s), front + [s], c)
  {
    hide IsExpired, RefreshFailed, ReadFailed, CallStory;
    ReadFailedSnoc(front, s, c);
    StartStory(Next(w, s), front + [s], c);
  }

  lemma StartStory(w: World, steps: seq<Step>, c: nat)
    requires c < |w.calls| && w.calls[c].state.Start? && !ReadFailed(steps, c) && Resume(c) !in steps
    ensures CallStory(w, steps, c)
  {
  }

  lemma CallStoryOn(w: World, front: seq<Step>, s: Step, c: nat)
    requires Story(w, front) && Inv(w) && Enabled(w, s) && Grows(w, Next(w, s)) && Inv(Next(w, s))
    requires c < |Next(w, s).calls|
    ensures CallStory(Next(w, s), front + [s], c)
  {
    hide Story, CallStory, Grows, Inv;
    if c >= |w.calls| {
      NewStory(w, front, s, c);
    } else if s == ReadFails(c) || s == Read(c) || s == Decide(c) || s == Resume(c) {
      OwnStory(w, front, s, c);
    } else {
      OthersUntouched(w, s, c);
      OthersStory(w, front, s, c);
    }
  }

  lemma OthersUntouched(w: World, s: Step, c: nat)
    requires Enabled(w, s) && c < |w.calls|
    requires s != ReadFails(c) && s != Read(c) && s != Decide(c) && s != Resume(c)
    ensures c < |Next(w, s).calls| && Next(w, s).calls[c] == w.calls[c]
  {
    hide IsExpired;
  }

  lemma EndedStory(w: World, front: seq<Step>, s: Step, f: nat)
    requires Story(w, front) && Enabled(w, s) && Grows(w, Next(w, s)) && f < |w.flights|
    ensures |w.flights| <= |Next(w, s).flights|
    ensures w.flights[f].phase.Ended? ==> (RefreshFailed(front + [s], f) <==> RefreshFailed(front, f))
    ensures w.flights[f].phase == Ended(None) <==> RefreshFailed(front, f)
  {
    hide CallStory, RefreshFailed, Next;
    GrowsAt(w, Next(w, s), f);
    FlightStory(w, front, s, f);
  }

  lemma NewcomersHaveNoStory(w: World, front: seq<Step>, s: Step)
    requires Story(w, front) && Enabled(w, s) && Grows(w, Next(w, s))
    ensures forall f: nat :: RefreshFailed(front + [s], f) ==> f < |Next(w, s).flights|
    ensures forall c: nat :: ReadFailed(front + [s], c) || Resume(c) in front + [s] ==> c < |Next(w, s).calls|
  {
    hide CallStory, RefreshFailed, ReadFailed, IsExpired;
    forall f: nat | RefreshFailed(front + [s], f)
      ensures f < |Next(w, s).flights|
    {
      RefreshFailedSnoc(front, s, f);
    }
    forall c: nat | ReadFailed(front + [s], c) || Resume(c) in front + [s]
      ensures c < |Next(w, s).calls|
    {
      ReadFailedSnoc(front, s, c);
    }
  }

  lemma RowStory(w: World, front: seq<Step>, s: Step)
    requires Story(w, front) && Enabled(w, s)
    ensures Next(w, s).row.None? <==> Disconnect in front + [s]
  {
    hide CallStory, RefreshFailed, ReadFailed, IsExpired;
  }

  lemma {:induction false} RunHasStory(row: Row, steps: seq<Step>)
    requires RunOk(Initial(row), steps)
    ensures Story(Run(Initial(row), steps), steps)
  {
    if steps != [] {
      hide *;
      var front, s := steps[..|steps| - 1], steps[|steps| - 1];
      assert front + [s] == steps;
      RunSnoc(Initial(row), front, s);
      RunHasStory(row, front);
      InitialInv(row);
      RunKeepsInv(Initial(row), front);
      NextKeepsInv(Run(Initial(row), front), s);
      StoryOn(Run(Initial(row), front), front, s);
    }
  }

  lemma StoryOn(w: World, front: seq<Step>, s: Step)
    requires Story(w, front) && Inv(w) && Enabled(w, s) && Grows(w, Next(w, s)) && Inv(Next(w, s))
    ensures Story(Next(w, s), front + [s])
  {
    RowStory(w, front, s);
    NewcomersHaveNoStory(w, front, s);
    var v := Next(w, s);
    hide CallStory, RefreshFailed, ReadFailed, Next, Enabled, Inv;
    forall f | 0 <= f < |v.flights|
      ensures v.flights[f].phase == Ended(None) <==> RefreshFailed(front + [s], f)
    {
      FlightStory(w, front, s, f);
    }
    forall c | 0 <= c < |v.calls|
      ensures CallStory(v, front + [s], c)
    {
      CallStoryOn(w, front, s, c);
    }
  }

  // ---------- how calls end ----------

  /**
   * In every run a call throws if and only if its read failed or found no connection, or it has resumed from a refresh
   * that failed; and a call that has resumed from any other refresh returns the token the refresh ended with.
   */
  lemma ThrowsIff(row: Row, steps: seq<Step>, c: nat)
    requires RunOk(Initial(row), steps) && c < |Run(Initial(row), steps).calls|
    ensures var w := Run(Initial(row), steps);
      var s := w.calls[c].state;
      && (s.Threw? <==>
            || ReadFailed(steps, c)
            || (Resume(c) in steps && FlightOf(s).Some? && RefreshFailed(steps, FlightOf(s).value)))
      && (Resume(c) in steps ==>
            && FlightOf(s).Some? && FlightOf(s).value < |w.flights|
            && var ended := w.flights[FlightOf(s).value].phase;
               && ended.Ended? && (ended.result.None? <==> RefreshFailed(steps, FlightOf(s).value))
               && (ended.result.Some? ==> s.Returned? && s.token == ended.result.value))
  {
    RunHasStory(row, steps);
    InitialInv(row);
    RunKeepsInv(Initial(row), steps);
    hide RunOk, Run, RefreshFailed, ReadFailed, Chain, Coalesced, FlightOk;
    var w := Run(Initial(row), steps);
    assert CallStory(w, steps, c) && CallOk(w, w.calls[c]);
  }

  // ---------- what one step settles for the rest of the run ----------

  /** The state in the middle of a run. */
  function Midway(row: Row, before: seq<Step>, rest: seq<Step>): World
    requires RunOk(Initial(row), before + rest)
  {
    RunAppend(Initial(row), before, rest);
    Run(Initial(row), before)
  }

  lemma StepIsKept(row: Row, before: seq<Step>, s: Step, rest: seq<Step>)
    requires RunOk(Initial(row), before + ([s] + rest))
    ensures var w, end := Midway(row, before, [s] + rest), Run(Initial(row), before + ([s] + rest));
      && Inv(w) && Enabled(w, s) && Inv(Next(w, s)) && Inv(end) && Grows(Next(w, s), end) && CallsOn(Next(w, s), end)
  {
    hide Next, Enabled, Inv, Grows, CallsOn;
    var w := Midway(row, before, [s] + rest);
    RunAppend(Initial(row), before, [s] + rest);
    assert ([s] + rest)[0] == s && ([s] + rest)[1..] == rest;
    InitialInv(row);
    RunKeepsInv(Initial(row), before);
    NextKeepsInv(w, s);
    RunKeepsInv(Next(w, s), rest);
    CallsOnRun(Next(w, s), rest);
  }

  /** The row a call goes by is the one stored when it read. */
  lemma ReadsStoredRow(row: Row, before: seq<Step>, c: nat, rest: seq<Step>)
    requires RunOk(Initial(row), before + ([Read(c)] + rest)) && Disconnect !in before
    ensures var w, end := Midway(row, before, [Read(c)] + rest), Run(Initial(row), before + ([Read(c)] + rest));
      && w.log != [] && w.row == Some(w.log[|w.log| - 1])
      && c < |end.calls| && (end.calls[c].state.Threw? || RowOf(end.calls[c].state) == Some(|w.log| - 1))
  {
    StepIsKept(row, before, Read(c), rest);
    var w, end := Midway(row, before, [Read(c)] + rest), Run(Initial(row), before + ([Read(c)] + rest));
    RunAppend(Initial(row), before, [Read(c)] + rest);
    RunHasStory(row, before);
    hide RunOk, Run, Grows, FlightOk, CallOk, Coalesced, CallStory, ReadFailed, RefreshFailed;
    assert CallOn(Next(w, Read(c)).calls[c].state, end.calls[c].state);
  }

  /**
   * A call whose row has more than a minute left returns that row's access token, in every run; every other call waits
   * for the one unsettled refresh of its process, which is a new one from that row if there was none.
   */
  lemma DecidesByExpiry(row: Row, before: seq<Step>, c: nat, rest: seq<Step>)
    requires RunOk(Initial(row), before + ([Decide(c)] + rest))
    ensures var w, end := Midway(row, before, [Decide(c)] + rest), Run(Initial(row), before + ([Decide(c)] + rest));
      && c < |w.calls| && w.calls[c].state.HasRead? && w.calls[c].state.at < |w.log|
      && c < |end.calls|
      && var Call(process, now, HasRead(at)) := w.calls[c];
         var pair := w.log[at].pair;
         if pair.expiresAt - now > 60_000 then
           end.calls[c].state == Returned(Token(pair.access, at), at, |w.log| - 1, None)
         else
           var joined := FlightOf(end.calls[c].state);
           && joined.Some? && joined.value < |end.flights| && end.flights[joined.value].process == process
           && if exists f :: 0 <= f < |w.flights| && w.flights[f].process == process && !w.flights[f].settled then
                joined.value < |w.flights| && !w.flights[joined.value].settled
              else
                joined.value == |w.flights| && end.flights[joined.value].base == at
  {
    StepIsKept(row, before, Decide(c), rest);
    var w, end := Midway(row, before, [Decide(c)] + rest), Run(Initial(row), before + ([Decide(c)] + rest));
    hide RunOk, Run, Grows, FlightOk, CallOk, Chain, Next, Coalesced;
    DecideIs(w, c);
    var v := Next(w, Decide(c));
    assert CallOn(v.calls[c].state, end.calls[c].state);
    if FlightOf(v.calls[c].state).Some? {
      GrowsAt(v, end, FlightOf(v.calls[c].state).value);
    }
  }

  lemma DecideIs(w: World, c: nat)
    requires Inv(w) && Enabled(w, Decide(c))
    ensures var Call(process, now, HasRead(at)) := w.calls[c];
      var v := Next(w, Decide(c));
      var pair := w.log[at].pair;
      && c < |v.calls|
      && if pair.expiresAt - now > 60_000 then
           v.calls[c].state == Returned(Token(pair.access, at), at, |w.log| - 1, None)
         else
           var joined := FlightOf(v.calls[c].state);
           && joined.Some? && joined.value < |v.flights| && v.flights[joined.value].process == process
           && if exists f :: 0 <= f < |w.flights| && w.flights[f].process == process && !w.flights[f].settled then
                joined.value < |w.flights| && !w.flights[joined.value].settled
              else
                joined.value == |w.flights| && v.flights[joined.value].base == at
  {
    hide FlightOk, CallOk, Chain;
  }

  /** An answered write that reached its row hands out the token of the response, and the row after it holds that. */
  lemma AnsweredWriteHandsOut(row: Row, before: seq<Step>, f: nat, rest: seq<Step>)
    requires RunOk(Initial(row), before + ([Write(f, Answered)] + rest))
    ensures var w := Midway(row, before, [Write(f, Answered)] + rest);
      var end := Run(Initial(row), before + ([Write(f, Answered)] + rest));
      && f < |w.flights| && f < |end.flights| && w.flights[f].answer.Some? && w.flights[f].base < |w.log|
      && var pair := w.flights[f].answer.value;
         var base := w.log[w.flights[f].base];
         w.row.Some? && w.row.value.version == base.version ==>
           && end.flights[f].phase == Ended(Some(Token(pair.access, |w.log|)))
           && |w.log| < |end.log| && end.log[|w.log|] == Row(pair, base.version + 1)
  {
    StepIsKept(row, before, Write(f, Answered), rest);
    var w := Midway(row, before, [Write(f, Answered)] + rest);
    var end := Run(Initial(row), before + ([Write(f, Answered)] + rest));
    hide RunOk, Run, CallOk, Chain, Coalesced, FlightOk, CallsOn;
    GrowsAt(Next(w, Write(f, Answered)), end, f);
  }

  /** A second read that finds the row hands out the token stored at that moment. */
  lemma ReReadHandsOutStored(row: Row, before: seq<Step>, f: nat, rest: seq<Step>)
    requires RunOk(Initial(row), before + ([ReRead(f)] + rest)) && Disconnect !in before
    ensures var w, end := Midway(row, before, [ReRead(f)] + rest), Run(Initial(row), before + ([ReRead(f)] + rest));
      && f < |end.flights| && w.row.Some? && w.log != []
      && end.flights[f].phase == Ended(Some(Token(w.row.value.pair.access, |w.log| - 1)))
  {
    StepIsKept(row, before, ReRead(f), rest);
    var w, end := Midway(row, before, [ReRead(f)] + rest), Run(Initial(row), before + ([ReRead(f)] + rest));
    RunAppend(Initial(row), before, [ReRead(f)] + rest);
    RunHasStory(row, before);
    hide RunOk, Run, CallOk, Chain, Coalesced, FlightOk, CallsOn, CallStory, ReadFailed, RefreshFailed;
    GrowsAt(Next(w, ReRead(f)), end, f);
  }

  const GOOD_WRITE: seq<Step> := [Write(0, Answered)] + ([Settle(0)] + ([Resume(0)] + []))

  /** The whole good run of a single call, for every expired row, every response and every clock. */
  lemma GoodRefresh(row: Row, pair: Pair, now: int)
    requires row.pair.expiresAt - now <= 60_000
    ensures var steps := [Enter(0, now)] + ([Read(0)] + ([Decide(0)] + ([Refresh(0, Some(pair))] + GOOD_WRITE)));
      && RunOk(Initial(row), steps)
      && var w := Run(Initial(row), steps);
        && w.row == Some(Row(pair, row.version + 1))
        && w.calls == [Call(0, now, Returned(Token(pair.access, 1), 0, 1, Some(0)))]
  {
    hide RunOk, Run, Next, Enabled;
    GoodWrite(row, pair, now);
    Prepared(row, pair, now, GOOD_WRITE);
  }

  lemma GoodWrite(row: Row, pair: Pair, now: int)
    ensures var w := OneCall(row, [Flight(0, 0, Some(pair), Refreshed, false, 0, false)], now, Waiting(0, 0));
      && RunOk(w, GOOD_WRITE)
      && Run(w, GOOD_WRITE).row == Some(Row(pair, row.version + 1))
      && Run(w, GOOD_WRITE).calls == [Call(0, now, Returned(Token(pair.access, 1), 0, 1, Some(0)))]
  {
    hide RunOk, Run;
    var next := Row(pair, row.version + 1);
    var got := Ended(Some(Token(pair.access, 1)));
    var w4 := OneCall(row, [Flight(0, 0, Some(pair), Refreshed, false, 0, false)], now, Waiting(0, 0));
    var w5 := w4.(row := Some(next), log := [row, next], origins := [Origin(0, pair)],
                  flights := [Flight(0, 0, Some(pair), got, false, 1, false)]);
    var w6 := w5.(flights := [Flight(0, 0, Some(pair), got, false, 1, true)], inflight := map[]);
    NoStep(Next(w6, Resume(0)));
    OneStep(w6, Resume(0), []);
    assert Next(w5, Settle(0)) == w6;
    OneStep(w5, Settle(0), [Resume(0)] + []);
    assert Next(w4, Write(0, Answered)) == w5;
    OneStep(w4, Write(0, Answered), [Settle(0)] + ([Resume(0)] + []));
  }
}
