/**
 * Concurrent callers of one connection's access token: coalesced refreshes per process, version-guarded writes across
 * processes.
 */
module TokenRotation {
  import opened Optionals

  const EXPIRY_SKEW_MS: int := 60_000

  /** What one refresh response carries. */
  datatype Pair = Pair(access: nat, refresh: nat, expiresAt: int)

  datatype Row = Row(pair: Pair, version: int)

  predicate IsExpired(row: Row, now: int) {
    row.pair.expiresAt - EXPIRY_SKEW_MS <= now
  }

  /** An access token and the stored row it was taken from. */
  datatype Token = Token(access: nat, at: nat)

  /** How far a refresh has come. Lost: its write reported no changed row. Errored: its write failed without effect. */
  datatype Phase = Refreshing | Refreshed | Lost | Ended(result: Option<Token>)

  /**
   * A refresh: the process it runs in, the row whose refresh token it presents, the response to that, how many rows had
   * been stored when it took the token it hands out, and whether its promise has settled.
   */
  datatype Flight = Flight(
    process: nat, base: nat, answer: Option<Pair>, phase: Phase, errored: bool, stored: nat, settled: bool)

  /**
   * How far a call has come: `at` is the row stored when the call read, `until` the one stored when it returned, `via`
   * and `waited` the refresh it waited for.
   */
  datatype CallState =
    | Start
    | HasRead(at: nat)
    | Waiting(flight: nat, at: nat)
    | Returned(token: Token, at: nat, until: nat, via: Option<nat>)
    | Threw(waited: Option<nat>)

  datatype Call = Call(process: nat, now: int, state: CallState)

  /** Who wrote a row, and with which response. */
  datatype Origin = Origin(flight: nat, pair: Pair)

  /** The database row with every row it ever was, the in-process maps, and everything under way. */
  datatype World = World(row: Option<Row>, log: seq<Row>, origins: seq<Origin>, inflight: map<nat, nat>,
    flights: seq<Flight>, calls: seq<Call>)

  datatype WriteOutcome = Answered | AppliedButNoAnswer | NotApplied

  /** The fallible steps: a read throws on a database error, on missing ciphertext, and on a failed decryption. */
  datatype Step =
    | Enter(process: nat, now: int)
    | Read(call: nat)
    | ReadFails(call: nat)
    | Decide(call: nat)
    | Refresh(flight: nat, response: Option<Pair>)
    | EncryptFails(flight: nat)
    | Write(flight: nat, outcome: WriteOutcome)
    | ReRead(flight: nat)
    | ReReadFails(flight: nat)
    | Settle(flight: nat)
    | Resume(call: nat)
    | Disconnect

  function Initial(row: Row): World {
    World(Some(row), [row], [], map[], [], [])
  }

  function SetCall(w: World, c: nat, s: CallState): World
    requires c < |w.calls|
  {
    w.(calls := w.calls[c := w.calls[c].(state := s)])
  }

  function SetPhase(w: World, f: nat, p: Phase): World
    requires f < |w.flights|
  {
    w.(flights := w.flights[f := w.flights[f].(phase := p)])
  }

  /** A refresh ends with the token of a row, given how many rows have been stored by then. */
  function SetResult(w: World, f: nat, t: Token): World
    requires f < |w.flights|
  {
    w.(flights := w.flights[f := w.flights[f].(phase := Ended(Some(t)), stored := |w.origins|)])
  }

  function Now(w: World): nat
    requires w.log != []
  {
    |w.log| - 1
  }

  function OnRead(w: World, c: nat): World
    requires c < |w.calls| && w.log != []
  {
    SetCall(w, c, if w.row.Some? then HasRead(Now(w)) else Threw(None))
  }

  /** Synchronous after the read: return a live token, join the process's refresh, or start one. */
  function OnDecide(w: World, c: nat): World
    requires c < |w.calls| && w.calls[c].state.HasRead? && w.calls[c].state.at < |w.log|
  {
    var call := w.calls[c];
    var at := call.state.at;
    if !IsExpired(w.log[at], call.now) then
      SetCall(w, c, Returned(Token(w.log[at].pair.access, at), at, Now(w), None))
    else if call.process in w.inflight then
      SetCall(w, c, Waiting(w.inflight[call.process], at))
    else
      var f := |w.flights|;
      SetCall(w.(flights := w.flights + [Flight(call.process, at, None, Refreshing, false, 0, false)],
                 inflight := w.inflight[call.process := f]), c, Waiting(f, at))
  }

  /** The guarded update: only a row that still has the version the refresh started from is written. */
  function OnWrite(w: World, f: nat, outcome: WriteOutcome): World
    requires f < |w.flights| && w.flights[f].answer.Some? && w.flights[f].base < |w.log|
  {
    var flight := w.flights[f];
    var pair := flight.answer.value;
    var version := w.log[flight.base].version;
    if outcome.NotApplied? then w.(flights := w.flights[f := flight.(phase := Lost, errored := true)])
    else if w.row.Some? && w.row.value.version == version then
      var row := Row(pair, version + 1);
      var w' := w.(row := Some(row), log := w.log + [row], origins := w.origins + [Origin(f, pair)]);
      if outcome.Answered? then SetResult(w', f, Token(pair.access, |w.log|)) else SetPhase(w', f, Lost)
    else SetPhase(w, f, Lost)
  }

  function OnReRead(w: World, f: nat): World
    requires f < |w.flights| && w.flights[f].phase.Lost? && w.log != []
  {
    if w.row.Some? then SetResult(w, f, Token(w.row.value.pair.access, Now(w))) else SetPhase(w, f, Ended(None))
  }

  function OnResume(w: World, c: nat): World
    requires c < |w.calls| && w.calls[c].state.Waiting? && w.log != []
    requires w.calls[c].state.flight < |w.flights| && w.flights[w.calls[c].state.flight].phase.Ended?
  {
    var f, at := w.calls[c].state.flight, w.calls[c].state.at;
    var result := w.flights[f].phase.result;
    SetCall(w, c, if result.Some? then Returned(result.value, at, Now(w), Some(f)) else Threw(Some(f)))
  }

  predicate Enabled(w: World, s: Step) {
    && w.log != []
    && match s
       case Enter(_, _) => true
       case Read(c) => c < |w.calls| && w.calls[c].state.Start?
       case ReadFails(c) => c < |w.calls| && w.calls[c].state.Start?
       case Decide(c) => c < |w.calls| && w.calls[c].state.HasRead? && w.calls[c].state.at < |w.log|
       case Refresh(f, _) => f < |w.flights| && w.flights[f].phase.Refreshing?
       case EncryptFails(f) => f < |w.flights| && w.flights[f].phase.Refreshed?
       case Write(f, _) => f < |w.flights| && w.flights[f].phase.Refreshed? && w.flights[f].answer.Some?
         && w.flights[f].base < |w.log|
       case ReRead(f) => f < |w.flights| && w.flights[f].phase.Lost?
       case ReReadFails(f) => f < |w.flights| && w.flights[f].phase.Lost?
       case Settle(f) => f < |w.flights| && w.flights[f].phase.Ended? && !w.flights[f].settled
       case Resume(c) =>
         && c < |w.calls| && w.calls[c].state.Waiting? && w.calls[c].state.flight < |w.flights|
         && w.flights[w.calls[c].state.flight].settled && w.flights[w.calls[c].state.flight].phase.Ended?
       case Disconnect => true
  }

  function Next(w: World, s: Step): World
    requires Enabled(w, s)
  {
    match s
    case Enter(process, now) => w.(calls := w.calls + [Call(process, now, Start)])
    case Read(c) => OnRead(w, c)
    case ReadFails(c) => SetCall(w, c, Threw(None))
    case Decide(c) => OnDecide(w, c)
    case Refresh(f, response) =>
      w.(flights := w.flights[f :=
        w.flights[f].(answer := response, phase := if response.Some? then Refreshed else Ended(None))])
    case EncryptFails(f) => SetPhase(w, f, Ended(None))
    case Write(f, outcome) => OnWrite(w, f, outcome)
    case ReRead(f) => OnReRead(w, f)
    case ReReadFails(f) => SetPhase(w, f, Ended(None))
    case Settle(f) =>
      w.(flights := w.flights[f := w.flights[f].(settled := true)],
         inflight := w.inflight - {w.flights[f].process})
    case Resume(c) => OnResume(w, c)
    case Disconnect => w.(row := None)
  }

  // ---------- the invariant ----------

  /**
   * Every stored row is one version above the row it replaced, and was written by a refresh that started from that
   * row.
   */
  ghost predicate Chain(w: World) {
    && w.log != []
    && |w.origins| == |w.log| - 1
    && (w.row.Some? ==> w.row.value == w.log[|w.log| - 1])
    && (forall i :: 0 <= i < |w.log| ==> w.log[i].version == w.log[0].version + i)
    && (forall i :: 0 <= i < |w.origins| ==> OriginOk(w, i))
  }

  ghost predicate OriginOk(w: World, i: nat)
    requires i < |w.origins| && i + 1 < |w.log|
  {
    var o := w.origins[i];
    && w.log[i + 1].pair == o.pair
    && o.flight < |w.flights| && w.flights[o.flight].base == i
    && w.flights[o.flight].answer == Some(o.pair)
    && !w.flights[o.flight].phase.Refreshing? && !w.flights[o.flight].phase.Refreshed?
  }

  /** A process's map holds exactly its refresh that has not settled. */
  ghost predicate Coalesced(w: World) {
    && (forall p :: p in w.inflight ==> w.inflight[p] < |w.flights| && w.flights[w.inflight[p]].process == p)
    && (forall f :: 0 <= f < |w.flights| ==>
          (!w.flights[f].settled <==> w.flights[f].process in w.inflight && w.inflight[w.flights[f].process] == f))
  }

  /** A refresh ends with a row at least as new as its base, and with the base itself only when its write failed. */
  ghost predicate FlightOk(w: World, f: Flight) {
    && f.base < |w.log|
    && (f.phase.Refreshing? <==> f.answer.None? && f.phase != Ended(None))
    && (f.phase.Lost? && !f.errored && w.row.Some? ==> f.base < |w.log| - 1)
    && (f.phase.Ended? && f.phase.result.Some? ==> TokenOk(w, f, f.phase.result.value))
    && (f.settled ==> f.phase.Ended?)
  }

  ghost predicate TokenOk(w: World, f: Flight, t: Token) {
    && f.base <= t.at == f.stored < |w.log|
    && (t.at == f.base ==> f.errored)
    && t.access == w.log[t.at].pair.access
  }

  ghost predicate CallOk(w: World, c: Call) {
    match c.state
    case Start => true
    case Threw(_) => true
    case HasRead(at) => at < |w.log|
    case Waiting(f, at) => at < |w.log| && IsExpired(w.log[at], c.now) && f < |w.flights|
      && w.flights[f].process == c.process
    case Returned(t, at, until, via) =>
      && at < |w.log| && t.at <= until < |w.log| && at <= until
      && t.access == w.log[t.at].pair.access
      && match via
         case None => t.at == at && !IsExpired(w.log[at], c.now)
         case Some(f) =>
           && IsExpired(w.log[at], c.now) && f < |w.flights| && w.flights[f].base <= t.at
           && w.flights[f].phase == Ended(Some(t))
  }

  ghost predicate Inv(w: World) {
    && Chain(w)
    && Coalesced(w)
    && (forall f :: 0 <= f < |w.flights| ==> FlightOk(w, w.flights[f]))
    && (forall c :: 0 <= c < |w.calls| ==> CallOk(w, w.calls[c]))
  }

  // ---------- one step keeps it ----------

  /** What every step leaves as it was. */
  ghost predicate Grows(w: World, v: World) {
    && w.log <= v.log && w.origins <= v.origins
    && (v.row.Some? ==> w.row.Some?)
    && |w.flights| <= |v.flights| && |w.calls| <= |v.calls|
    && (forall f :: 0 <= f < |w.flights| ==> FlightGrows(w.flights[f], v.flights[f]))
    && (forall c :: 0 <= c < |w.calls| && (w.calls[c].state.Returned? || w.calls[c].state.Threw?) ==>
      v.calls[c] == w.calls[c])
  }

  predicate FlightGrows(f: Flight, g: Flight) {
    && g.base == f.base && g.process == f.process
    && (f.answer.Some? ==> g.answer == f.answer)
    && (f.errored ==> g.errored)
    && (f.phase.Ended? ==> g.phase == f.phase)
    && (!f.phase.Refreshing? && !f.phase.Refreshed? ==> !g.phase.Refreshing? && !g.phase.Refreshed?)
  }

  lemma CallStays(w: World, v: World, c: Call)
    requires Grows(w, v) && CallOk(w, c)
    ensures CallOk(v, c)
  {
  }

  lemma FlightStays(w: World, v: World, f: Flight)
    requires Grows(w, v) && FlightOk(w, f)
    ensures FlightOk(v, f)
  {
  }

  lemma CallsStay(w: World, v: World)
    requires Inv(w) && Grows(w, v)
    ensures forall c :: 0 <= c < |w.calls| ==> CallOk(v, w.calls[c])
    ensures forall f :: 0 <= f < |w.flights| ==> FlightOk(v, w.flights[f])
  {
    forall c | 0 <= c < |w.calls|
      ensures CallOk(v, w.calls[c])
    {
      CallStays(w, v, w.calls[c]);
    }
    forall f | 0 <= f < |w.flights|
      ensures FlightOk(v, w.flights[f])
    {
      FlightStays(w, v, w.flights[f]);
    }
  }

  /** Where the database row is not written, the chain of rows stays. */
  lemma ChainStays(w: World, v: World)
    requires Chain(w) && Grows(w, v) && v.log == w.log && v.origins == w.origins
    requires v.row == w.row || v.row.None?
    ensures Chain(v)
  {
    forall i | 0 <= i < |v.origins|
      ensures OriginOk(v, i)
    {
      assert OriginOk(w, i);
    }
  }

  lemma CoalescedStays(w: World, v: World)
    requires Coalesced(w) && v.inflight == w.inflight && |v.flights| == |w.flights|
    requires forall f :: 0 <= f < |w.flights| ==>
      v.flights[f].process == w.flights[f].process && v.flights[f].settled == w.flights[f].settled
    ensures Coalesced(v)
  {
  }

  lemma NextKeepsInv(w: World, s: Step)
    requires Inv(w) && Enabled(w, s)
    ensures Inv(Next(w, s)) && Grows(w, Next(w, s))
  {
    hide CallOk, FlightOk, Chain, Coalesced, Grows;
    StepGrows(w, s);
    ChainStep(w, s);
    CoalescedStep(w, s);
    FlightsStep(w, s);
    CallsStep(w, s);
  }

  lemma StepGrows(w: World, s: Step)
    requires Inv(w) && Enabled(w, s)
    ensures Grows(w, Next(w, s))
  {
    hide Inv, Enabled, Next, Grows;
    if s.Enter? || s.Read? || s.ReadFails? || s.Decide? || s.Resume? || s.Disconnect? {
      CallGrows(w, s);
    } else if s.Write? {
      WriteGrows(w, s);
    } else {
      RefreshGrows(w, s);
    }
  }

  lemma CallGrows(w: World, s: Step)
    requires Inv(w) && Enabled(w, s)
    requires s.Enter? || s.Read? || s.ReadFails? || s.Decide? || s.Resume? || s.Disconnect?
    ensures Grows(w, Next(w, s))
  {
    hide CallOk, Chain, Coalesced, FlightOk, IsExpired;
  }

  lemma WriteGrows(w: World, s: Step)
    requires Inv(w) && Enabled(w, s) && s.Write?
    ensures Grows(w, Next(w, s))
  {
    hide CallOk, Chain, Coalesced, FlightOk;
  }

  lemma RefreshGrows(w: World, s: Step)
    requires Inv(w) && Enabled(w, s)
    requires s.Refresh? || s.EncryptFails? || s.ReRead? || s.ReReadFails? || s.Settle?
    ensures Grows(w, Next(w, s))
  {
    hide CallOk, Chain, Coalesced;
    assert FlightOk(w, w.flights[s.flight]);
  }

  lemma ChainStep(w: World, s: Step)
    requires Inv(w) && Enabled(w, s) && Grows(w, Next(w, s))
    ensures Chain(Next(w, s))
  {
    hide CallOk, Coalesced, Grows;
    var v := Next(w, s);
    if s.Write? && v.log != w.log {
      var n := |w.origins|;
      forall i | 0 <= i < |v.origins|
        ensures OriginOk(v, i)
      {
        if i < n {
          assert OriginOk(w, i);
          OriginStays(w, v, i);
        } else {
          assert w.row.value.version == w.log[w.flights[s.flight].base].version;
        }
      }
    } else {
      ChainStays(w, v);
    }
  }

  lemma OriginStays(w: World, v: World, i: nat)
    requires i < |w.origins| && i + 1 < |w.log| && OriginOk(w, i) && Grows(w, v)
    ensures i < |v.origins| && i + 1 < |v.log| && OriginOk(v, i)
  {
    assert FlightGrows(w.flights[w.origins[i].flight], v.flights[w.origins[i].flight]);
  }

  lemma CoalescedStep(w: World, s: Step)
    requires Inv(w) && Enabled(w, s)
    ensures Coalesced(Next(w, s))
  {
    hide CallOk, FlightOk, Chain, Coalesced;
    if s.Decide? {
      DecideCoalesces(w, s.call);
    } else if s.Settle? {
      SettleCoalesces(w, s.flight);
    } else {
      CoalescedStays(w, Next(w, s));
    }
  }

  lemma DecideCoalesces(w: World, c: nat)
    requires Coalesced(w) && Enabled(w, Decide(c))
    ensures Coalesced(OnDecide(w, c))
  {
  }

  lemma SettleCoalesces(w: World, f: nat)
    requires Coalesced(w) && Enabled(w, Settle(f))
    ensures Coalesced(Next(w, Settle(f)))
  {
  }

  lemma FlightsStep(w: World, s: Step)
    requires Inv(w) && Enabled(w, s) && Grows(w, Next(w, s))
    ensures forall f :: 0 <= f < |Next(w, s).flights| ==> FlightOk(Next(w, s), Next(w, s).flights[f])
  {
    hide CallOk, Coalesced, Grows, FlightOk, Chain, Enabled, Next;
    var v := Next(w, s);
    CallsStay(w, v);
    forall f | 0 <= f < |v.flights|
      ensures FlightOk(v, v.flights[f])
    {
      if s.Write? {
        FlightAfterWrite(w, s, f);
      } else {
        FlightAfter(w, s, f);
      }
    }
  }

  lemma FlightAfterWrite(w: World, s: Step, f: nat)
    requires Inv(w) && Enabled(w, s) && s.Write? && f < |Next(w, s).flights|
    requires f < |w.flights| ==> FlightOk(Next(w, s), w.flights[f])
    ensures FlightOk(Next(w, s), Next(w, s).flights[f])
  {
    hide CallOk, Coalesced, OriginOk;
    assert FlightOk(w, w.flights[f]);
  }

  lemma FlightAfter(w: World, s: Step, f: nat)
    requires Inv(w) && Enabled(w, s) && !s.Write? && f < |Next(w, s).flights|
    requires f < |w.flights| ==> FlightOk(Next(w, s), w.flights[f])
    ensures FlightOk(Next(w, s), Next(w, s).flights[f])
  {
    hide CallOk, Coalesced, OriginOk, IsExpired;
    if f < |w.flights| {
      assert FlightOk(w, w.flights[f]);
    }
  }

  lemma CallsStep(w: World, s: Step)
    requires Inv(w) && Enabled(w, s) && Grows(w, Next(w, s))
    ensures forall c :: 0 <= c < |Next(w, s).calls| ==> CallOk(Next(w, s), Next(w, s).calls[c])
  {
    hide Grows, Chain;
    var v := Next(w, s);
    CallsStay(w, v);
    forall c | 0 <= c < |v.calls|
      ensures CallOk(v, v.calls[c])
    {
      if c < |w.calls| {
        assert CallOk(w, w.calls[c]) && CallOk(v, w.calls[c]);
      }
      if s.Resume? {
        assert FlightOk(w, w.flights[w.calls[s.call].state.flight]);
      }
    }
  }

  // ---------- whole runs ----------

  predicate RunOk(w: World, steps: seq<Step>)
    decreases |steps|
  {
    steps == [] || (Enabled(w, steps[0]) && RunOk(Next(w, steps[0]), steps[1..]))
  }

  function Run(w: World, steps: seq<Step>): World
    requires RunOk(w, steps)
    decreases |steps|
  {
    if steps == [] then w else Run(Next(w, steps[0]), steps[1..])
  }

  lemma GrowsOn(a: World, b: World, c: World)
    requires Grows(a, b) && Grows(b, c)
    ensures Grows(a, c)
  {
    forall f | 0 <= f < |a.flights|
      ensures FlightGrows(a.flights[f], c.flights[f])
    {
      assert FlightGrows(a.flights[f], b.flights[f]) && FlightGrows(b.flights[f], c.flights[f]);
    }
  }

  lemma {:induction false} RunKeepsInv(w: World, steps: seq<Step>)
    requires Inv(w) && RunOk(w, steps)
    ensures Inv(Run(w, steps)) && Grows(w, Run(w, steps))
    decreases |steps|
  {
    hide Inv, Grows, Next, Enabled;
    if steps == [] {
      GrowsSelf(w);
    } else {
      NextKeepsInv(w, steps[0]);
      RunKeepsInv(Next(w, steps[0]), steps[1..]);
      GrowsOn(w, Next(w, steps[0]), Run(w, steps));
    }
  }

  lemma GrowsSelf(w: World)
    ensures Grows(w, w)
  {
  }

  /**
   * Over every interleaving: each write raises the version by exactly one and stores the whole pair of one response to
   * the refresh token of the row it replaced; two refreshes that started from one version never both write.
   */
  lemma RotationsAreLinear(row: Row, steps: seq<Step>)
    requires RunOk(Initial(row), steps)
    ensures var w := Run(Initial(row), steps);
      && Inv(w)
      && w.log[0] == row
      && (forall i :: 0 <= i < |w.log| ==> w.log[i].version == row.version + i)
      && |w.origins| == |w.log| - 1
      && (forall i :: 0 <= i < |w.origins| ==>
            && w.origins[i].flight < |w.flights|
            && w.flights[w.origins[i].flight].base == i
            && w.flights[w.origins[i].flight].answer == Some(w.log[i + 1].pair))
      && (forall i, j :: 0 <= i < j < |w.origins| ==> w.origins[i].flight != w.origins[j].flight)
      && (w.row.Some? ==> w.row.value == w.log[|w.log| - 1])
  {
    InitialInv(row);
    RunKeepsInv(Initial(row), steps);
    var w := Run(Initial(row), steps);
    hide RunOk, Run, CallOk, FlightOk, Coalesced;
    forall i | 0 <= i < |w.origins|
      ensures w.origins[i].flight < |w.flights| && w.flights[w.origins[i].flight].base == i
      ensures w.flights[w.origins[i].flight].answer == Some(w.log[i + 1].pair)
    {
      assert OriginOk(w, i);
    }
  }

  lemma InitialInv(row: Row)
    ensures Inv(Initial(row))
  {
  }

  /** At most one refresh of a process is under way, and it is the one its map holds. */
  lemma OneRefreshPerProcess(row: Row, steps: seq<Step>, f: nat, g: nat)
    requires RunOk(Initial(row), steps)
    requires f < |Run(Initial(row), steps).flights| && g < |Run(Initial(row), steps).flights|
    requires var w := Run(Initial(row), steps);
      !w.flights[f].settled && !w.flights[g].settled && w.flights[f].process == w.flights[g].process
    ensures f == g
  {
    InitialInv(row);
    RunKeepsInv(Initial(row), steps);
  }

  /** No refresh that started from a row was among the first n to be stored. */
  ghost predicate NoneStoredFrom(w: World, base: nat, n: nat) {
    forall i :: 0 <= i < n && i < |w.origins| && w.origins[i].flight < |w.flights| ==>
      w.flights[w.origins[i].flight].base != base
  }

  /**
   * A refresh hands back the very row it started from if and only if its write failed without effect and no other
   * refresh from that row had been stored when it read the row again; otherwise it hands out a newer one.
   */
  lemma HandsBackBaseIff(row: Row, steps: seq<Step>, f: nat)
    requires RunOk(Initial(row), steps)
    requires var w := Run(Initial(row), steps);
      f < |w.flights| && w.flights[f].phase.Ended? && w.flights[f].phase.result.Some?
    ensures var w := Run(Initial(row), steps);
      var flight, t := w.flights[f], w.flights[f].phase.result.value;
      && flight.base <= t.at < |w.log| && t.access == w.log[t.at].pair.access
      && (t.at == flight.base <==> flight.errored && NoneStoredFrom(w, flight.base, flight.stored))
  {
    InitialInv(row);
    RunKeepsInv(Initial(row), steps);
    var w := Run(Initial(row), steps);
    hide RunOk, Run, CallOk, Coalesced;
    assert FlightOk(w, w.flights[f]);
    StoredFrom(w, w.flights[f].base, w.flights[f].stored);
  }

  /** The refreshes are stored in the order of the rows they started from. */
  lemma StoredFrom(w: World, base: nat, n: nat)
    requires Chain(w) && n <= |w.origins|
    ensures NoneStoredFrom(w, base, n) <==> n <= base
  {
    forall i | 0 <= i < n
      ensures w.origins[i].flight < |w.flights| && w.flights[w.origins[i].flight].base == i
    {
      assert OriginOk(w, i);
    }
    if base < n {
      assert w.flights[w.origins[base].flight].base == base;
    }
  }

  /**
   * Read again, without a read error, in any reachable state that still has the row: the base comes back under the
   * same condition, as the state then shows it.
   */
  lemma ReReadHandsBackIff(row: Row, steps: seq<Step>, f: nat)
    requires RunOk(Initial(row), steps)
    requires var w := Run(Initial(row), steps); Enabled(w, ReRead(f)) && w.row.Some?
    ensures var w := Run(Initial(row), steps);
      var v := Next(w, ReRead(f));
      && v.flights[f].phase.Ended? && v.flights[f].phase.result.Some?
      && (v.flights[f].phase.result.value.at == w.flights[f].base
          <==> w.flights[f].errored && NoneStoredFrom(w, w.flights[f].base, |w.origins|))
  {
    InitialInv(row);
    RunKeepsInv(Initial(row), steps);
    var w := Run(Initial(row), steps);
    hide RunOk, Run, CallOk, Coalesced;
    assert FlightOk(w, w.flights[f]);
    StoredFrom(w, w.flights[f].base, |w.origins|);
  }

  /** By a call's clock, no row written since the refresh it waited for began was expired when the call returned. */
  ghost predicate FreshFor(w: World, c: Call)
    requires c.state.Returned? && c.state.via.Some? && c.state.via.value < |w.flights| && c.state.until < |w.log|
  {
    forall i :: w.flights[c.state.via.value].base < i <= c.state.until ==> !IsExpired(w.log[i], c.now)
  }

  /**
   * A call that returns returns an access token that was the stored one at some moment between its read and its
   * return, provided that the rows written meanwhile are not expired on arrival; and then the token itself is
   * unexpired unless the refresh handed back its base.
   */
  lemma ReturnedWasStored(row: Row, steps: seq<Step>, c: nat)
    requires RunOk(Initial(row), steps)
    requires var w := Run(Initial(row), steps); c < |w.calls| && w.calls[c].state.Returned?
    ensures var w := Run(Initial(row), steps);
      var call := w.calls[c];
      var Returned(token, at, until, via) := call.state;
      && token.at <= until < |w.log| && at <= until
      && token.access == w.log[token.at].pair.access
      && (via.None? ==> token.at == at && !IsExpired(w.log[token.at], call.now))
      && (via.Some? ==>
            && via.value < |w.flights|
            && var flight := w.flights[via.value];
               && flight.base <= token.at
               && (at <= flight.base || FreshFor(w, call) ==> at <= token.at)
               && (FreshFor(w, call) && IsExpired(w.log[token.at], call.now) ==>
                     token.at == flight.base && flight.errored && NoneStoredFrom(w, flight.base, flight.stored)))
  {
    InitialInv(row);
    RunKeepsInv(Initial(row), steps);
    var w := Run(Initial(row), steps);
    hide RunOk, Coalesced;
    assert CallOk(w, w.calls[c]);
    var via := w.calls[c].state.via;
    if via.Some? {
      assert FlightOk(w, w.flights[via.value]);
      HandsBackBaseIff(row, steps, via.value);
    }
  }

  const FAILED_WRITE: seq<Step> := [Write(0, NotApplied)] + ([ReRead(0)] + ([Settle(0)] + ([Resume(0)] + [])))

  /**
   * A write that fails for a reason other than a lost race takes the same branch: the caller is handed the expired
   * token again, and the new pair, the only one the provider still accepts, is stored nowhere.
   */
  lemma FailedWriteReturnsExpired(row: Row, pair: Pair, now: int)
    requires IsExpired(row, now)
    ensures var steps := [Enter(0, now)] + ([Read(0)] + ([Decide(0)] + ([Refresh(0, Some(pair))] + FAILED_WRITE)));
      && RunOk(Initial(row), steps)
      && var w := Run(Initial(row), steps);
        w.row == Some(row) && w.log == [row]
          && w.calls == [Call(0, now, Returned(Token(row.pair.access, 0), 0, 0, Some(0)))]
  {
    hide RunOk, Run, Next, Enabled;
    Unwritten(row, pair, now);
    Prepared(row, pair, now, FAILED_WRITE);
  }

  function OneCall(row: Row, flights: seq<Flight>, now: int, state: CallState): World {
    var inflight := if flights == [] || flights[0].settled then map[] else map[0 := 0];
    World(Some(row), [row], [], inflight, flights, [Call(0, now, state)])
  }

  /** The first four steps of a call that finds an expired row, and whatever follows them. */
  lemma Prepared(row: Row, pair: Pair, now: int, rest: seq<Step>)
    requires IsExpired(row, now)
    requires RunOk(OneCall(row, [Flight(0, 0, Some(pair), Refreshed, false, 0, false)], now, Waiting(0, 0)), rest)
    ensures var steps := [Enter(0, now)] + ([Read(0)] + ([Decide(0)] + ([Refresh(0, Some(pair))] + rest)));
      && RunOk(Initial(row), steps)
      && Run(Initial(row), steps) ==
        Run(OneCall(row, [Flight(0, 0, Some(pair), Refreshed, false, 0, false)], now, Waiting(0, 0)), rest)
  {
    hide RunOk, Run;
    var w1, w2 := OneCall(row, [], now, Start), OneCall(row, [], now, HasRead(0));
    var w3 := OneCall(row, [Flight(0, 0, None, Refreshing, false, 0, false)], now, Waiting(0, 0));
    assert Next(w3, Refresh(0, Some(pair))) ==
      OneCall(row, [Flight(0, 0, Some(pair), Refreshed, false, 0, false)], now, Waiting(0, 0));
    OneStep(w3, Refresh(0, Some(pair)), rest);
    assert Next(w2, Decide(0)) == w3;
    OneStep(w2, Decide(0), [Refresh(0, Some(pair))] + rest);
    assert Next(w1, Read(0)) == w2;
    OneStep(w1, Read(0), [Decide(0)] + ([Refresh(0, Some(pair))] + rest));
    assert Next(Initial(row), Enter(0, now)) == w1;
    OneStep(Initial(row), Enter(0, now), [Read(0)] + ([Decide(0)] + ([Refresh(0, Some(pair))] + rest)));
  }

  lemma Unwritten(row: Row, pair: Pair, now: int)
    ensures var w := OneCall(row, [Flight(0, 0, Some(pair), Refreshed, false, 0, false)], now, Waiting(0, 0));
      RunOk(w, FAILED_WRITE) && Run(w, FAILED_WRITE) ==
        OneCall(row, [Flight(0, 0, Some(pair), Ended(Some(Token(row.pair.access, 0))), true, 0, true)], now,
                Returned(Token(row.pair.access, 0), 0, 0, Some(0)))
  {
    hide RunOk, Run, Next, Enabled;
    var w4 := OneCall(row, [Flight(0, 0, Some(pair), Refreshed, false, 0, false)], now, Waiting(0, 0));
    var w5 := OneCall(row, [Flight(0, 0, Some(pair), Lost, true, 0, false)], now, Waiting(0, 0));
    Resumes(row, pair, now);
    WriteFails(row, pair, now);
    OneStep(w5, ReRead(0), [Settle(0)] + ([Resume(0)] + []));
    OneStep(w4, Write(0, NotApplied), [ReRead(0)] + ([Settle(0)] + ([Resume(0)] + [])));
  }

  lemma WriteFails(row: Row, pair: Pair, now: int)
    ensures var w4 := OneCall(row, [Flight(0, 0, Some(pair), Refreshed, false, 0, false)], now, Waiting(0, 0));
      var w5 := OneCall(row, [Flight(0, 0, Some(pair), Lost, true, 0, false)], now, Waiting(0, 0));
      var ended := Ended(Some(Token(row.pair.access, 0)));
      && Enabled(w4, Write(0, NotApplied)) && Next(w4, Write(0, NotApplied)) == w5
      && Enabled(w5, ReRead(0))
      && Next(w5, ReRead(0)) == OneCall(row, [Flight(0, 0, Some(pair), ended, true, 0, false)], now, Waiting(0, 0))
  {
  }

  lemma Resumes(row: Row, pair: Pair, now: int)
    ensures var ended := Ended(Some(Token(row.pair.access, 0)));
      var w6 := OneCall(row, [Flight(0, 0, Some(pair), ended, true, 0, false)], now, Waiting(0, 0));
      var steps := [Settle(0)] + ([Resume(0)] + []);
      && RunOk(w6, steps)
      && Run(w6, steps) == OneCall(row, [Flight(0, 0, Some(pair), ended, true, 0, true)], now,
                                   Returned(Token(row.pair.access, 0), 0, 0, Some(0)))
  {
    hide RunOk, Run;
    var ended := Ended(Some(Token(row.pair.access, 0)));
    var w6 := OneCall(row, [Flight(0, 0, Some(pair), ended, true, 0, false)], now, Waiting(0, 0));
    var w7 := OneCall(row, [Flight(0, 0, Some(pair), ended, true, 0, true)], now, Waiting(0, 0));
    NoStep(Next(w7, Resume(0)));
    OneStep(w7, Resume(0), []);
    assert Next(w6, Settle(0)) == w7;
    OneStep(w6, Settle(0), [Resume(0)] + []);
  }

  lemma NoStep(w: World)
    ensures RunOk(w, []) && Run(w, []) == w
  {
  }

  lemma OneStep(w: World, s: Step, rest: seq<Step>)
    requires Enabled(w, s) && RunOk(Next(w, s), rest)
    ensures RunOk(w, [s] + rest) && Run(w, [s] + rest) == Run(Next(w, s), rest)
  {
    assert ([s] + rest)[1..] == rest;
  }
}
