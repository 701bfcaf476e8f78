/** The promise chain that the calls of all syntheses of a meeting go through; each piece of work may fail. */
module SinkQueue {
  import opened Optionals
  import opened Synthesis

  /** The status of the synthesis's row. */
  datatype Status = Running | Finished | Retracted

  /** What the client sees of one row write. */
  datatype Reply = Acknowledged | Errored | Raised

  /**
   * How the outside world treats one piece of queued work: whether encryption succeeds, whether the row write takes
   * effect and what is reported of it, and whether the event row is stored. An acknowledged write took effect; a write
   * that reported an error or raised may have taken effect all the same.
   */
  datatype World = World(encrypts: bool, applied: bool, reply: Reply, stores: bool)

  predicate Honest(o: World) {
    o.reply.Acknowledged? ==> o.applied
  }

  /** The row, if it was ever inserted, and the events stored, as positions in the queue. */
  datatype Db = Db(row: Option<Status>, events: seq<nat>)

  const EMPTY: Db := Db(None, [])

  /** An insert creates the row; an update of a missing row changes nothing and is no error. */
  function WriteRow(row: Option<Status>, call: SinkCall, o: World): Option<Status> {
    if !o.applied then row
    else
      match call
      case Start(_) => if row.None? then Some(Running) else row
      case Refuse(_) => if row.None? then Some(Retracted) else row
      case Done(_, _, _) => if row.Some? && o.encrypts then Some(Finished) else row
      case Retract(_) => if row.Some? then Some(Retracted) else row
      case _ => row
  }

  /** Which failures keep a call's event from being stored. */
  predicate Announces(call: SinkCall, o: World) {
    o.stores &&
    match call
    case Start(_) => o.reply.Acknowledged?
    case Delta(_) => true
    case Done(_, _, _) => o.encrypts && o.reply.Acknowledged?
    case Refuse(_) => !o.reply.Raised?
    case Retract(_) => !o.reply.Raised?
    case Miss(_) => false
  }

  function Perform(db: Db, at: nat, call: SinkCall, o: World): Db {
    Db(WriteRow(db.row, call, o), if Announces(call, o) then db.events + [at] else db.events)
  }

  function PerformAll(calls: seq<SinkCall>, outcomes: seq<World>): Db
    requires |calls| <= |outcomes|
  {
    if calls == [] then EMPTY
    else
      var n := |calls| - 1;
      Perform(PerformAll(calls[..n], outcomes), n, calls[n], outcomes[n])
  }

  /** The calls that go through the queue: a miss is reported directly. */
  function Queued(calls: seq<SinkCall>): seq<SinkCall> {
    if calls == [] then []
    else
      var rest := Queued(calls[..|calls| - 1]);
      var last := calls[|calls| - 1];
      if last.Miss? then rest else rest + [last]
  }

  // ---------- the chain of a whole meeting ----------

  /** A piece of work, and the synthesis it is for. */
  datatype Work = Work(synthesis: nat, call: SinkCall)

  /** The meeting's rows, and the events stored, as positions in the chain. */
  datatype Meeting = Meeting(rows: map<nat, Status>, events: seq<nat>)

  function RowOf(rows: map<nat, Status>, synthesis: nat): Option<Status> {
    if synthesis in rows then Some(rows[synthesis]) else None
  }

  function SetRow(rows: map<nat, Status>, synthesis: nat, row: Option<Status>): map<nat, Status> {
    if row.Some? then rows[synthesis := row.value] else rows
  }

  function PerformOne(m: Meeting, at: nat, w: Work, o: World): Meeting {
    Meeting(SetRow(m.rows, w.synthesis, WriteRow(RowOf(m.rows, w.synthesis), w.call, o)),
            if Announces(w.call, o) then m.events + [at] else m.events)
  }

  function PerformChain(chain: seq<Work>, outcomes: seq<World>): (m: Meeting)
    requires |chain| <= |outcomes|
    ensures forall e :: e in m.events ==> e < |chain|
    ensures forall i, j :: 0 <= i < j < |m.events| ==> m.events[i] < m.events[j]
  {
    if chain == [] then Meeting(map[], [])
    else
      var n := |chain| - 1;
      var before := PerformChain(chain[..n], outcomes);
      assert forall i :: 0 <= i < |before.events| ==> before.events[i] in before.events;
      PerformOne(before, n, chain[n], outcomes[n])
  }

  /** The chain itself: work runs strictly in the order it was enqueued, whatever else is enqueued meanwhile. */
  class PersistQueue {
    var waiting: seq<Work>
    var done: nat
    var rows: map<nat, Status>
    var events: seq<nat>
    ghost var enqueued: seq<Work>
    ghost var outcomes: seq<World>

    ghost predicate Valid()
      reads this
    {
      && done == |outcomes| <= |enqueued|
      && waiting == enqueued[done..]
      && Meeting(rows, events) == PerformChain(enqueued[..done], outcomes)
    }

    constructor ()
      ensures Valid() && enqueued == [] && outcomes == []
    {
      waiting, done, rows, events := [], 0, map[], [];
      enqueued, outcomes := [], [];
    }

    method Enqueue(work: Work)
      requires Valid()
      modifies this
      ensures Valid()
      ensures enqueued == (if work.call.Miss? then old(enqueued) else old(enqueued) + [work])
      ensures outcomes == old(outcomes) && rows == old(rows) && events == old(events)
    {
      if work.call.Miss? {
        return;
      }
      waiting := waiting + [work];
      enqueued := enqueued + [work];
      assert enqueued[..done] == old(enqueued)[..done];
    }

    /** What one piece of work does to its row and to the stored events. */
    method Execute(work: Work, o: World)
      modifies this`rows, this`events
      ensures Meeting(rows, events) == PerformOne(Meeting(old(rows), old(events)), done, work, o)
    {
      var id := work.synthesis;
      match work.call {
        case Start(_) =>
          if o.applied && id !in rows {
            rows := rows[id := Running];
          }
          if o.reply.Acknowledged? && o.stores {
            events := events + [done];
          }
        case Delta(_) =>
          if o.stores {
            events := events + [done];
          }
        case Done(_, _, _) =>
          if o.encrypts {
            if o.applied && id in rows {
              rows := rows[id := Finished];
            }
            if o.reply.Acknowledged? && o.stores {
              events := events + [done];
            }
          }
        case Refuse(_) =>
          if o.applied && id !in rows {
            rows := rows[id := Retracted];
          }
          if !o.reply.Raised? && o.stores {
            events := events + [done];
          }
        case Retract(_) =>
          if o.applied && id in rows {
            rows := rows[id := Retracted];
          }
          if !o.reply.Raised? && o.stores {
            events := events + [done];
          }
        case Miss(_) =>
      }
    }

    /** One link of the chain runs to its end; nothing it does can stop the next. */
    method RunNext(o: World)
      requires Valid() && waiting != []
      modifies this
      ensures Valid()
      ensures enqueued == old(enqueued) && outcomes == old(outcomes) + [o]
    {
      hide PerformChain, PerformOne;
      var work := waiting[0];
      ghost var before := enqueued[..done];
      ChainSnoc(before, work, outcomes, o);
      assert enqueued[..done + 1] == before + [work];
      waiting := waiting[1..];
      Execute(work, o);
      done := done + 1;
      outcomes := outcomes + [o];
    }
  }

  lemma {:induction false} ChainIgnoresLater(chain: seq<Work>, outcomes: seq<World>, longer: seq<World>)
    requires |chain| <= |outcomes| && outcomes <= longer
    ensures PerformChain(chain, outcomes) == PerformChain(chain, longer)
  {
    hide PerformOne;
    if chain != [] {
      ChainIgnoresLater(chain[..|chain| - 1], outcomes, longer);
    }
  }

  lemma ChainSnoc(chain: seq<Work>, work: Work, outcomes: seq<World>, o: World)
    requires |chain| == |outcomes|
    ensures PerformChain(chain + [work], outcomes + [o]) == PerformOne(PerformChain(chain, outcomes), |chain|, work, o)
  {
    ChainIgnoresLater(chain, outcomes, outcomes + [o]);
    hide PerformOne;
    assert (chain + [work])[..|chain|] == chain;
  }

  // ---------- syntheses do not interfere ----------

  /** One synthesis's own calls, and what became of each. */
  function Own(chain: seq<Work>, synthesis: nat): seq<SinkCall> {
    if chain == [] then []
    else
      var last := chain[|chain| - 1];
      Own(chain[..|chain| - 1], synthesis) + if last.synthesis == synthesis then [last.call] else []
  }

  function OwnOutcomes(chain: seq<Work>, outcomes: seq<World>, synthesis: nat): (own: seq<World>)
    requires |chain| <= |outcomes|
    ensures |own| == |Own(chain, synthesis)|
  {
    if chain == [] then []
    else
      var n := |chain| - 1;
      OwnOutcomes(chain[..n], outcomes, synthesis) + if chain[n].synthesis == synthesis then [outcomes[n]] else []
  }

  /** The stored events of one synthesis, as positions among its own calls. */
  function OwnEvents(chain: seq<Work>, events: seq<nat>, synthesis: nat): seq<nat>
    requires forall e :: e in events ==> e < |chain|
  {
    if events == [] then []
    else
      var n := |events| - 1;
      assert events[n] in events && forall e :: e in events[..n] ==> e in events;
      OwnEvents(chain, events[..n], synthesis)
      + if chain[events[n]].synthesis == synthesis then [|Own(chain[..events[n]], synthesis)|] else []
  }

  lemma OwnEventsSnoc(chain: seq<Work>, events: seq<nat>, e: nat, synthesis: nat)
    requires (forall x :: x in events ==> x < |chain|) && e < |chain|
    ensures OwnEvents(chain, events + [e], synthesis) ==
            OwnEvents(chain, events, synthesis)
            + if chain[e].synthesis == synthesis then [|Own(chain[..e], synthesis)|] else []
  {
    hide Own;
    assert (events + [e])[..|events|] == events;
  }

  lemma {:induction false} OwnEventsStay(chain: seq<Work>, work: Work, events: seq<nat>, synthesis: nat)
    requires forall e :: e in events ==> e < |chain|
    ensures OwnEvents(chain + [work], events, synthesis) == OwnEvents(chain, events, synthesis)
  {
    hide Own;
    if events != [] {
      var n := |events| - 1;
      assert events[n] in events && forall e :: e in events[..n] ==> e in events;
      OwnEventsStay(chain, work, events[..n], synthesis);
      assert (chain + [work])[..events[n]] == chain[..events[n]];
    }
  }

  lemma OwnSnoc(chain: seq<Work>, outcomes: seq<World>, synthesis: nat)
    requires chain != [] && |chain| <= |outcomes|
    ensures var n := |chain| - 1;
      var own := chain[n].synthesis == synthesis;
      && Own(chain, synthesis) == Own(chain[..n], synthesis) + (if own then [chain[n].call] else [])
      && OwnOutcomes(chain, outcomes, synthesis) ==
         OwnOutcomes(chain[..n], outcomes, synthesis) + (if own then [outcomes[n]] else [])
  {
  }

  /**
   * One chain serves all syntheses of a meeting, in any interleaving: each one's row, and its stored events in order,
   * are those of a chain that holds its own calls alone.
   */
  lemma {:induction false} SynthesesDoNotInterfere(chain: seq<Work>, outcomes: seq<World>, synthesis: nat)
    requires |chain| <= |outcomes|
    ensures var m := PerformChain(chain, outcomes);
      Db(RowOf(m.rows, synthesis), OwnEvents(chain, m.events, synthesis)) ==
      PerformAll(Own(chain, synthesis), OwnOutcomes(chain, outcomes, synthesis))
  {
    hide PerformAll, Own, OwnOutcomes, OwnEvents, WriteRow, Announces;
    if chain == [] {
      NothingOwned(outcomes, synthesis);
    } else {
      var n := |chain| - 1;
      var front, work, o := chain[..n], chain[n], outcomes[n];
      var before := PerformChain(front, outcomes);
      assert front + [work] == chain && chain[..n] == front;
      SynthesesDoNotInterfere(front, outcomes, synthesis);
      OwnSnoc(chain, outcomes, synthesis);
      OwnEventsStay(front, work, before.events, synthesis);
      OwnEventsSnoc(chain, before.events, n, synthesis);
      assert PerformChain(chain, outcomes) == PerformOne(before, n, work, o);
      if work.synthesis == synthesis {
        PerformSnoc(Own(front, synthesis), work.call, OwnOutcomes(front, outcomes, synthesis), o);
        RowStays(RowOf(before.rows, synthesis), work.call, o);
      } else {
        assert Own(front, synthesis) + [] == Own(front, synthesis);
        assert OwnOutcomes(front, outcomes, synthesis) + [] == OwnOutcomes(front, outcomes, synthesis);
        assert OwnEvents(chain, before.events, synthesis) + [] == OwnEvents(chain, before.events, synthesis);
      }
    }
  }

  lemma NothingOwned(outcomes: seq<World>, synthesis: nat)
    ensures Own([], synthesis) == [] && OwnOutcomes([], outcomes, synthesis) == []
    ensures OwnEvents([], [], synthesis) == [] && PerformAll([], []) == EMPTY
  {
  }

  /** A row is never taken away. */
  lemma RowStays(row: Option<Status>, call: SinkCall, o: World)
    ensures row.Some? ==> WriteRow(row, call, o).Some?
  {
  }

  lemma {:induction false} PerformIgnoresLater(calls: seq<SinkCall>, outcomes: seq<World>, longer: seq<World>)
    requires |calls| <= |outcomes| && outcomes <= longer
    ensures PerformAll(calls, outcomes) == PerformAll(calls, longer)
  {
    if calls != [] {
      PerformIgnoresLater(calls[..|calls| - 1], outcomes, longer);
    }
  }

  lemma PerformSnoc(calls: seq<SinkCall>, call: SinkCall, outcomes: seq<World>, o: World)
    requires |calls| == |outcomes|
    ensures PerformAll(calls + [call], outcomes + [o]) == Perform(PerformAll(calls, outcomes), |calls|, call, o)
  {
    PerformIgnoresLater(calls, outcomes, outcomes + [o]);
    hide Perform;
    assert (calls + [call])[..|calls|] == calls;
  }

  // ---------- failures do not spread ----------

  /** The stored events are positions in call order, and each depends on its own work's outcome alone. */
  lemma {:induction false} FailuresAreIsolated(calls: seq<SinkCall>, outcomes: seq<World>)
    requires |calls| <= |outcomes|
    ensures var events := PerformAll(calls, outcomes).events;
      && (forall i, j :: 0 <= i < j < |events| ==> events[i] < events[j])
      && (forall k :: k in events <==> 0 <= k < |calls| && Announces(calls[k], outcomes[k]))
  {
    if calls != [] {
      var n := |calls| - 1;
      var before := PerformAll(calls[..n], outcomes).events;
      FailuresAreIsolated(calls[..n], outcomes);
      assert forall k :: 0 <= k < n ==> calls[..n][k] == calls[k];
      var events := PerformAll(calls, outcomes).events;
      forall k
        ensures k in events <==> 0 <= k < |calls| && Announces(calls[k], outcomes[k])
      {
        assert k in events <==> k in before || (k == n && Announces(calls[n], outcomes[n]));
      }
      forall i, j | 0 <= i < j < |events|
        ensures events[i] < events[j]
      {
        assert events[i] in before;
      }
    }
  }

  /** When the event of each kind of call is stored: what else may fail, and what may not. */
  lemma StoredIff(calls: seq<SinkCall>, outcomes: seq<World>, k: nat)
    requires k < |calls| <= |outcomes|
    ensures var o := outcomes[k];
      var stored := k in PerformAll(calls, outcomes).events;
      && (calls[k].Start? ==> (stored <==> o.stores && o.reply == Acknowledged))
      && (calls[k].Delta? ==> (stored <==> o.stores))
      && (calls[k].Done? ==> (stored <==> o.stores && o.encrypts && o.reply == Acknowledged))
      && (calls[k].Refuse? || calls[k].Retract? ==> (stored <==> o.stores && o.reply != Raised))
      && !(calls[k].Miss? && stored)
  {
    FailuresAreIsolated(calls, outcomes);
    hide PerformAll;
  }

  /** Nothing goes wrong. */
  predicate AllWell(outcomes: seq<World>) {
    forall i :: 0 <= i < |outcomes| ==> outcomes[i] == World(true, true, Acknowledged, true)
  }

  lemma {:induction false} AllStored(calls: seq<SinkCall>, outcomes: seq<World>)
    requires |calls| <= |outcomes| && AllWell(outcomes)
    requires forall i :: 0 <= i < |calls| ==> !calls[i].Miss?
    ensures PerformAll(calls, outcomes).events == seq(|calls|, i => i)
  {
    if calls != [] {
      var n := |calls| - 1;
      AllStored(calls[..n], outcomes);
      assert Announces(calls[n], outcomes[n]);
    }
  }

  // ---------- the row over one synthesis ----------

  predicate Settled(row: Option<Status>) {
    row == Some(Finished) || row == Some(Retracted)
  }

  /** The queue of a whole trace of the given outcome: what a settled row looks like, and where it is settled. */
  ghost predicate QueueShape(q: seq<SinkCall>, o: Outcome) {
    match o
    case Silent => q == []
    case Refused(r) => q == [Refuse(r)]
    case LeftOpen => q != [] && q[0].Start? && forall i :: 1 <= i < |q| ==> q[i].Delta?
    case Answered => |q| >= 2 && q[0].Start? && q[|q| - 1].Done? && forall i :: 1 <= i < |q| - 1 ==> q[i].Delta?
    case Withdrawn(r) => |q| >= 2 && q[0].Start? && q[|q| - 1] == Retract(r)
                         && forall i :: 1 <= i < |q| - 1 ==> q[i].Delta?
  }

  lemma {:induction false} QueuedKeepsAll(calls: seq<SinkCall>)
    requires forall i :: 0 <= i < |calls| ==> !calls[i].Miss?
    ensures Queued(calls) == calls
  {
    if calls != [] {
      QueuedKeepsAll(calls[..|calls| - 1]);
    }
  }

  lemma QueueOfTrace(chunks: seq<Chunk>, ending: Ending, g: Grounding)
    ensures QueueShape(Queued(Trace(chunks, ending, g)),
      OutcomeOf(Streamed(FRESH, chunks, g), IsDone(chunks), ending, g))
  {
    EveryTraceHasShape(chunks, ending, g);
    hide Trace, OutcomeOf, Streamed, IsDone;
    QueueOfShape(Trace(chunks, ending, g), OutcomeOf(Streamed(FRESH, chunks, g), IsDone(chunks), ending, g), g);
  }

  lemma QueueOfShape(calls: seq<SinkCall>, o: Outcome, g: Grounding)
    requires HasShape(calls, o, g)
    ensures QueueShape(Queued(calls), o)
  {
    hide Queued;
    if o.Withdrawn? || o.Refused? {
      var front := calls[..|calls| - 1];
      assert front + [calls[|calls| - 1]] == calls;
      QueuedKeepsAll(front);
      QueuedDropsMiss(front, calls[|calls| - 1]);
      if o.Withdrawn? {
        assert front[..|front| - 1] == calls[..|calls| - 2];
      }
    } else {
      QueuedKeepsAll(calls);
    }
  }

  lemma QueuedDropsMiss(calls: seq<SinkCall>, miss: SinkCall)
    requires miss.Miss?
    ensures Queued(calls + [miss]) == Queued(calls)
  {
    assert (calls + [miss])[..|calls|] == calls;
  }

  /** The row after k pieces of work: set by the first, untouched by the deltas, settled by the last. */
  lemma {:induction false} RowHistory(q: seq<SinkCall>, o: Outcome, outcomes: seq<World>, k: nat)
    requires QueueShape(q, o) && k <= |q| <= |outcomes|
    ensures var row := PerformAll(q[..k], outcomes).row;
      if k == 0 then row == None
      else if o.Refused? then row == if outcomes[0].applied then Some(Retracted) else None
      else if !outcomes[0].applied then row == None
      else if k < |q| || o.LeftOpen? then row == Some(Running)
      else
        var last := outcomes[|q| - 1];
        row == if !last.applied then Some(Running)
               else if o.Withdrawn? then Some(Retracted)
               else if last.encrypts then Some(Finished) else Some(Running)
  {
    if k > 0 {
      RowHistory(q, o, outcomes, k - 1);
      assert q[..k][..k - 1] == q[..k - 1];
    }
  }

  /** Whatever fails, a row that is done or retracted stays so for the rest of the synthesis. */
  lemma SettledRowsStay(chunks: seq<Chunk>, ending: Ending, g: Grounding, outcomes: seq<World>, j: nat, k: nat)
    requires var q := Queued(Trace(chunks, ending, g)); j <= k <= |q| <= |outcomes|
    requires var q := Queued(Trace(chunks, ending, g)); Settled(PerformAll(q[..j], outcomes).row)
    ensures var q := Queued(Trace(chunks, ending, g));
      PerformAll(q[..k], outcomes).row == PerformAll(q[..j], outcomes).row
  {
    hide *;
    QueueOfTrace(chunks, ending, g);
    SettledRowsStayIn(Queued(Trace(chunks, ending, g)),
                      OutcomeOf(Streamed(FRESH, chunks, g), IsDone(chunks), ending, g), outcomes, j, k);
  }

  lemma SettledRowsStayIn(q: seq<SinkCall>, o: Outcome, outcomes: seq<World>, j: nat, k: nat)
    requires QueueShape(q, o) && j <= k <= |q| <= |outcomes|
    requires Settled(PerformAll(q[..j], outcomes).row)
    ensures PerformAll(q[..k], outcomes).row == PerformAll(q[..j], outcomes).row
  {
    RowHistory(q, o, outcomes, j);
    RowHistory(q, o, outcomes, k);
    hide PerformAll;
  }

  /**
   * A done event is never stored over an unfinished row: if the row exists it is finished. It can exist without any
   * row at all, exactly when the insert made by synthesisStart took no effect, because updating no row is no error.
   */
  lemma AnnouncedDoneIsStored(chunks: seq<Chunk>, ending: Ending, g: Grounding, outcomes: seq<World>, k: nat)
    requires var q := Queued(Trace(chunks, ending, g)); |q| <= |outcomes| && k < |q| && q[k].Done?
    requires forall i :: 0 <= i < |outcomes| ==> Honest(outcomes[i])
    requires k in PerformAll(Queued(Trace(chunks, ending, g)), outcomes).events
    ensures var db := PerformAll(Queued(Trace(chunks, ending, g)), outcomes);
      && (db.row.Some? ==> db.row == Some(Finished))
      && (db.row.None? <==> !outcomes[0].applied)
  {
    hide *;
    var q := Queued(Trace(chunks, ending, g));
    QueueOfTrace(chunks, ending, g);
    AnnouncedDoneIn(q, OutcomeOf(Streamed(FRESH, chunks, g), IsDone(chunks), ending, g), outcomes, k);
  }

  lemma AnnouncedDoneIn(q: seq<SinkCall>, o: Outcome, outcomes: seq<World>, k: nat)
    requires QueueShape(q, o) && |q| <= |outcomes| && k < |q| && q[k].Done?
    requires forall i :: 0 <= i < |outcomes| ==> Honest(outcomes[i])
    requires k in PerformAll(q, outcomes).events
    ensures var db := PerformAll(q, outcomes);
      && (db.row.Some? ==> db.row == Some(Finished))
      && (db.row.None? <==> !outcomes[0].applied)
  {
    hide PerformAll;
    assert q[..|q|] == q;
    FailuresAreIsolated(q, outcomes);
    RowHistory(q, o, outcomes, |q|);
  }

  /**
   * The page learns how a synthesis ended exactly when the outcome of its last call allows it: a retraction or a
   * refusal unless its row write raised, even after a failed update; an answer only when it was encrypted and
   * acknowledged.
   */
  lemma EndIsStoredIff(chunks: seq<Chunk>, ending: Ending, g: Grounding, outcomes: seq<World>)
    requires var q := Queued(Trace(chunks, ending, g)); q != [] && |q| <= |outcomes|
    ensures var q := Queued(Trace(chunks, ending, g));
      var n := |q| - 1;
      var stored := n in PerformAll(q, outcomes).events;
      match OutcomeOf(Streamed(FRESH, chunks, g), IsDone(chunks), ending, g)
      case Withdrawn(r) => q[n] == Retract(r) && (stored <==> outcomes[n].stores && outcomes[n].reply != Raised)
      case Refused(r) => q[n] == Refuse(r) && (stored <==> outcomes[n].stores && outcomes[n].reply != Raised)
      case Answered =>
        q[n].Done? && (stored <==> outcomes[n].stores && outcomes[n].encrypts && outcomes[n].reply == Acknowledged)
      case _ => !q[n].Done? && !q[n].Retract? && !q[n].Refuse?
  {
    hide PerformAll, Queued, Trace, OutcomeOf, Streamed, IsDone;
    QueueOfTrace(chunks, ending, g);
    StoredIff(Queued(Trace(chunks, ending, g)), outcomes, |Queued(Trace(chunks, ending, g))| - 1);
  }

  /** When nothing goes wrong, every event of the synthesis is stored, in order, and its row is left as it ended. */
  lemma AllWellIsStored(chunks: seq<Chunk>, ending: Ending, g: Grounding, outcomes: seq<World>)
    requires AllWell(outcomes) && |Queued(Trace(chunks, ending, g))| <= |outcomes|
    ensures var q := Queued(Trace(chunks, ending, g));
      var db := PerformAll(q, outcomes);
      && db.events == seq(|q|, i => i)
      && db.row == match OutcomeOf(Streamed(FRESH, chunks, g), IsDone(chunks), ending, g)
                   case Silent => None
                   case LeftOpen => Some(Running)
                   case Answered => Some(Finished)
                   case Withdrawn(_) => Some(Retracted)
                   case Refused(_) => Some(Retracted)
  {
    hide PerformAll, Queued, Trace, OutcomeOf, Streamed, IsDone, AllWell;
    QueueOfTrace(chunks, ending, g);
    var q := Queued(Trace(chunks, ending, g));
    var o := OutcomeOf(Streamed(FRESH, chunks, g), IsDone(chunks), ending, g);
    WellInShape(q, o, outcomes);
  }

  lemma WellInShape(q: seq<SinkCall>, o: Outcome, outcomes: seq<World>)
    requires QueueShape(q, o) && AllWell(outcomes) && |q| <= |outcomes|
    ensures PerformAll(q, outcomes).events == seq(|q|, i => i)
    ensures PerformAll(q, outcomes).row ==
            if o.Silent? then None
            else if o.LeftOpen? then Some(Running)
            else if o.Answered? then Some(Finished)
            else Some(Retracted)
  {
    RowHistory(q, o, outcomes, |q|);
    AllStored(q, outcomes);
    hide PerformAll;
    assert q[..|q|] == q;
  }

  /**
   * The failing case itself, for every answered run: the start insert is rejected, every other write succeeds, and the
   * answer is announced although no row holds it.
   */
  lemma AnnouncedWithoutRow(chunks: seq<Chunk>, ending: Ending, g: Grounding)
    requires OutcomeOf(Streamed(FRESH, chunks, g), IsDone(chunks), ending, g) == Answered
    ensures var q := Queued(Trace(chunks, ending, g));
      exists outcomes: seq<World> ::
        && |outcomes| == |q| && (forall i :: 0 <= i < |outcomes| ==> Honest(outcomes[i]))
        && |q| - 1 in PerformAll(q, outcomes).events && PerformAll(q, outcomes).row.None?
  {
    hide *;
    QueueOfTrace(chunks, ending, g);
    AnnouncedWithoutRowIn(Queued(Trace(chunks, ending, g)));
  }

  lemma AnnouncedWithoutRowIn(q: seq<SinkCall>)
    requires QueueShape(q, Answered)
    ensures exists outcomes: seq<World> ::
              && |outcomes| == |q| && (forall i :: 0 <= i < |outcomes| ==> Honest(outcomes[i]))
              && |q| - 1 in PerformAll(q, outcomes).events && PerformAll(q, outcomes).row.None?
  {
    hide PerformAll;
    var fine := World(true, true, Acknowledged, true);
    var rejected := World(true, false, Errored, true);
    var outcomes := seq(|q|, i => if i == 0 then rejected else fine);
    FailuresAreIsolated(q, outcomes);
    RowHistory(q, Answered, outcomes, |q|);
    assert q[..|q|] == q;
  }
}
