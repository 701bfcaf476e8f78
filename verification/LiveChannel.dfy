/** The live page's two delivery paths: lossy broadcasts and a cursor-based poll, deduplicated by a bounded FIFO. */
module LiveChannel {
  import opened Optionals

  const APPLIED_EVENT_IDS_CAP: nat := 500
  const PAGE_LIMIT: nat := 1000

  // ---------- the client, as values ----------

  /** One dispatch of a persisted event, and where the cursor stood when it happened. */
  datatype Dispatch = Dispatch(id: nat, cursor: nat)

  datatype Client = Client(cursor: nat, fifo: seq<nat>, inFlight: bool, dispatched: seq<Dispatch>, interims: nat)

  /** The FIFO after marking an id. */
  function Remember(fifo: seq<nat>, id: nat): seq<nat> {
    if id in fifo then fifo
    else
      var longer := fifo + [id];
      if |longer| > APPLIED_EVENT_IDS_CAP then longer[|longer| - APPLIED_EVENT_IDS_CAP..] else longer
  }

  predicate IsNew(c: Client, id: nat) {
    id > c.cursor && id !in c.fifo
  }

  function DispatchEvent(c: Client, id: nat): Client {
    c.(fifo := Remember(c.fifo, id), dispatched := c.dispatched + [Dispatch(id, c.cursor)])
  }

  /** A broadcast without an event id is a transient interim; it bypasses the dedup. */
  function OnBroadcast(c: Client, eventId: Option<nat>): Client {
    match eventId
    case None => c.(interims := c.interims + 1)
    case Some(id) => if IsNew(c, id) then DispatchEvent(c, id) else c
  }

  function ApplyRow(c: Client, id: nat): Client {
    var c' := if IsNew(c, id) then DispatchEvent(c, id) else c;
    if id > c'.cursor then c'.(cursor := id) else c'
  }

  function ApplyRows(c: Client, rows: seq<nat>): Client
    decreases |rows|
  {
    if rows == [] then c else ApplyRows(ApplyRow(c, rows[0]), rows[1..])
  }

  predicate Applied(c: Client, id: nat) {
    exists i :: 0 <= i < |c.dispatched| && c.dispatched[i].id == id
  }

  /** The ids of the last dispatches, oldest first, as many as the FIFO can hold. */
  function Recent(d: seq<Dispatch>): (ids: seq<nat>)
    ensures |ids| == if |d| <= APPLIED_EVENT_IDS_CAP then |d| else APPLIED_EVENT_IDS_CAP
    ensures forall k :: 0 <= k < |ids| ==> ids[k] == d[|d| - |ids| + k].id
  {
    var n := if |d| <= APPLIED_EVENT_IDS_CAP then |d| else APPLIED_EVENT_IDS_CAP;
    seq<nat>(n, k requires 0 <= k < n => d[|d| - n + k].id)
  }

  /** Two dispatches of one id are more than a whole FIFO apart. */
  ghost predicate Spaced(d: seq<Dispatch>) {
    forall i, j :: 0 <= i < j < |d| && d[i].id == d[j].id ==> j - i > APPLIED_EVENT_IDS_CAP
  }

  ghost predicate CursorsRise(d: seq<Dispatch>, cursor: nat) {
    && (forall i :: 0 <= i < |d| ==> d[i].cursor < d[i].id && d[i].cursor <= cursor)
    && (forall i, j :: 0 <= i < j < |d| ==> d[i].cursor <= d[j].cursor)
  }

  ghost predicate ClientInv(c: Client) {
    && c.fifo == Recent(c.dispatched)
    && Spaced(c.dispatched)
    && CursorsRise(c.dispatched, c.cursor)
  }

  lemma RecentHas(d: seq<Dispatch>, i: nat)
    requires i < |d| && |d| - i <= APPLIED_EVENT_IDS_CAP
    ensures d[i].id in Recent(d)
  {
    var ids := Recent(d);
    assert ids[|ids| - (|d| - i)] == d[i].id;
  }

  lemma DispatchKeepsInv(c: Client, id: nat)
    requires ClientInv(c) && IsNew(c, id)
    ensures ClientInv(DispatchEvent(c, id))
    ensures Applied(DispatchEvent(c, id), id)
  {
    hide Recent, Spaced, CursorsRise, Remember;
    var d := Dispatch(id, c.cursor);
    RecentSnoc(c.dispatched, d);
    SpacedSnoc(c.dispatched, d);
    CursorsSnoc(c.dispatched, d);
    assert (c.dispatched + [d])[|c.dispatched|].id == id;
  }

  lemma RecentSnoc(ds: seq<Dispatch>, d: Dispatch)
    ensures d.id !in Recent(ds) ==> Recent(ds + [d]) == Remember(Recent(ds), d.id)
  {
    var longer := Recent(ds) + [d.id];
    assert forall k :: 0 <= k < |longer| ==> longer[k] == (ds + [d])[|ds| + 1 - |longer| + k].id;
  }

  lemma SpacedSnoc(ds: seq<Dispatch>, d: Dispatch)
    requires Spaced(ds) && d.id !in Recent(ds)
    ensures Spaced(ds + [d])
  {
    forall i | 0 <= i < |ds| && ds[i].id == d.id
      ensures |ds| - i > APPLIED_EVENT_IDS_CAP
    {
      if |ds| - i <= APPLIED_EVENT_IDS_CAP {
        RecentHas(ds, i);
      }
    }
  }

  lemma CursorsSnoc(ds: seq<Dispatch>, d: Dispatch)
    requires CursorsRise(ds, d.cursor) && d.cursor < d.id
    ensures CursorsRise(ds + [d], d.cursor)
  {
  }

  lemma AppliedGrows(c: Client, c': Client, id: nat)
    requires c.dispatched <= c'.dispatched && Applied(c, id)
    ensures Applied(c', id)
  {
    var i :| 0 <= i < |c.dispatched| && c.dispatched[i].id == id;
    assert c'.dispatched[i] == c.dispatched[i];
  }

  lemma FifoIsApplied(c: Client, id: nat)
    requires ClientInv(c) && id in c.fifo
    ensures Applied(c, id)
  {
    var k :| 0 <= k < |c.fifo| && c.fifo[k] == id;
    assert c.dispatched[|c.dispatched| - |c.fifo| + k].id == id;
  }

  lemma ApplyRowKeepsInv(c: Client, id: nat)
    requires ClientInv(c)
    ensures var c' := ApplyRow(c, id);
      && ClientInv(c')
      && c.dispatched <= c'.dispatched
      && c'.cursor == (if id > c.cursor then id else c.cursor)
      && c'.inFlight == c.inFlight
      && (id > c.cursor ==> Applied(c', id))
      && (forall i :: |c.dispatched| <= i < |c'.dispatched| ==> c'.dispatched[i].id == id)
  {
    hide Recent, Spaced, Remember, Applied;
    CursorMoves(c.dispatched, c.cursor, id);
    if IsNew(c, id) {
      DispatchKeepsInv(c, id);
      CursorMoves(DispatchEvent(c, id).dispatched, c.cursor, id);
      AppliedGrows(DispatchEvent(c, id), ApplyRow(c, id), id);
    } else if id > c.cursor {
      FifoIsApplied(c, id);
      AppliedGrows(c, ApplyRow(c, id), id);
    }
  }

  lemma CursorMoves(ds: seq<Dispatch>, cursor: nat, to: nat)
    requires CursorsRise(ds, cursor)
    ensures to >= cursor ==> CursorsRise(ds, to)
  {
  }

  predicate Ascending(rows: seq<nat>) {
    forall i, j :: 0 <= i < j < |rows| ==> rows[i] < rows[j]
  }

  /** A page above the cursor is applied whole, and the cursor ends on its last row. */
  lemma {:induction false} ApplyRowsReachesEnd(c: Client, rows: seq<nat>)
    requires ClientInv(c) && Ascending(rows)
    requires rows != [] ==> rows[0] > c.cursor
    ensures var c' := ApplyRows(c, rows);
      && ClientInv(c')
      && c.dispatched <= c'.dispatched
      && c'.cursor == (if rows == [] then c.cursor else rows[|rows| - 1])
      && c'.inFlight == c.inFlight
      && (forall i :: 0 <= i < |rows| ==> Applied(c', rows[i]))
      && (forall i :: |c.dispatched| <= i < |c'.dispatched| ==> c'.dispatched[i].id in rows)
    decreases |rows|
  {
    hide ClientInv, ApplyRow, Applied;
    if rows != [] {
      var mid := ApplyRow(c, rows[0]);
      var c' := ApplyRows(c, rows);
      ApplyRowKeepsInv(c, rows[0]);
      ApplyRowsReachesEnd(mid, rows[1..]);
      assert rows[|rows| - 1] == if |rows| == 1 then rows[0] else rows[1..][|rows[1..]| - 1];
      AppliedGrows(mid, c', rows[0]);
      forall i | 0 <= i < |rows|
        ensures Applied(c', rows[i])
      {
        assert i > 0 ==> rows[i] == rows[1..][i - 1];
      }
    }
  }

  // ---------- the client, as the page holds it ----------

  class AppliedEventIds {
    var ids: set<nat>
    var fifo: seq<nat>

    ghost predicate Valid()
      reads this
    {
      |fifo| <= APPLIED_EVENT_IDS_CAP && SameIds(ids, fifo)
    }

    constructor ()
      ensures Valid() && fifo == []
    {
      ids, fifo := {}, [];
    }

    method MarkEventApplied(eventId: nat)
      requires Valid()
      modifies this
      ensures Valid()
      ensures fifo == Remember(old(fifo), eventId)
    {
      assert eventId in ids <==> eventId in fifo;
      if eventId in ids {
        return;
      }
      hide SameIds;
      MarkedOnce(ids, fifo, eventId);
      ids := ids + {eventId};
      fifo := fifo + [eventId];
      ghost var longer := fifo;
      while |fifo| > APPLIED_EVENT_IDS_CAP
        invariant |fifo| <= |longer| && fifo == longer[|longer| - |fifo|..]
        invariant |longer| <= APPLIED_EVENT_IDS_CAP ==> |fifo| == |longer|
        invariant |longer| > APPLIED_EVENT_IDS_CAP ==> |fifo| >= APPLIED_EVENT_IDS_CAP
        invariant SameIds(ids, fifo)
        decreases |fifo|
      {
        FirstLeaves(ids, fifo);
        var evicted := fifo[0];
        fifo := fifo[1..];
        ids := ids - {evicted};
      }
    }
  }

  /** The set and the FIFO hold the same ids, each once. */
  ghost predicate SameIds(ids: set<nat>, fifo: seq<nat>) {
    && (forall i, j :: 0 <= i < j < |fifo| ==> fifo[i] != fifo[j])
    && (forall id :: id in ids <==> id in fifo)
  }

  lemma MarkedOnce(ids: set<nat>, fifo: seq<nat>, id: nat)
    requires SameIds(ids, fifo) && id !in ids
    ensures SameIds(ids + {id}, fifo + [id])
  {
  }

  lemma FirstLeaves(ids: set<nat>, fifo: seq<nat>)
    requires SameIds(ids, fifo) && fifo != []
    ensures SameIds(ids - {fifo[0]}, fifo[1..])
  {
    assert forall id :: id in fifo <==> id == fifo[0] || id in fifo[1..];
  }

  class MeetingChannel {
    var lastSeen: nat
    var applied: AppliedEventIds
    var fetchInFlight: bool
    /** What the page's reducer was handed, in order. */
    var dispatched: seq<Dispatch>
    var interims: nat

    ghost predicate Valid()
      reads this, applied
    {
      applied.Valid()
    }

    ghost function View(): Client
      reads this, applied
    {
      Client(lastSeen, applied.fifo, fetchInFlight, dispatched, interims)
    }

    constructor (initialLastEventId: Option<nat>)
      ensures Valid() && fresh(applied)
      ensures View() == Client(if initialLastEventId.Some? then initialLastEventId.value else 0, [], false, [], 0)
    {
      lastSeen := match initialLastEventId case Some(id) => id case None => 0;
      applied := new AppliedEventIds();
      fetchInFlight, dispatched, interims := false, [], 0;
    }

    method HandleBroadcast(eventId: Option<nat>)
      requires Valid()
      modifies this, applied
      ensures Valid() && applied == old(applied)
      ensures View() == OnBroadcast(old(View()), eventId)
    {
      match eventId
      case None =>
        interims := interims + 1;
      case Some(id) =>
        if id <= lastSeen || id in applied.ids {
          return;
        }
        applied.MarkEventApplied(id);
        dispatched := dispatched + [Dispatch(id, lastSeen)];
    }

    /** The guard and capture at the top of runFetch: None when a fetch is already in flight. */
    method BeginFetch() returns (after: Option<nat>)
      requires Valid()
      modifies this
      ensures Valid() && applied == old(applied)
      ensures View() == old(View()).(inFlight := true)
      ensures after == if old(fetchInFlight) then None else Some(old(lastSeen))
    {
      if fetchInFlight {
        return None;
      }
      fetchInFlight := true;
      return Some(lastSeen);
    }

    /** The response is replayed row by row; a failed request (None) only clears the guard. */
    method FinishFetch(response: Option<seq<nat>>)
      requires Valid()
      modifies this, applied
      ensures Valid() && applied == old(applied)
      ensures View() ==
              (if response.Some? then ApplyRows(old(View()), response.value) else old(View())).(inFlight := false)
    {
      if response.Some? {
        var rows := response.value;
        ghost var whole := ApplyRows(View(), rows);
        var i := 0;
        while i < |rows|
          invariant 0 <= i <= |rows|
          invariant Valid() && applied == old(applied)
          invariant ApplyRows(View(), rows[i..]) == whole
        {
          assert rows[i..][0] == rows[i] && rows[i..][1..] == rows[i + 1..];
          var alreadyApplied := rows[i] <= lastSeen || rows[i] in applied.ids;
          ghost var before := View();
          if !alreadyApplied {
            applied.MarkEventApplied(rows[i]);
            dispatched := dispatched + [Dispatch(rows[i], lastSeen)];
          }
          if rows[i] > lastSeen {
            lastSeen := rows[i];
          }
          assert View() == ApplyRow(before, rows[i]);
          i := i + 1;
        }
        assert rows[i..] == [];
      }
      fetchInFlight := false;
    }
  }

  // ---------- the protocol ----------

  /** Where the page's fetch is: not running, on its way to the server, or answered but not yet replayed. */
  datatype Pending = Idle | Asked(after: nat) | Served(after: nat, rows: seq<nat>)

  /**
   * The meeting's visible event log beside the page. seeded: ids the server-rendered page already showed.
   * overtaken: ids that became visible at or below the highest id a page had already been read up to.
   */
  datatype World = World(log: set<nat>, client: Client, pending: Pending, seeded: set<nat>, overtaken: set<nat>)

  datatype Step =
    | Append(id: nat)              // a row becomes visible in meeting_events
    | Deliver(id: nat)             // a broadcast of a persisted event arrives: any one, any number of times, or never
    | DeliverInterim
    | StartFetch
    | Serve(rows: seq<nat>)        // the server reads the log
    | CompleteFetch
    | FailFetch

  /** What the events route returns: the first rows above `after`, ascending, at most a page. */
  ghost predicate IsPage(rows: seq<nat>, log: set<nat>, after: nat) {
    && |rows| <= PAGE_LIMIT
    && Ascending(rows)
    && (forall i :: 0 <= i < |rows| ==> rows[i] in log && rows[i] > after)
    && (forall id :: id in log && id > after ==>
          id in rows || (|rows| == PAGE_LIMIT && id > rows[|rows| - 1]))
  }

  ghost predicate Enabled(w: World, s: Step) {
    match s
    case Append(id) => id !in w.log
    case Deliver(id) => id in w.log  // an event is persisted before it is broadcast
    case DeliverInterim => true
    case StartFetch => true
    case Serve(rows) => w.pending.Asked? && IsPage(rows, w.log, w.pending.after)
    case CompleteFetch => w.pending.Served?
    case FailFetch => !w.pending.Idle?
  }

  /** The highest id that the cursor has reached or is about to jump to. */
  function Horizon(w: World): nat {
    if w.pending.Served? && w.pending.rows != [] && w.pending.rows[|w.pending.rows| - 1] > w.client.cursor
    then w.pending.rows[|w.pending.rows| - 1]
    else w.client.cursor
  }

  function Next(w: World, s: Step): World {
    match s
    case Append(id) =>
      w.(log := w.log + {id}, overtaken := if id <= Horizon(w) then w.overtaken + {id} else w.overtaken)
    case Deliver(id) => w.(client := OnBroadcast(w.client, Some(id)))
    case DeliverInterim => w.(client := OnBroadcast(w.client, None))
    case StartFetch =>
      if w.client.inFlight then w
      else w.(client := w.client.(inFlight := true), pending := Asked(w.client.cursor))
    case Serve(rows) => if w.pending.Asked? then w.(pending := Served(w.pending.after, rows)) else w
    case CompleteFetch =>
      if w.pending.Served? then
        w.(client := ApplyRows(w.client, w.pending.rows).(inFlight := false), pending := Idle)
      else w
    case FailFetch => w.(client := w.client.(inFlight := false), pending := Idle)
  }

  function Run(w: World, steps: seq<Step>): World
    decreases |steps|
  {
    if steps == [] then w else Run(Next(w, steps[0]), steps[1..])
  }

  ghost predicate Possible(w: World, steps: seq<Step>)
    decreases |steps|
  {
    steps == [] || (Enabled(w, steps[0]) && Possible(Next(w, steps[0]), steps[1..]))
  }

  /** A page opened on a log whose rows up to `cursor` were rendered by the server. */
  function Open(log: set<nat>, cursor: nat): World {
    World(log, Client(cursor, [], false, [], 0), Idle, set id | id in log && id <= cursor, {})
  }

  ghost predicate Inv(w: World) {
    && ClientInv(w.client)
    && (forall i :: 0 <= i < |w.client.dispatched| ==> w.client.dispatched[i].id in w.log)
    && w.seeded <= w.log && w.overtaken <= w.log
    && Accounted(w)
    && PendingInv(w)
  }

  /** Nothing at or below the cursor is missing, apart from rows that were overtaken. */
  ghost predicate Accounted(w: World) {
    forall id :: id in w.log && id <= w.client.cursor ==> Applied(w.client, id) || id in w.seeded || id in w.overtaken
  }

  ghost predicate PendingInv(w: World) {
    match w.pending
    case Idle => !w.client.inFlight
    case Asked(after) => w.client.inFlight && after == w.client.cursor
    case Served(after, rows) =>
      && w.client.inFlight && after == w.client.cursor
      && Ascending(rows)
      && (forall i :: 0 <= i < |rows| ==> rows[i] in w.log && rows[i] > after)
      && (forall id :: id in w.log && after < id <= Horizon(w) ==> id in rows || id in w.overtaken)
  }

  lemma OpenInv(log: set<nat>, cursor: nat)
    ensures Inv(Open(log, cursor))
  {
  }

  lemma AppendKeepsInv(w: World, id: nat)
    requires Inv(w) && id !in w.log
    ensures Inv(Next(w, Append(id)))
  {
  }

  lemma DeliverKeepsInv(w: World, eventId: Option<nat>)
    requires Inv(w) && (eventId.Some? ==> eventId.value in w.log)
    ensures Inv(w.(client := OnBroadcast(w.client, eventId)))
  {
    var c' := OnBroadcast(w.client, eventId);
    if eventId.Some? && IsNew(w.client, eventId.value) {
      DispatchKeepsInv(w.client, eventId.value);
    }
    forall id | Applied(w.client, id)
      ensures Applied(c', id)
    {
      AppliedGrows(w.client, c', id);
    }
  }

  lemma ServeKeepsInv(w: World, rows: seq<nat>)
    requires Inv(w) && Enabled(w, Serve(rows))
    ensures Inv(Next(w, Serve(rows)))
  {
  }

  lemma LandedKeepsInv(c: Client)
    requires ClientInv(c)
    ensures ClientInv(c.(inFlight := false))
  {
  }

  lemma CompleteKeepsInv(w: World)
    requires Inv(w) && w.pending.Served?
    ensures Inv(Next(w, CompleteFetch))
    ensures w.client.dispatched <= Next(w, CompleteFetch).client.dispatched
    ensures Next(w, CompleteFetch).client.cursor == Horizon(w)
  {
    hide ClientInv, ApplyRows, Applied, Ascending;
    var rows := w.pending.rows;
    var applied := ApplyRows(w.client, rows);
    var w' := Next(w, CompleteFetch);
    ApplyRowsReachesEnd(w.client, rows);
    LandedKeepsInv(applied);
    forall i | 0 <= i < |w'.client.dispatched|
      ensures w'.client.dispatched[i].id in w.log
    {
    }
    forall id | id in w.log && id <= w'.client.cursor
      ensures Applied(w'.client, id) || id in w.seeded || id in w.overtaken
    {
      if id in rows {
        AppliedGrows(applied, w'.client, id);
      } else if Applied(w.client, id) {
        AppliedGrows(w.client, w'.client, id);
      }
    }
  }

  /** Every step keeps the invariant, never moves the cursor back, and never dispatches an id the cursor has passed. */
  lemma NextKeepsInv(w: World, s: Step)
    requires Inv(w) && Enabled(w, s)
    ensures var w' := Next(w, s);
      && Inv(w')
      && w.client.cursor <= w'.client.cursor
      && w.client.dispatched <= w'.client.dispatched
      && w.log <= w'.log
      && w.seeded == w'.seeded
      && w.overtaken <= w'.overtaken
  {
    match s
    case Append(id) => AppendKeepsInv(w, id);
    case Deliver(id) => DeliverKeepsInv(w, Some(id));
    case DeliverInterim => DeliverKeepsInv(w, None);
    case StartFetch =>
      forall id | Applied(w.client, id) ensures Applied(Next(w, s).client, id) {
        AppliedGrows(w.client, Next(w, s).client, id);
      }
    case Serve(rows) => ServeKeepsInv(w, rows);
    case CompleteFetch => CompleteKeepsInv(w);
    case FailFetch =>
      forall id | Applied(w.client, id) ensures Applied(Next(w, s).client, id) {
        AppliedGrows(w.client, Next(w, s).client, id);
      }
  }

  lemma {:induction false} RunKeepsInv(w: World, steps: seq<Step>)
    requires Inv(w) && Possible(w, steps)
    ensures var w' := Run(w, steps);
      && Inv(w')
      && w.client.cursor <= w'.client.cursor
      && w.client.dispatched <= w'.client.dispatched
      && w.log <= w'.log
      && w.seeded == w'.seeded
      && w.overtaken <= w'.overtaken
    decreases |steps|
  {
    if steps != [] {
      NextKeepsInv(w, steps[0]);
      RunKeepsInv(Next(w, steps[0]), steps[1..]);
    }
  }

  // ---------- what every run guarantees ----------

  /**
   * Whatever broadcasts were lost, reordered or repeated, and however fetches failed: a logged event at or
   * below the cursor was dispatched or seeded, unless it became visible below a point already read.
   */
  lemma NothingSkipped(log: set<nat>, cursor: nat, steps: seq<Step>, id: nat)
    requires Possible(Open(log, cursor), steps)
    ensures var w := Run(Open(log, cursor), steps);
      && cursor <= w.client.cursor
      && (id in w.log && id <= w.client.cursor && id !in w.overtaken ==>
        Applied(w.client, id) || (id in log && id <= cursor))
  {
    OpenInv(log, cursor);
    RunKeepsInv(Open(log, cursor), steps);
  }

  /** One uncontended poll that gets a short page leaves nothing visible undelivered. */
  lemma PollCatchesUp(w: World, rows: seq<nat>, id: nat)
    requires Inv(w) && w.pending.Idle?
    requires IsPage(rows, w.log, w.client.cursor) && |rows| < PAGE_LIMIT
    requires id in w.log
    ensures var steps := [StartFetch, Serve(rows), CompleteFetch];
      var w' := Run(w, steps);
      && Possible(w, steps)
      && (Applied(w'.client, id) || id in w.seeded || id in w.overtaken)
  {
    hide ClientInv, IsPage, Applied, ApplyRows, OnBroadcast, Run, Possible;
    var asked := Next(w, StartFetch);
    var served := Next(asked, Serve(rows));
    ThreeSteps(w, StartFetch, Serve(rows), CompleteFetch);
    NextKeepsInv(w, StartFetch);
    NextKeepsInv(asked, Serve(rows));
    CompleteKeepsInv(served);
    ShortPageReaches(rows, w.log, w.client.cursor, id);
  }

  lemma ShortPageReaches(rows: seq<nat>, log: set<nat>, after: nat, id: nat)
    requires IsPage(rows, log, after) && |rows| < PAGE_LIMIT && id in log
    ensures id <= if rows == [] then after else rows[|rows| - 1]
    ensures rows != [] ==> rows[|rows| - 1] > after
  {
  }

  lemma ThreeSteps(w: World, a: Step, b: Step, c: Step)
    requires Enabled(w, a) && Enabled(Next(w, a), b) && Enabled(Next(Next(w, a), b), c)
    ensures Possible(w, [a, b, c]) && Run(w, [a, b, c]) == Next(Next(Next(w, a), b), c)
  {
    hide Enabled, Next;
    var steps := [a, b, c];
    assert steps[1..] == [b, c] && steps[1..][1..] == [c] && [c][1..] == [];
    assert Possible(Next(Next(w, a), b), [c]) && Possible(Next(w, a), [b, c]);
    assert Run(Next(Next(w, a), b), [c]) == Next(Next(Next(w, a), b), c);
    assert Run(Next(w, a), [b, c]) == Run(Next(Next(w, a), b), [c]);
  }

  /** The ids appended by a run all lie above every id visible before them. */
  ghost predicate AscendingVisibility(w: World, steps: seq<Step>)
    decreases |steps|
  {
    steps == [] ||
    ( && (steps[0].Append? ==> forall id :: id in w.log || id == w.client.cursor ==> steps[0].id > id)
      && AscendingVisibility(Next(w, steps[0]), steps[1..]))
  }

  lemma {:induction false} AscendingOvertakesNothing(w: World, steps: seq<Step>)
    requires Inv(w) && Possible(w, steps) && AscendingVisibility(w, steps)
    ensures Run(w, steps).overtaken == w.overtaken
    decreases |steps|
  {
    if steps != [] {
      NextKeepsInv(w, steps[0]);
      if steps[0].Append? {
        assert Horizon(w) in w.log || Horizon(w) == w.client.cursor;
      }
      AscendingOvertakesNothing(Next(w, steps[0]), steps[1..]);
    }
  }

  /** With ids becoming visible in order, the poll alone makes delivery complete up to the cursor. */
  lemma NothingSkippedInOrder(log: set<nat>, cursor: nat, steps: seq<Step>, id: nat)
    requires Possible(Open(log, cursor), steps) && AscendingVisibility(Open(log, cursor), steps)
    ensures var w := Run(Open(log, cursor), steps);
      id in w.log && id <= w.client.cursor ==> Applied(w.client, id) || (id in log && id <= cursor)
  {
    OpenInv(log, cursor);
    AscendingOvertakesNothing(Open(log, cursor), steps);
    NothingSkipped(log, cursor, steps, id);
  }

  /** Once the cursor has passed an id, no later step dispatches it. */
  lemma PassedIsFrozen(w: World, steps: seq<Step>, id: nat)
    requires Inv(w) && Possible(w, steps) && id <= w.client.cursor
    ensures Applied(Run(w, steps).client, id) <==> Applied(w.client, id)
  {
    RunKeepsInv(w, steps);
    RunDispatchesAbove(w, steps);
    var c, c' := w.client, Run(w, steps).client;
    if Applied(c, id) {
      AppliedGrows(c, c', id);
    }
    if Applied(c', id) {
      var i :| 0 <= i < |c'.dispatched| && c'.dispatched[i].id == id;
      assert i < |c.dispatched| && c.dispatched[i] == c'.dispatched[i];
    }
  }

  lemma {:induction false} RunDispatchesAbove(w: World, steps: seq<Step>)
    requires Inv(w) && Possible(w, steps)
    ensures var c' := Run(w, steps).client;
      forall i :: |w.client.dispatched| <= i < |c'.dispatched| ==> c'.dispatched[i].id > w.client.cursor
    decreases |steps|
  {
    if steps != [] {
      var mid := Next(w, steps[0]);
      var c' := Run(w, steps).client;
      NextKeepsInv(w, steps[0]);
      RunKeepsInv(mid, steps[1..]);
      RunDispatchesAbove(mid, steps[1..]);
      if steps[0].CompleteFetch? {
        ApplyRowsReachesEnd(w.client, w.pending.rows);
      }
      forall i | |w.client.dispatched| <= i < |c'.dispatched|
        ensures c'.dispatched[i].id > w.client.cursor
      {
        if i < |mid.client.dispatched| {
          assert c'.dispatched[i] == mid.client.dispatched[i];
        }
      }
    }
  }

  lemma AppendedStaysAhead(w: World, id: nat, steps: seq<Step>)
    requires Inv(w) && id !in w.log && id > Horizon(w)
    requires Possible(Next(w, Append(id)), steps)
    ensures var w' := Run(Next(w, Append(id)), steps);
      id <= w'.client.cursor ==> Applied(w'.client, id)
  {
    var v := Next(w, Append(id));
    AppendKeepsInv(w, id);
    RunKeepsInv(v, steps);
    NotOvertakenLater(v, steps, id);
  }

  lemma {:induction false} NotOvertakenLater(w: World, steps: seq<Step>, id: nat)
    requires Inv(w) && Possible(w, steps) && id in w.log
    ensures id in Run(w, steps).overtaken <==> id in w.overtaken
    decreases |steps|
  {
    if steps != [] {
      NextKeepsInv(w, steps[0]);
      NotOvertakenLater(Next(w, steps[0]), steps[1..], id);
    }
  }

  /** The steps that lose an event visible only now, although the page already read goes past it. */
  function Overtake(w: World): seq<Step> {
    if w.pending.Served? then [CompleteFetch] else []
  }

  lemma OvertakenIsLost(w: World, id: nat)
    requires Inv(w) && id !in w.log && id <= Horizon(w)
    ensures var v := Next(w, Append(id));
      && Possible(v, Overtake(w))
      && id in Run(v, Overtake(w)).log && id <= Run(v, Overtake(w)).client.cursor
      && !Applied(Run(v, Overtake(w)).client, id)
  {
    var v := Next(w, Append(id));
    AppendKeepsInv(w, id);
    assert !Applied(v.client, id);
    if w.pending.Served? {
      CompleteKeepsInv(v);
      ApplyRowsReachesEnd(v.client, v.pending.rows);
      var steps := [CompleteFetch];
      var w' := Next(v, CompleteFetch);
      assert steps[0] == CompleteFetch && steps[1..] == [];
      assert Run(v, steps) == Run(w', []);
      if Applied(w'.client, id) {
        var i :| 0 <= i < |w'.client.dispatched| && w'.client.dispatched[i].id == id;
        assert i < |v.client.dispatched| ==> v.client.dispatched[i].id == id;
      }
    }
  }

  /**
   * Delivery of an event is guaranteed if and only if it becomes visible above the horizon. The poll's
   * promise that nothing before the cursor can have been missed rests on that ordering alone.
   */
  lemma DeliveredIffVisibleInTime(w: World, id: nat)
    requires Inv(w) && id !in w.log
    ensures (forall steps: seq<Step> :: Possible(Next(w, Append(id)), steps) ==>
               id <= Run(Next(w, Append(id)), steps).client.cursor ==>
                 Applied(Run(Next(w, Append(id)), steps).client, id))
            <==> id > Horizon(w)
  {
    if id > Horizon(w) {
      forall steps: seq<Step> | Possible(Next(w, Append(id)), steps)
        ensures id <= Run(Next(w, Append(id)), steps).client.cursor ==>
          Applied(Run(Next(w, Append(id)), steps).client, id)
      {
        AppendedStaysAhead(w, id, steps);
      }
    } else {
      OvertakenIsLost(w, id);
      var steps := Overtake(w);
      assert Possible(Next(w, Append(id)), steps);
    }
  }

  // ---------- duplicates ----------

  /** How many interims have arrived in a run. */
  function Interims(steps: seq<Step>): nat {
    if steps == [] then 0 else Interims(steps[1..]) + if steps[0].DeliverInterim? then 1 else 0
  }

  /** Every interim that arrives is shown, whatever else happens, and none of them is taken for an event. */
  lemma {:induction false} InterimsAreShown(w: World, steps: seq<Step>)
    requires Possible(w, steps)
    ensures Run(w, steps).client.interims == w.client.interims + Interims(steps)
    ensures Possible(w, [DeliverInterim])
      && Next(w, DeliverInterim) == w.(client := w.client.(interims := w.client.interims + 1))
    decreases |steps|
  {
    if steps != [] {
      InterimsAreShown(Next(w, steps[0]), steps[1..]);
      if steps[0].CompleteFetch? {
        RowsAreNoInterims(w.client, w.pending.rows);
      }
    }
    assert [DeliverInterim][1..] == [];
    assert Possible(Next(w, DeliverInterim), []);
  }

  lemma {:induction false} RowsAreNoInterims(c: Client, rows: seq<nat>)
    ensures ApplyRows(c, rows).interims == c.interims
    decreases |rows|
  {
    if rows != [] {
      RowsAreNoInterims(ApplyRow(c, rows[0]), rows[1..]);
    }
  }

  /** A delivery is dispatched unless the cursor has passed it or it is among the last 500 dispatches. */
  lemma DispatchedAgainExactly(w: World, id: nat)
    requires Inv(w) && Enabled(w, Deliver(id))
    ensures var d := w.client.dispatched;
      Next(w, Deliver(id)).client.dispatched != d <==>
      id > w.client.cursor && (forall i :: 0 <= i < |d| && |d| - i <= APPLIED_EVENT_IDS_CAP ==> d[i].id != id)
  {
    var c := w.client;
    var d := c.dispatched;
    if id in c.fifo {
      var k :| 0 <= k < |c.fifo| && c.fifo[k] == id;
      assert d[|d| - |c.fifo| + k].id == id;
    } else {
      forall i | 0 <= i < |d| && |d| - i <= APPLIED_EVENT_IDS_CAP
        ensures d[i].id != id
      {
        RecentHas(d, i);
      }
    }
    assert IsNew(c, id) ==> |DispatchEvent(c, id).dispatched| == |d| + 1;
  }

  function IdSet(d: seq<Dispatch>): (ids: set<nat>)
    ensures forall id :: id in ids <==> exists i :: 0 <= i < |d| && d[i].id == id
  {
    set i | 0 <= i < |d| :: d[i].id
  }

  lemma {:induction false} DistinctIdsCount(d: seq<Dispatch>)
    requires forall i, j :: 0 <= i < j < |d| ==> d[i].id != d[j].id
    ensures |IdSet(d)| == |d|
    decreases |d|
  {
    if d == [] {
      assert IdSet(d) == {};
    } else {
      var front := d[..|d| - 1];
      DistinctIdsCount(front);
      assert IdSet(d) == IdSet(front) + {d[|d| - 1].id};
    }
  }

  /**
   * An event is dispatched twice only if 500 other, pairwise different events were dispatched in between,
   * all while the cursor was still below it.
   */
  lemma DuplicateNeeds500Others(log: set<nat>, cursor: nat, steps: seq<Step>, i: nat, j: nat)
    requires Possible(Open(log, cursor), steps)
    requires var d := Run(Open(log, cursor), steps).client.dispatched;
      i < j < |d| && d[i].id == d[j].id
    ensures var d := Run(Open(log, cursor), steps).client.dispatched;
      && j - i > APPLIED_EVENT_IDS_CAP
      && (var between := d[i + 1..i + 1 + APPLIED_EVENT_IDS_CAP];
          |IdSet(between)| == APPLIED_EVENT_IDS_CAP && d[i].id !in IdSet(between))
      && (forall k :: i <= k <= j ==> d[k].cursor < d[i].id)
  {
    OpenInv(log, cursor);
    RunKeepsInv(Open(log, cursor), steps);
    var d := Run(Open(log, cursor), steps).client.dispatched;
    var between := d[i + 1..i + 1 + APPLIED_EVENT_IDS_CAP];
    forall a, b | 0 <= a < b < |between|
      ensures between[a].id != between[b].id
    {
      assert d[i + 1 + a].id != d[i + 1 + b].id;
    }
    DistinctIdsCount(between);
    forall a | 0 <= a < |between|
      ensures between[a].id != d[i].id
    {
      assert d[i + 1 + a].id != d[i].id;
    }
  }

  // ---------- the server can always answer ----------

  lemma {:induction false} SmallestIn(ids: set<nat>) returns (least: nat)
    requires ids != {}
    ensures least in ids && forall id :: id in ids ==> least <= id
    decreases |ids|
  {
    least :| least in ids;
    var others := ids - {least};
    if others != {} {
      var other := SmallestIn(others);
      assert forall id :: id in ids ==> id == least || id in others;
      least := if other < least then other else least;
    } else {
      assert ids == {least};
    }
  }

  /** A page exists for every log and cursor, so Serve is always possible once a fetch has been asked. */
  lemma {:induction false} PageExists(log: set<nat>, after: nat, limit: nat) returns (rows: seq<nat>)
    requires limit <= PAGE_LIMIT
    ensures |rows| <= limit && Ascending(rows)
    ensures forall i :: 0 <= i < |rows| ==> rows[i] in log && rows[i] > after
    ensures forall id :: id in log && id > after ==>
              id in rows || (|rows| == limit && (limit > 0 ==> id > rows[limit - 1]))
    decreases limit
  {
    var ahead := set id | id in log && id > after;
    if limit == 0 || ahead == {} {
      assert forall id :: id in log && id > after ==> id in ahead;
      return [];
    }
    var first := SmallestIn(ahead);
    var more := PageExists(log, first, limit - 1);
    rows := [first] + more;
    assert forall id :: id in log && id > after ==> id in ahead;
  }
}
