/** The embedding cache: least recently used entries leave first, and an entry past its deadline is not served. */
module EmbedCaches {
  import opened Optionals
  import opened SetSizes

  type Vector = seq<real>

  datatype Entry = Entry(key: string, vector: Vector, expiresAt: int)

  // ---------- an insertion-ordered map, oldest entry first ----------

  predicate DistinctKeys(entries: seq<Entry>) {
    forall i, j :: 0 <= i < j < |entries| ==> entries[i].key != entries[j].key
  }

  predicate Holds(entries: seq<Entry>, key: string) {
    exists i :: 0 <= i < |entries| && entries[i].key == key
  }

  function Find(entries: seq<Entry>, key: string): (r: Option<Entry>)
    ensures r.None? <==> !Holds(entries, key)
    ensures r.Some? ==> r.value in entries && r.value.key == key
  {
    if entries == [] then None
    else if entries[0].key == key then Some(entries[0])
    else
      assert Holds(entries[1..], key) ==> Holds(entries, key) by {
        if Holds(entries[1..], key) {
          var i :| 0 <= i < |entries| - 1 && entries[1..][i].key == key;
          assert entries[i + 1].key == key;
        }
      }
      assert forall i :: 0 < i < |entries| ==> entries[i] == entries[1..][i - 1];
      Find(entries[1..], key)
  }

  function Without(entries: seq<Entry>, key: string): (r: seq<Entry>)
    ensures forall e :: e in r <==> e in entries && e.key != key
    ensures |r| <= |entries| && (Holds(entries, key) ==> |r| < |entries|)
    ensures DistinctKeys(entries) ==> DistinctKeys(r)
  {
    if entries == [] then []
    else
      var tail := Without(entries[1..], key);
      assert forall e :: e in entries <==> e == entries[0] || e in entries[1..];
      assert forall i :: 0 < i < |entries| ==> entries[i] == entries[1..][i - 1];
      if entries[0].key == key then tail else [entries[0]] + tail
  }

  function Keep(cap: nat): nat {
    if cap == 0 then 0 else cap - 1
  }

  /** What is left once the oldest entries made room for one more. */
  function Evicted(entries: seq<Entry>, cap: nat): seq<Entry> {
    if |entries| <= Keep(cap) then entries else entries[|entries| - Keep(cap)..]
  }

  function AfterGet(entries: seq<Entry>, key: string, now: int): seq<Entry> {
    match Find(entries, key)
    case None => entries
    case Some(e) => if e.expiresAt < now then Without(entries, key) else Without(entries, key) + [e]
  }

  function Answer(entries: seq<Entry>, key: string, now: int): Option<Vector> {
    match Find(entries, key)
    case None => None
    case Some(e) => if e.expiresAt < now then None else Some(e.vector)
  }

  function AfterSet(entries: seq<Entry>, e: Entry, cap: nat): seq<Entry> {
    Evicted(Without(entries, e.key), cap) + [e]
  }

  ghost predicate Fits(entries: seq<Entry>, cap: nat) {
    DistinctKeys(entries) && |entries| <= if cap == 0 then 1 else cap
  }

  class EmbedCache {
    const maxEntries: nat
    const ttlMs: int
    /** The clock: an arbitrary reading for each time it is read. */
    const clock: nat -> int
    var readings: nat
    var entries: seq<Entry>

    ghost predicate Valid() reads this {
      Fits(entries, maxEntries)
    }

    constructor (maxEntries: nat, ttlMs: int, clock: nat -> int)
      ensures Valid() && entries == [] && this.maxEntries == maxEntries && this.ttlMs == ttlMs && this.clock == clock
    {
      this.maxEntries := maxEntries;
      this.ttlMs := ttlMs;
      this.clock := clock;
      readings, entries := 0, [];
    }

    method Get(key: string) returns (r: Option<Vector>)
      requires Valid()
      modifies this
      ensures Valid()
      ensures r == Answer(old(entries), key, clock(old(readings)))
      ensures entries == AfterGet(old(entries), key, clock(old(readings)))
      ensures readings == old(readings) + if Holds(old(entries), key) then 1 else 0
    {
      r := None;
      var entry := Find(entries, key);
      if entry.Some? {
        var now := clock(readings);
        readings := readings + 1;
        GetFits(entries, key, now, maxEntries);
        entries := Without(entries, key);
        if entry.value.expiresAt >= now {
          entries := entries + [entry.value];
          r := Some(entry.value.vector);
        }
      }
    }

    method Set(key: string, vector: Vector)
      requires Valid()
      modifies this
      ensures Valid()
      ensures entries == AfterSet(old(entries), Entry(key, vector, clock(old(readings)) + ttlMs), maxEntries)
      ensures readings == old(readings) + 1
    {
      NothingToRemove(entries, key);
      if Holds(entries, key) {
        entries := Without(entries, key);
      }
      ghost var before := entries;
      ghost var n: nat := 0;
      while |entries| >= maxEntries
        invariant n <= |before| && entries == before[n..]
        invariant n == 0 || |before| - n >= maxEntries - 1
        invariant readings == old(readings)
        decreases |entries|
      {
        if |entries| == 0 {
          break;
        }
        entries := entries[1..];
        n := n + 1;
      }
      assert entries == Evicted(before, maxEntries);
      var e := Entry(key, vector, clock(readings) + ttlMs);
      readings := readings + 1;
      entries := entries + [e];
      SetFits(old(entries), e, maxEntries);
    }
  }

  lemma {:induction false} NothingToRemove(entries: seq<Entry>, key: string)
    ensures !Holds(entries, key) ==> Without(entries, key) == entries
  {
    if entries != [] {
      NothingToRemove(entries[1..], key);
      assert forall i :: 0 < i < |entries| ==> entries[i] == entries[1..][i - 1];
    }
  }

  lemma GetFits(entries: seq<Entry>, key: string, now: int, cap: nat)
    requires Fits(entries, cap)
    ensures Fits(AfterGet(entries, key, now), cap)
  {
  }

  lemma SetFits(entries: seq<Entry>, e: Entry, cap: nat)
    requires Fits(entries, cap)
    ensures Fits(AfterSet(entries, e, cap), cap)
  {
    hide DistinctKeys, Evicted, Find;
    var rest := Without(entries, e.key);
    EvictedKeeps(rest, cap);
    SnocDistinct(Evicted(rest, cap), e);
  }

  lemma EvictedKeeps(entries: seq<Entry>, cap: nat)
    requires DistinctKeys(entries)
    ensures DistinctKeys(Evicted(entries, cap)) && |Evicted(entries, cap)| <= Keep(cap)
    ensures forall e :: e in Evicted(entries, cap) ==> e in entries
  {
  }

  lemma SnocDistinct(entries: seq<Entry>, e: Entry)
    requires DistinctKeys(entries) && forall x :: x in entries ==> x.key != e.key
    ensures DistinctKeys(entries + [e])
  {
  }

  // ---------- whole histories ----------

  datatype Op = Get(key: string, now: int) | Set(key: string, vector: Vector, now: int)

  function Apply(entries: seq<Entry>, op: Op, cap: nat, ttl: int): seq<Entry> {
    match op
    case Get(key, now) => AfterGet(entries, key, now)
    case Set(key, vector, now) => AfterSet(entries, Entry(key, vector, now + ttl), cap)
  }

  function Run(ops: seq<Op>, cap: nat, ttl: int): seq<Entry> {
    if ops == [] then [] else Apply(Run(ops[..|ops| - 1], cap, ttl), ops[|ops| - 1], cap, ttl)
  }

  /** The other keys used since a key was last used. */
  function Since(ops: seq<Op>, key: string): set<string> {
    if ops == [] || ops[|ops| - 1].key == key then {}
    else Since(ops[..|ops| - 1], key) + {ops[|ops| - 1].key}
  }

  /** What an unbounded table would hold for a key: the last vector set, with its deadline. */
  function LastSet(ops: seq<Op>, key: string, ttl: int): Option<Entry> {
    if ops == [] then None
    else
      var op := ops[|ops| - 1];
      if op.Set? && op.key == key then Some(Entry(key, op.vector, op.now + ttl))
      else LastSet(ops[..|ops| - 1], key, ttl)
  }

  /** Younger entries are all keys used since. */
  ghost predicate Ordered(entries: seq<Entry>, ops: seq<Op>) {
    forall i, j :: 0 <= i < j < |entries| ==> entries[j].key in Since(ops, entries[i].key)
  }

  lemma OrderedHead(e: Entry, tail: seq<Entry>, ops: seq<Op>)
    requires Ordered(tail, ops) && forall x :: x in tail ==> x.key in Since(ops, e.key)
    ensures Ordered([e] + tail, ops)
  {
    hide Since;
  }

  lemma OrderedTail(entries: seq<Entry>, ops: seq<Op>)
    requires Ordered(entries, ops) && entries != []
    ensures Ordered(entries[1..], ops) && forall x :: x in entries[1..] ==> x.key in Since(ops, entries[0].key)
  {
    hide Since;
  }

  lemma {:induction false} WithoutOrdered(entries: seq<Entry>, key: string, ops: seq<Op>)
    requires Ordered(entries, ops)
    ensures Ordered(Without(entries, key), ops)
  {
    hide Since, Ordered;
    if entries != [] {
      OrderedTail(entries, ops);
      WithoutOrdered(entries[1..], key, ops);
      OrderedHead(entries[0], Without(entries[1..], key), ops);
    }
  }

  lemma SinceStep(ops: seq<Op>, op: Op, key: string)
    ensures Since(ops + [op], key) == if op.key == key then {} else Since(ops, key) + {op.key}
  {
    assert (ops + [op])[..|ops|] == ops;
  }

  lemma RunStep(ops: seq<Op>, op: Op, cap: nat, ttl: int)
    ensures Run(ops + [op], cap, ttl) == Apply(Run(ops, cap, ttl), op, cap, ttl)
    ensures LastSet(ops + [op], op.key, ttl) ==
      if op.Set? then Some(Entry(op.key, op.vector, op.now + ttl)) else LastSet(ops, op.key, ttl)
    ensures forall key :: key != op.key ==> LastSet(ops + [op], key, ttl) == LastSet(ops, key, ttl)
  {
    hide Apply;
    assert (ops + [op])[..|ops|] == ops;
  }

  /** A front without the used key, followed at most by the used key itself, stays in order of last use. */
  lemma UseKeepsOrder(front: seq<Entry>, last: seq<Entry>, ops: seq<Op>, op: Op)
    requires Ordered(front, ops) && (forall e :: e in front ==> e.key != op.key)
    requires |last| <= 1 && (last != [] ==> last[0].key == op.key)
    ensures Ordered(front + last, ops + [op])
  {
    hide Since;
    var all := front + last;
    forall i, j | 0 <= i < j < |all|
      ensures all[j].key in Since(ops + [op], all[i].key)
    {
      assert all[i] in front;
      SinceStep(ops, op, all[i].key);
    }
  }

  ghost predicate BoundedView(entries: seq<Entry>, ops: seq<Op>, cap: nat, ttl: int) {
    && Fits(entries, cap) && Ordered(entries, ops)
    && (forall e :: e in entries ==> LastSet(ops, e.key, ttl) == Some(e))
  }

  /**
   * In every history the cache is a bounded view of the table of last-set values: it holds a key only with the last
   * vector set for it and that one's deadline, each key once, at most `cap` keys (one when the cap is 0), by last use.
   */
  lemma {:induction false} HistoryInvariant(ops: seq<Op>, cap: nat, ttl: int)
    ensures BoundedView(Run(ops, cap, ttl), ops, cap, ttl)
  {
    hide Since, LastSet, Ordered, Fits, Apply;
    if ops == [] {
      EmptyHistory(cap, ttl);
    } else {
      var before, op := ops[..|ops| - 1], ops[|ops| - 1];
      assert before + [op] == ops;
      HistoryInvariant(before, cap, ttl);
      RunStep(before, op, cap, ttl);
      StepInvariant(Run(before, cap, ttl), before, op, cap, ttl);
    }
  }

  lemma EmptyHistory(cap: nat, ttl: int)
    ensures Fits([], cap) && Ordered([], []) && Run([], cap, ttl) == []
  {
  }

  lemma StepInvariant(entries: seq<Entry>, ops: seq<Op>, op: Op, cap: nat, ttl: int)
    requires BoundedView(entries, ops, cap, ttl)
    ensures BoundedView(Apply(entries, op, cap, ttl), ops + [op], cap, ttl)
  {
    hide BoundedView, AfterGet, AfterSet;
    if op.Get? {
      GetInvariant(entries, ops, op, cap, ttl);
    } else {
      SetInvariant(entries, ops, op, cap, ttl);
    }
  }

  lemma GetInvariant(entries: seq<Entry>, ops: seq<Op>, op: Op, cap: nat, ttl: int)
    requires BoundedView(entries, ops, cap, ttl) && op.Get?
    ensures BoundedView(AfterGet(entries, op.key, op.now), ops + [op], cap, ttl)
  {
    hide Since, LastSet, Ordered, Fits;
    RunStep(ops, op, cap, ttl);
    var rest := Without(entries, op.key);
    WithoutOrdered(entries, op.key, ops);
    GetFits(entries, op.key, op.now, cap);
    NothingToRemove(entries, op.key);
    var found := Find(entries, op.key);
    var last := if found.Some? && found.value.expiresAt >= op.now then [found.value] else [];
    UseKeepsOrder(rest, last, ops, op);
    assert rest + [] == rest;
  }

  lemma SetInvariant(entries: seq<Entry>, ops: seq<Op>, op: Op, cap: nat, ttl: int)
    requires BoundedView(entries, ops, cap, ttl) && op.Set?
    ensures BoundedView(AfterSet(entries, Entry(op.key, op.vector, op.now + ttl), cap), ops + [op], cap, ttl)
  {
    hide Since, LastSet, Ordered, Fits, Evicted, Find;
    RunStep(ops, op, cap, ttl);
    var rest, e := Without(entries, op.key), Entry(op.key, op.vector, op.now + ttl);
    WithoutOrdered(entries, op.key, ops);
    SetFits(entries, e, cap);
    SuffixOrdered(rest, cap, ops);
    UseKeepsOrder(Evicted(rest, cap), [e], ops, op);
  }

  lemma SuffixOrdered(entries: seq<Entry>, cap: nat, ops: seq<Op>)
    requires Ordered(entries, ops)
    ensures Ordered(Evicted(entries, cap), ops)
    ensures forall e :: e in Evicted(entries, cap) ==> e in entries
  {
    hide Since;
  }

  /** The cache never serves anything but the last vector set for the key, and never later than its deadline. */
  lemma ServedIsLastSet(ops: seq<Op>, key: string, now: int, cap: nat, ttl: int)
    ensures var r := Answer(Run(ops, cap, ttl), key, now);
      var last := LastSet(ops, key, ttl);
      && (r.Some? ==> last.Some? && last.value.vector == r.value && last.value.expiresAt >= now)
      && (r.None? ==> !Holds(Run(ops, cap, ttl), key) || (last.Some? && last.value.expiresAt < now))
  {
    hide Run, LastSet;
    HistoryInvariant(ops, cap, ttl);
  }

  lemma MemberIsHeld(entries: seq<Entry>, e: Entry)
    ensures e in entries ==> Holds(entries, e.key)
  {
  }

  lemma GetKeeps(entries: seq<Entry>, e: Entry, key: string, now: int)
    requires e in entries && Find(entries, e.key) == Some(e)
    ensures key != e.key || e.expiresAt >= now ==> e in AfterGet(entries, key, now)
  {
  }

  lemma SetKeeps(entries: seq<Entry>, i: nat, e: Entry, cap: nat)
    requires i < |Without(entries, e.key)|
    ensures |Without(entries, e.key)| - i <= Keep(cap) ==> Without(entries, e.key)[i] in AfterSet(entries, e, cap)
  {
    hide Evicted;
    YoungIsKept(Without(entries, e.key), i, cap);
  }

  lemma YoungIsKept(entries: seq<Entry>, i: nat, cap: nat)
    requires i < |entries|
    ensures |entries| - i <= Keep(cap) ==> entries[i] in Evicted(entries, cap)
  {
    var kept := Evicted(entries, cap);
    if |entries| - i <= Keep(cap) {
      assert entries[i] == kept[i - (|entries| - |kept|)];
    }
  }

  lemma SetHolds(entries: seq<Entry>, e: Entry, cap: nat)
    ensures Holds(AfterSet(entries, e, cap), e.key)
  {
    hide Evicted;
    MemberIsHeld(AfterSet(entries, e, cap), e);
  }

  /**
   * A key leaves the cache in two ways only: it was asked for after its deadline, or another key was set when `cap`
   * other keys had been used since the leaving key was last used.
   */
  lemma WhyAKeyLeaves(ops: seq<Op>, op: Op, key: string, cap: nat, ttl: int)
    requires Holds(Run(ops, cap, ttl), key) && !Holds(Run(ops + [op], cap, ttl), key)
    ensures
      || (op.Get? && op.key == key && LastSet(ops, key, ttl).Some? && LastSet(ops, key, ttl).value.expiresAt < op.now)
      || (op.Set? && op.key != key && |Since(ops + [op], key)| >= cap)
  {
    hide Run, LastSet, Since, Ordered, AfterGet, AfterSet, Evicted, Holds;
    HistoryInvariant(ops, cap, ttl);
    RunStep(ops, op, cap, ttl);
    var entries, next := Run(ops, cap, ttl), Run(ops + [op], cap, ttl);
    var found := Find(entries, key).value;
    MemberIsHeld(next, found);
    match op {
      case Get(k, now) => GetKeeps(entries, found, k, now);
      case Set(k, vector, now) => WhySetEvicts(entries, found, ops, op, cap, ttl);
    }
  }

  lemma WhySetEvicts(entries: seq<Entry>, found: Entry, ops: seq<Op>, op: Op, cap: nat, ttl: int)
    requires op.Set? && found in entries && DistinctKeys(entries) && Ordered(entries, ops)
    requires !Holds(AfterSet(entries, Entry(op.key, op.vector, op.now + ttl), cap), found.key)
    ensures op.key != found.key && |Since(ops + [op], found.key)| >= cap
  {
    hide LastSet, Since, Ordered, AfterSet, Evicted, Holds, DistinctKeys;
    var e := Entry(op.key, op.vector, op.now + ttl);
    SetHolds(entries, e, cap);
    var rest := Without(entries, op.key);
    WithoutOrdered(entries, op.key, ops);
    var i :| 0 <= i < |rest| && rest[i] == found;
    SetKeeps(entries, i, e, cap);
    MemberIsHeld(AfterSet(entries, e, cap), found);
    SinceStep(ops, op, found.key);
    CountYounger(rest, i, ops, op.key, found.key);
  }

  lemma CountYounger(rest: seq<Entry>, i: nat, ops: seq<Op>, k: string, key: string)
    requires i < |rest| && rest[i].key == key && k != key
    requires DistinctKeys(rest) && Ordered(rest, ops)
    requires forall e :: e in rest ==> e.key != k
    ensures |Since(ops, key) + {k}| >= |rest| - i
  {
    hide Since;
    var young := set j | i + 1 <= j < |rest| :: rest[j].key;
    YoungSize(rest, i + 1);
    assert k !in young;
    assert young <= Since(ops, key);
    assert young + {k} <= Since(ops, key) + {k};
    SubsetSize(young + {k}, Since(ops, key) + {k});
  }

  lemma {:induction false} YoungSize(rest: seq<Entry>, from: nat)
    requires from <= |rest| && DistinctKeys(rest)
    ensures |set j | from <= j < |rest| :: rest[j].key| == |rest| - from
    decreases |rest| - from
  {
    if from < |rest| {
      YoungSize(rest, from + 1);
      var tail := set j | from + 1 <= j < |rest| :: rest[j].key;
      assert (set j | from <= j < |rest| :: rest[j].key) == tail + {rest[from].key};
      assert rest[from].key !in tail;
    }
  }

  // ---------- keys in use stay ----------

  /** The keys are all held, and nothing younger is held than they are. */
  ghost predicate Young(entries: seq<Entry>, keys: set<string>) {
    && (forall k :: k in keys ==> Holds(entries, k))
    && Suffix(entries, keys)
  }

  ghost predicate Suffix(entries: seq<Entry>, keys: set<string>) {
    forall i, j :: 0 <= i < j < |entries| && entries[i].key in keys ==> entries[j].key in keys
  }

  lemma {:induction false} WithoutSuffix(entries: seq<Entry>, key: string, keys: set<string>)
    requires Suffix(entries, keys)
    ensures Suffix(Without(entries, key), keys)
  {
    hide Suffix, DistinctKeys, Holds;
    if entries != [] {
      SuffixTail(entries, keys);
      WithoutSuffix(entries[1..], key, keys);
      SuffixCons(entries[0], Without(entries[1..], key), keys);
    }
  }

  lemma SuffixTail(entries: seq<Entry>, keys: set<string>)
    requires Suffix(entries, keys) && entries != []
    ensures Suffix(entries[1..], keys)
    ensures entries[0].key in keys ==> forall e :: e in entries[1..] ==> e.key in keys
  {
  }

  lemma SuffixCons(e: Entry, tail: seq<Entry>, keys: set<string>)
    requires Suffix(tail, keys) && (e.key in keys ==> forall x :: x in tail ==> x.key in keys)
    ensures Suffix([e] + tail, keys)
  {
  }

  lemma WithoutHolds(entries: seq<Entry>, key: string)
    ensures forall k :: Holds(Without(entries, key), k) <==> k != key && Holds(entries, k)
  {
    var rest := Without(entries, key);
    forall k | k != key && Holds(entries, k)
      ensures Holds(rest, k)
    {
      var i :| 0 <= i < |entries| && entries[i].key == k;
      assert entries[i] in rest;
    }
    forall k | Holds(rest, k)
      ensures k != key && Holds(entries, k)
    {
      var i :| 0 <= i < |rest| && rest[i].key == k;
      assert rest[i] in entries;
    }
  }

  lemma SnocYoung(front: seq<Entry>, e: Entry, keys: set<string>)
    requires Suffix(front, keys) && forall k :: k in keys && k != e.key ==> Holds(front, k)
    requires forall x :: x in front ==> x.key != e.key
    ensures Young(front + [e], keys + {e.key})
  {
    var all := front + [e];
    assert all[|front|] == e;
    forall k | k in keys + {e.key}
      ensures Holds(all, k)
    {
      if k != e.key {
        var i :| 0 <= i < |front| && front[i].key == k;
        assert all[i].key == k;
      }
    }
    forall i, j | 0 <= i < j < |all| && all[i].key in keys + {e.key}
      ensures all[j].key in keys + {e.key}
    {
      assert front[i] in front;
    }
  }

  /** A key found becomes the youngest; and while no deadline passes, what is held stays held. */
  lemma GetKeepsYoung(entries: seq<Entry>, key: string, now: int, keys: set<string>)
    requires Young(entries, keys) && forall e :: e in entries ==> e.expiresAt >= now
    ensures Young(AfterGet(entries, key, now), if Holds(entries, key) then keys + {key} else keys)
    ensures forall k :: Holds(AfterGet(entries, key, now), k) <==> Holds(entries, k)
    ensures forall e :: e in AfterGet(entries, key, now) ==> e in entries
    ensures Answer(entries, key, now).Some? <==> Holds(entries, key)
  {
    hide Holds, Young;
    if Holds(entries, key) {
      var e := Find(entries, key).value;
      WithoutSuffix(entries, key, keys) by {
        YoungIs(entries, keys);
      }
      WithoutHolds(entries, key);
      YoungIs(entries, keys);
      SnocYoung(Without(entries, key), e, keys);
      HoldsSnoc(Without(entries, key), e);
    }
  }

  lemma YoungIs(entries: seq<Entry>, keys: set<string>)
    ensures Young(entries, keys) <==> Suffix(entries, keys) && forall k :: k in keys ==> Holds(entries, k)
  {
  }

  lemma HoldsSnoc(front: seq<Entry>, e: Entry)
    ensures forall k :: Holds(front + [e], k) <==> k == e.key || Holds(front, k)
  {
    var all := front + [e];
    assert all[|front|] == e;
    forall k | Holds(front, k)
      ensures Holds(all, k)
    {
      var i :| 0 <= i < |front| && front[i].key == k;
      assert all[i].key == k;
    }
  }

  /** Young keys fill no more places than they are. */
  lemma YoungAreFew(entries: seq<Entry>, i: nat, keys: set<string>)
    requires DistinctKeys(entries) && Suffix(entries, keys) && i < |entries| && entries[i].key in keys
    ensures |entries| - i <= |keys|
  {
    YoungSize(entries, i);
    var young := set j | i <= j < |entries| :: entries[j].key;
    assert young <= keys;
    SubsetSize(young, keys);
  }

  /** Setting a key evicts none of the young ones while together they are no more than fit. */
  lemma SetKeepsYoung(entries: seq<Entry>, e: Entry, cap: nat, keys: set<string>)
    requires DistinctKeys(entries) && Young(entries, keys) && |keys + {e.key}| <= cap
    ensures Young(AfterSet(entries, e, cap), keys + {e.key})
    ensures forall x :: x in AfterSet(entries, e, cap) ==> x in entries || x == e
  {
    hide Holds, DistinctKeys, Young, Evicted, Suffix;
    YoungIs(entries, keys);
    var rest := Without(entries, e.key);
    var kept := Evicted(rest, cap);
    var others := keys - {e.key};
    assert keys + {e.key} == others + {e.key};
    WithoutSuffix(entries, e.key, keys);
    WithoutHolds(entries, e.key);
    EvictedKeeps(rest, cap);
    OthersOnly(rest, e.key, keys);
    forall k | k in others
      ensures Holds(kept, k)
    {
      KeptIfYoung(rest, k, others, cap);
    }
    EvictedSuffix(rest, others, cap);
    SnocYoung(kept, e, others);
  }

  lemma OthersOnly(rest: seq<Entry>, key: string, keys: set<string>)
    requires Suffix(rest, keys) && forall x :: x in rest ==> x.key != key
    ensures Suffix(rest, keys - {key})
  {
    forall i, j | 0 <= i < j < |rest| && rest[i].key in keys - {key}
      ensures rest[j].key in keys - {key}
    {
      assert rest[j] in rest;
    }
  }

  lemma KeptIfYoung(rest: seq<Entry>, k: string, keys: set<string>, cap: nat)
    requires DistinctKeys(rest) && Suffix(rest, keys) && Holds(rest, k) && k in keys && |keys| < cap
    ensures Holds(Evicted(rest, cap), k)
  {
    hide Evicted;
    var i :| 0 <= i < |rest| && rest[i].key == k;
    YoungAreFew(rest, i, keys);
    YoungIsKept(rest, i, cap);
  }

  lemma EvictedSuffix(rest: seq<Entry>, keys: set<string>, cap: nat)
    requires Suffix(rest, keys)
    ensures Suffix(Evicted(rest, cap), keys)
  {
  }
}
