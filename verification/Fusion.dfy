/** Reciprocal rank fusion of several vector lists and full-text lists, with a relevance floor and a final cut. */
module Fusion {
  import opened Optionals

  datatype VectorRow = VectorRow(id: string, distance: real)

  /** A vector list with its own relevance floor. */
  datatype VectorList = VectorList(hits: seq<VectorRow>, floor: real)

  /** What the fusion accumulates for one chunk. */
  datatype Entry = Entry(distance: Option<real>, ftsMatched: bool, score: real, passesFloor: bool)

  datatype HybridHit = HybridHit(id: string, distance: Option<real>, score: real, ftsMatched: bool)

  const FRESH: Entry := Entry(None, false, 0.0, false)

  // ---------- what each accumulated field means ----------

  function Ids(hits: seq<VectorRow>): (ids: seq<string>)
    ensures |ids| == |hits|
    ensures forall i :: 0 <= i < |ids| ==> ids[i] == hits[i].id
  {
    seq(|hits|, i requires 0 <= i < |hits| => hits[i].id)
  }

  /** Every ranked list, vector lists first, as chunk ids. */
  function Lists(vectors: seq<VectorList>, fts: seq<seq<string>>): (lists: seq<seq<string>>)
    ensures |lists| == |vectors| + |fts|
    ensures forall i :: 0 <= i < |vectors| ==> lists[i] == Ids(vectors[i].hits)
    ensures forall i :: 0 <= i < |fts| ==> lists[|vectors| + i] == fts[i]
  {
    seq(|vectors|, i requires 0 <= i < |vectors| => Ids(vectors[i].hits)) + fts
  }

  /** The contribution of the n-th place of a list, counting from 1. */
  function Place(k: nat, n: nat): real
    requires n > 0
  {
    1.0 / (k + n) as real
  }

  function ListScore(ids: seq<string>, id: string, k: nat): real {
    if ids == [] then 0.0
    else
      var n := |ids|;
      ListScore(ids[..n - 1], id, k) + if ids[n - 1] == id then Place(k, n) else 0.0
  }

  function Score(lists: seq<seq<string>>, id: string, k: nat): real {
    if lists == [] then 0.0
    else Score(lists[..|lists| - 1], id, k) + ListScore(lists[|lists| - 1], id, k)
  }

  function Nearer(a: Option<real>, b: Option<real>): Option<real> {
    if a.None? then b else if b.None? then a else if a.value <= b.value then a else b
  }

  function ListDistance(hits: seq<VectorRow>, id: string): Option<real> {
    if hits == [] then None
    else
      var last := hits[|hits| - 1];
      Nearer(ListDistance(hits[..|hits| - 1], id), if last.id == id then Some(last.distance) else None)
  }

  function Distance(vectors: seq<VectorList>, id: string): Option<real> {
    if vectors == [] then None
    else Nearer(Distance(vectors[..|vectors| - 1], id), ListDistance(vectors[|vectors| - 1].hits, id))
  }

  predicate ListPasses(list: VectorList, id: string) {
    exists i :: 0 <= i < |list.hits| && list.hits[i].id == id && list.hits[i].distance <= list.floor
  }

  predicate Passes(vectors: seq<VectorList>, id: string) {
    exists v :: 0 <= v < |vectors| && ListPasses(vectors[v], id)
  }

  predicate Matched(fts: seq<seq<string>>, id: string) {
    exists f :: 0 <= f < |fts| && id in fts[f]
  }

  function EntryOf(vectors: seq<VectorList>, fts: seq<seq<string>>, id: string, k: nat): Entry {
    Entry(Distance(vectors, id), Matched(fts, id), Score(Lists(vectors, fts), id, k), Passes(vectors, id))
  }

  function AddNew(order: seq<string>, id: string): seq<string> {
    if id in order then order else order + [id]
  }

  function AddAll(order: seq<string>, ids: seq<string>): seq<string> {
    if ids == [] then order else AddNew(AddAll(order, ids[..|ids| - 1]), ids[|ids| - 1])
  }

  /** The chunk ids in order of first appearance: the insertion order of the Map. */
  function Order(lists: seq<seq<string>>): seq<string> {
    if lists == [] then [] else AddAll(Order(lists[..|lists| - 1]), lists[|lists| - 1])
  }

  predicate Distinct(ids: seq<string>) {
    forall i, j :: 0 <= i < j < |ids| ==> ids[i] != ids[j]
  }

  lemma {:induction false} AddAllMembers(order: seq<string>, ids: seq<string>)
    requires Distinct(order)
    ensures Distinct(AddAll(order, ids))
    ensures forall id :: id in AddAll(order, ids) <==> id in order || id in ids
  {
    if ids != [] {
      AddAllMembers(order, ids[..|ids| - 1]);
      assert forall id :: id in ids <==> id in ids[..|ids| - 1] || id == ids[|ids| - 1];
    }
  }

  predicate Mentioned(lists: seq<seq<string>>, id: string) {
    exists l :: 0 <= l < |lists| && id in lists[l]
  }

  lemma {:induction false} OrderMembers(lists: seq<seq<string>>)
    ensures Distinct(Order(lists))
    ensures forall id :: id in Order(lists) <==> Mentioned(lists, id)
  {
    if lists != [] {
      var n := |lists| - 1;
      OrderMembers(lists[..n]);
      AddAllMembers(Order(lists[..n]), lists[n]);
      forall id
        ensures Mentioned(lists, id) <==> Mentioned(lists[..n], id) || id in lists[n]
      {
        if Mentioned(lists[..n], id) {
          var l :| 0 <= l < n && id in lists[..n][l];
          assert lists[l] == lists[..n][l];
        }
        if Mentioned(lists, id) {
          var l :| 0 <= l < |lists| && id in lists[l];
          assert l < n ==> lists[..n][l] == lists[l];
        }
      }
    }
  }

  // ---------- the table the fusion builds ----------

  ghost predicate TableIs(order: seq<string>, byId: map<string, Entry>, vectors: seq<VectorList>,
                          fts: seq<seq<string>>, k: nat) {
    && order == Order(Lists(vectors, fts))
    && (forall id :: id in byId <==> id in order)
    && (forall id :: id in byId ==> byId[id] == EntryOf(vectors, fts, id, k))
    && (forall id :: id !in order ==> EntryOf(vectors, fts, id, k) == FRESH)
  }

  function Extend(list: VectorList, row: VectorRow): VectorList {
    list.(hits := list.hits + [row])
  }

  function OnVectorRow(e: Entry, row: VectorRow, floor: real, k: nat, n: nat): Entry
    requires n > 0
  {
    Entry(if e.distance.None? then Some(row.distance)
          else if e.distance.value <= row.distance then e.distance else Some(row.distance),
          e.ftsMatched, e.score + Place(k, n), e.passesFloor || row.distance <= floor)
  }

  /** One more row of the last vector list: only its own chunk's entry changes. */
  lemma VectorRowEntry(vectors: seq<VectorList>, list: VectorList, row: VectorRow, id: string, k: nat)
    ensures var before := EntryOf(vectors + [list], [], id, k);
      EntryOf(vectors + [Extend(list, row)], [], id, k) ==
      if row.id == id then OnVectorRow(before, row, list.floor, k, |list.hits| + 1) else before
  {
    hide EntryOf, Lists, Passes, ListPasses, Place, Distance, Score;
    var next := Extend(list, row);
    LastVectorEntry(vectors, list, id, k);
    LastVectorEntry(vectors, next, id, k);
    assert next.hits[..|list.hits|] == list.hits;
    assert Ids(next.hits)[..|list.hits|] == Ids(list.hits);
    PassesRow(list, row, id);
  }

  lemma PassesRow(list: VectorList, row: VectorRow, id: string)
    ensures ListPasses(Extend(list, row), id) <==> ListPasses(list, id) || (row.id == id && row.distance <= list.floor)
  {
    var next := Extend(list, row);
    assert next.hits[|list.hits|] == row;
    if ListPasses(list, id) {
      var i :| 0 <= i < |list.hits| && list.hits[i].id == id && list.hits[i].distance <= list.floor;
      assert next.hits[i] == list.hits[i];
    }
  }

  lemma LastVectorEntry(vectors: seq<VectorList>, list: VectorList, id: string, k: nat)
    ensures EntryOf(vectors + [list], [], id, k) ==
            Entry(Nearer(Distance(vectors, id), ListDistance(list.hits, id)), false,
                  Score(Lists(vectors, []), id, k) + ListScore(Ids(list.hits), id, k),
                  Passes(vectors, id) || ListPasses(list, id))
  {
    hide Lists, Score, Distance, Passes, ListPasses, ListScore, ListDistance, Nearer;
    LastDistance(vectors, list, id);
    LastVectorScore(vectors, list, id, k);
    LastPasses(vectors, list, id);
  }

  lemma LastDistance(vectors: seq<VectorList>, list: VectorList, id: string)
    ensures Distance(vectors + [list], id) == Nearer(Distance(vectors, id), ListDistance(list.hits, id))
  {
    hide ListDistance, Nearer;
    assert (vectors + [list])[..|vectors|] == vectors;
  }

  lemma LastVectorScore(vectors: seq<VectorList>, list: VectorList, id: string, k: nat)
    ensures Score(Lists(vectors + [list], []), id, k) ==
      Score(Lists(vectors, []), id, k) + ListScore(Ids(list.hits), id, k)
  {
    hide Score, ListScore, Ids;
    assert Lists(vectors + [list], []) == Lists(vectors, []) + [Ids(list.hits)];
    ScoreSnoc(Lists(vectors, []), Ids(list.hits), id, k);
  }

  lemma LastPasses(vectors: seq<VectorList>, list: VectorList, id: string)
    ensures Passes(vectors + [list], id) <==> Passes(vectors, id) || ListPasses(list, id)
  {
    hide ListPasses;
    var all := vectors + [list];
    assert all[|vectors|] == list;
    if Passes(vectors, id) {
      var v :| 0 <= v < |vectors| && ListPasses(vectors[v], id);
      assert all[v] == vectors[v];
    }
    if Passes(all, id) {
      var v :| 0 <= v < |all| && ListPasses(all[v], id);
      assert v < |vectors| ==> all[v] == vectors[v];
    }
  }

  lemma VectorRowOrder(vectors: seq<VectorList>, list: VectorList, row: VectorRow)
    ensures Order(Lists(vectors + [Extend(list, row)], [])) == AddNew(Order(Lists(vectors + [list], [])), row.id)
  {
    var a, b := vectors + [list], vectors + [Extend(list, row)];
    assert Lists(a, [])[..|vectors|] == Lists(vectors, []);
    assert Lists(b, [])[..|vectors|] == Lists(vectors, []);
    var ids := Ids(Extend(list, row).hits);
    assert ids[..|list.hits|] == Ids(list.hits) && ids[|list.hits|] == row.id;
  }

  /** One more row of the last full-text list. */
  lemma FtsRowEntry(vectors: seq<VectorList>, fts: seq<seq<string>>, list: seq<string>, row: string, id: string, k: nat)
    ensures var before := EntryOf(vectors, fts + [list], id, k);
      EntryOf(vectors, fts + [list + [row]], id, k) ==
      if row == id then before.(ftsMatched := true, score := before.score + Place(k, |list| + 1)) else before
  {
    hide Score, Matched, Lists, Passes, Distance, Place;
    LastFtsScore(vectors, fts, list, id, k);
    LastFtsScore(vectors, fts, list + [row], id, k);
    LastFtsMatch(fts, list, id);
    LastFtsMatch(fts, list + [row], id);
    assert (list + [row])[..|list|] == list;
  }

  lemma LastFtsScore(vectors: seq<VectorList>, fts: seq<seq<string>>, list: seq<string>, id: string, k: nat)
    ensures Score(Lists(vectors, fts + [list]), id, k) == Score(Lists(vectors, fts), id, k) + ListScore(list, id, k)
  {
    hide Lists, Score, ListScore;
    FtsListsSnoc(vectors, fts, list);
    ScoreSnoc(Lists(vectors, fts), list, id, k);
  }

  lemma ScoreSnoc(lists: seq<seq<string>>, list: seq<string>, id: string, k: nat)
    ensures Score(lists + [list], id, k) == Score(lists, id, k) + ListScore(list, id, k)
  {
    hide ListScore;
    assert (lists + [list])[..|lists|] == lists;
  }

  lemma LastFtsMatch(fts: seq<seq<string>>, list: seq<string>, id: string)
    ensures Matched(fts + [list], id) <==> Matched(fts, id) || id in list
  {
    var all := fts + [list];
    assert all[|fts|] == list;
    if Matched(fts, id) {
      var f :| 0 <= f < |fts| && id in fts[f];
      assert id in all[f];
    }
    if Matched(all, id) {
      var f :| 0 <= f < |all| && id in all[f];
      assert f < |fts| ==> all[f] == fts[f];
    }
  }

  lemma FtsRowOrder(vectors: seq<VectorList>, fts: seq<seq<string>>, list: seq<string>, row: string)
    ensures Order(Lists(vectors, fts + [list + [row]])) == AddNew(Order(Lists(vectors, fts + [list])), row)
  {
    hide Lists, Order, AddNew, AddAll;
    FtsListsSnoc(vectors, fts, list);
    FtsListsSnoc(vectors, fts, list + [row]);
    OrderSnoc(Lists(vectors, fts), list);
    OrderSnoc(Lists(vectors, fts), list + [row]);
    AddAllSnoc(Order(Lists(vectors, fts)), list, row);
  }

  lemma FtsListsSnoc(vectors: seq<VectorList>, fts: seq<seq<string>>, list: seq<string>)
    ensures Lists(vectors, fts + [list]) == Lists(vectors, fts) + [list]
  {
    hide Ids;
  }

  lemma OrderSnoc(lists: seq<seq<string>>, list: seq<string>)
    ensures Order(lists + [list]) == AddAll(Order(lists), list)
  {
    hide AddAll;
    assert (lists + [list])[..|lists|] == lists;
  }

  lemma AddAllSnoc(order: seq<string>, ids: seq<string>, id: string)
    ensures AddAll(order, ids + [id]) == AddNew(AddAll(order, ids), id)
  {
    hide AddNew;
    assert (ids + [id])[..|ids|] == ids;
  }

  method Accumulate(vectors: seq<VectorList>, fts: seq<seq<string>>, k: nat)
    returns (order: seq<string>, byId: map<string, Entry>)
    ensures TableIs(order, byId, vectors, fts, k)
  {
    hide EntryOf, Order, Lists, Place;
    order, byId := [], map[];
    StartTable(k);
    for v := 0 to |vectors|
      invariant TableIs(order, byId, vectors[..v], [], k)
    {
      var list := vectors[v];
      EmptyVectorList(order, byId, vectors[..v], list.floor, k);
      for i := 0 to |list.hits|
        invariant TableIs(order, byId, vectors[..v] + [VectorList(list.hits[..i], list.floor)], [], k)
      {
        var row := list.hits[i];
        var e := if row.id in byId then byId[row.id] else FRESH;
        ghost var part := VectorList(list.hits[..i], list.floor);
        TakeVectorRow(order, byId, vectors[..v], part, row, k);
        order := AddNew(order, row.id);
        byId := byId[row.id := OnVectorRow(e, row, list.floor, k, i + 1)];
        assert Extend(part, row) == VectorList(list.hits[..i + 1], list.floor);
      }
      assert VectorList(list.hits[..|list.hits|], list.floor) == list;
      assert vectors[..v] + [list] == vectors[..v + 1];
    }
    assert vectors[..|vectors|] == vectors;
    assert fts[..0] == [];
    for f := 0 to |fts|
      invariant TableIs(order, byId, vectors, fts[..f], k)
    {
      EmptyFtsList(order, byId, vectors, fts[..f], k);
      for i := 0 to |fts[f]|
        invariant TableIs(order, byId, vectors, fts[..f] + [fts[f][..i]], k)
      {
        var row := fts[f][i];
        var e := if row in byId then byId[row] else FRESH;
        TakeFtsRow(order, byId, vectors, fts[..f], fts[f][..i], row, k);
        order := AddNew(order, row);
        byId := byId[row := e.(ftsMatched := true, score := e.score + Place(k, i + 1))];
        assert fts[f][..i] + [row] == fts[f][..i + 1];
      }
      assert fts[f][..|fts[f]|] == fts[f];
      assert fts[..f] + [fts[f]] == fts[..f + 1];
    }
    assert fts[..|fts|] == fts;
  }

  lemma StartTable(k: nat)
    ensures TableIs([], map[], [], [], k)
  {
  }

  lemma EmptyVectorList(order: seq<string>, byId: map<string, Entry>, vectors: seq<VectorList>, floor: real, k: nat)
    requires TableIs(order, byId, vectors, [], k)
    ensures TableIs(order, byId, vectors + [VectorList([], floor)], [], k)
  {
    hide Order, EntryOf, Lists;
    var list := VectorList([], floor);
    EmptyVectorOrder(vectors, floor);
    forall id
      ensures EntryOf(vectors + [list], [], id, k) == EntryOf(vectors, [], id, k)
    {
      EmptyVectorEntry(vectors, floor, id, k);
    }
  }

  lemma EmptyVectorEntry(vectors: seq<VectorList>, floor: real, id: string, k: nat)
    ensures EntryOf(vectors + [VectorList([], floor)], [], id, k) == EntryOf(vectors, [], id, k)
  {
    hide Lists, Score, Distance, Passes;
    LastVectorEntry(vectors, VectorList([], floor), id, k);
  }

  lemma EmptyVectorOrder(vectors: seq<VectorList>, floor: real)
    ensures Order(Lists(vectors + [VectorList([], floor)], [])) == Order(Lists(vectors, []))
  {
    hide AddNew;
    var all := vectors + [VectorList([], floor)];
    assert Lists(all, [])[..|vectors|] == Lists(vectors, []);
    assert Lists(all, [])[|vectors|] == [];
  }

  lemma EmptyFtsList(order: seq<string>, byId: map<string, Entry>, vectors: seq<VectorList>, fts: seq<seq<string>>,
                     k: nat)
    requires TableIs(order, byId, vectors, fts, k)
    ensures TableIs(order, byId, vectors, fts + [[]], k)
  {
    hide Score, Matched, Passes, Distance;
    hide Order, EntryOf, Lists;
    EmptyFtsOrder(vectors, fts);
    forall id
      ensures EntryOf(vectors, fts + [[]], id, k) == EntryOf(vectors, fts, id, k)
    {
      EmptyFtsEntry(vectors, fts, id, k);
    }
  }

  lemma EmptyFtsEntry(vectors: seq<VectorList>, fts: seq<seq<string>>, id: string, k: nat)
    ensures EntryOf(vectors, fts + [[]], id, k) == EntryOf(vectors, fts, id, k)
  {
    hide Lists, Score, Matched, Distance, Passes;
    LastFtsScore(vectors, fts, [], id, k);
    LastFtsMatch(fts, [], id);
  }

  lemma EmptyFtsOrder(vectors: seq<VectorList>, fts: seq<seq<string>>)
    ensures Order(Lists(vectors, fts + [[]])) == Order(Lists(vectors, fts))
  {
    hide Ids, AddNew;
    var n := |vectors| + |fts|;
    assert Lists(vectors, fts + [[]])[..n] == Lists(vectors, fts);
    assert Lists(vectors, fts + [[]])[n] == [];
  }

  lemma TakeVectorRow(order: seq<string>, byId: map<string, Entry>, vectors: seq<VectorList>, list: VectorList,
                      row: VectorRow, k: nat)
    requires TableIs(order, byId, vectors + [list], [], k)
    ensures var e := if row.id in byId then byId[row.id] else FRESH;
      TableIs(AddNew(order, row.id), byId[row.id := OnVectorRow(e, row, list.floor, k, |list.hits| + 1)],
              vectors + [Extend(list, row)], [], k)
  {
    hide EntryOf, Order, Lists, OnVectorRow;
    VectorRowOrder(vectors, list, row);
    forall id
      ensures var before := EntryOf(vectors + [list], [], id, k);
        EntryOf(vectors + [Extend(list, row)], [], id, k) ==
        if row.id == id then OnVectorRow(before, row, list.floor, k, |list.hits| + 1) else before
    {
      VectorRowEntry(vectors, list, row, id, k);
    }
  }

  lemma TakeFtsRow(order: seq<string>, byId: map<string, Entry>, vectors: seq<VectorList>, fts: seq<seq<string>>,
                   list: seq<string>, row: string, k: nat)
    requires TableIs(order, byId, vectors, fts + [list], k)
    ensures var e := if row in byId then byId[row] else FRESH;
      TableIs(AddNew(order, row), byId[row := e.(ftsMatched := true, score := e.score + Place(k, |list| + 1))],
              vectors, fts + [list + [row]], k)
  {
    hide EntryOf, Order, Lists, Place;
    FtsRowOrder(vectors, fts, list, row);
    forall id
      ensures var before := EntryOf(vectors, fts + [list], id, k);
        EntryOf(vectors, fts + [list + [row]], id, k) ==
        if row == id then before.(ftsMatched := true, score := before.score + Place(k, |list| + 1)) else before
    {
      FtsRowEntry(vectors, fts, list, row, id, k);
    }
  }

  // ---------- filter, stable sort, cut ----------

  predicate Eligible(e: Entry) {
    e.ftsMatched || e.passesFloor
  }

  function HitOf(id: string, e: Entry): HybridHit {
    HybridHit(id, e.distance, e.score, e.ftsMatched)
  }

  function HitFor(vectors: seq<VectorList>, fts: seq<seq<string>>, id: string, k: nat): HybridHit {
    HitOf(id, EntryOf(vectors, fts, id, k))
  }

  /** The eligible chunks of an order, as hits. */
  function Candidates(order: seq<string>, vectors: seq<VectorList>, fts: seq<seq<string>>,
                      k: nat): (hits: seq<HybridHit>)
    ensures |hits| <= |order|
  {
    if order == [] then []
    else
      var id := order[|order| - 1];
      var e := EntryOf(vectors, fts, id, k);
      Candidates(order[..|order| - 1], vectors, fts, k) + if Eligible(e) then [HitOf(id, e)] else []
  }

  function InsertStable(sorted: seq<HybridHit>, h: HybridHit): (r: seq<HybridHit>)
    ensures |r| == |sorted| + 1
  {
    if sorted == [] || sorted[|sorted| - 1].score >= h.score then sorted + [h]
    else InsertStable(sorted[..|sorted| - 1], h) + [sorted[|sorted| - 1]]
  }

  /** A stable sort by descending score. */
  function SortByScore(hits: seq<HybridHit>): (r: seq<HybridHit>)
    ensures |r| == |hits|
  {
    if hits == [] then [] else InsertStable(SortByScore(hits[..|hits| - 1]), hits[|hits| - 1])
  }

  function Cut(hits: seq<HybridHit>, limit: nat): seq<HybridHit> {
    if |hits| <= limit then hits else hits[..limit]
  }

  function Fused(vectors: seq<VectorList>, fts: seq<seq<string>>, k: nat, limit: nat): seq<HybridHit> {
    Cut(SortByScore(Candidates(Order(Lists(vectors, fts)), vectors, fts, k)), limit)
  }

  method FuseRrfMulti(vectors: seq<VectorList>, fts: seq<seq<string>>, k: nat, limit: nat)
    returns (hits: seq<HybridHit>)
    ensures hits == Fused(vectors, fts, k, limit)
  {
    hide EntryOf, Order, Lists;
    var order, byId := Accumulate(vectors, fts, k);
    var kept: seq<HybridHit> := [];
    for i := 0 to |order|
      invariant kept == Candidates(order[..i], vectors, fts, k)
    {
      assert order[i] in order;
      var e := byId[order[i]];
      if Eligible(e) {
        kept := kept + [HitOf(order[i], e)];
      }
      assert order[..i + 1][..i] == order[..i];
    }
    assert order[..|order|] == order;
    hits := Cut(SortByScore(kept), limit);
  }

  // ---------- the ranking is exactly: score, then first appearance ----------

  function IndexOf(order: seq<string>, id: string): (i: nat)
    requires id in order
    ensures i < |order| && order[i] == id
  {
    if order[0] == id then 0 else 1 + IndexOf(order[1..], id)
  }

  ghost predicate Before(order: seq<string>, a: HybridHit, b: HybridHit)
    requires a.id in order && b.id in order
  {
    a.score > b.score || (a.score == b.score && IndexOf(order, a.id) < IndexOf(order, b.id))
  }

  ghost predicate From(order: seq<string>, hits: seq<HybridHit>) {
    forall i :: 0 <= i < |hits| ==> hits[i].id in order
  }

  ghost predicate Ranked(order: seq<string>, hits: seq<HybridHit>)
    requires From(order, hits)
  {
    forall i, j :: 0 <= i < j < |hits| ==> Before(order, hits[i], hits[j])
  }

  lemma {:induction false} InsertKeepsRank(order: seq<string>, sorted: seq<HybridHit>, h: HybridHit)
    requires From(order, sorted) && Ranked(order, sorted) && h.id in order
    requires forall i :: 0 <= i < |sorted| ==> IndexOf(order, sorted[i].id) < IndexOf(order, h.id)
    ensures var r := InsertStable(sorted, h);
      && (forall x :: x in r <==> x in sorted || x == h)
      && From(order, r) && Ranked(order, r)
  {
    hide IndexOf;
    if sorted == [] || sorted[|sorted| - 1].score >= h.score {
    } else {
      var front, last := sorted[..|sorted| - 1], sorted[|sorted| - 1];
      InsertKeepsRank(order, front, h);
      var r := InsertStable(sorted, h);
      assert forall x :: x in sorted <==> x in front || x == last;
      forall i | 0 <= i < |r|
        ensures r[i].id in order
      {
        assert r[i] in r;
      }
      forall i, j | 0 <= i < j < |r|
        ensures Before(order, r[i], r[j])
      {
        if j == |r| - 1 {
          assert r[i] in InsertStable(front, h);
          if r[i] in front {
            var m :| 0 <= m < |front| && front[m] == r[i];
            assert Before(order, sorted[m], sorted[|sorted| - 1]);
          }
        }
      }
    }
  }

  lemma {:induction false} CandidatesAre(order: seq<string>, vectors: seq<VectorList>, fts: seq<seq<string>>, k: nat)
    ensures var hits := Candidates(order, vectors, fts, k);
      forall h :: h in hits <==>
        h.id in order && Eligible(EntryOf(vectors, fts, h.id, k)) && h == HitFor(vectors, fts, h.id, k)
  {
    hide EntryOf, Eligible, Candidates;
    assert order[..|order|] == order;
    if order == [] {
      NoCandidates(order, vectors, fts, k);
    } else {
      var n := |order| - 1;
      CandidatesAre(order[..n], vectors, fts, k);
      CandidatesStep(order, |order|, vectors, fts, k);
      assert forall x :: x in order <==> x in order[..n] || x == order[n];
    }
  }

  lemma SortSnoc(hits: seq<HybridHit>, h: HybridHit)
    ensures SortByScore(hits + [h]) == InsertStable(SortByScore(hits), h)
  {
    hide InsertStable;
    assert (hits + [h])[..|hits|] == hits;
  }

  lemma CandidatesStep(order: seq<string>, n: nat, vectors: seq<VectorList>, fts: seq<seq<string>>, k: nat)
    requires 0 < n <= |order|
    ensures Candidates(order[..n], vectors, fts, k) ==
            Candidates(order[..n - 1], vectors, fts, k)
            + if Eligible(EntryOf(vectors, fts, order[n - 1], k)) then [HitFor(vectors, fts, order[n - 1], k)] else []
  {
    hide EntryOf;
    assert order[..n][..n - 1] == order[..n - 1];
  }

  /** Everything in a sorted prefix of the order appeared before the next chunk. */
  lemma EarlierIndex(order: seq<string>, n: nat, id: string)
    requires Distinct(order) && n < |order| && id in order[..n]
    ensures id in order && order[n] in order && IndexOf(order, id) < IndexOf(order, order[n])
  {
    var m :| 0 <= m < n && order[..n][m] == id;
    assert order[m] == id;
    IndexIsPlace(order, m);
    IndexIsPlace(order, n);
  }

  lemma NoCandidates(order: seq<string>, vectors: seq<VectorList>, fts: seq<seq<string>>, k: nat)
    ensures Candidates(order[..0], vectors, fts, k) == [] && SortByScore([]) == []
  {
  }

  lemma {:induction false} SortRanks(order: seq<string>, n: nat, vectors: seq<VectorList>, fts: seq<seq<string>>,
                                     k: nat)
    requires Distinct(order) && n <= |order|
    ensures var hits := Candidates(order[..n], vectors, fts, k);
      && From(order, SortByScore(hits)) && Ranked(order, SortByScore(hits))
      && (forall h :: h in SortByScore(hits) <==> h in hits)
  {
    hide EntryOf, IndexOf, Distinct, InsertStable, Before, Candidates, SortByScore, Eligible;
    if n == 0 {
      NoCandidates(order, vectors, fts, k);
    } else {
      var before := Candidates(order[..n - 1], vectors, fts, k);
      SortRanks(order, n - 1, vectors, fts, k);
      CandidatesStep(order, n, vectors, fts, k);
      var h := HitFor(vectors, fts, order[n - 1], k);
      if Eligible(EntryOf(vectors, fts, order[n - 1], k)) {
        var sorted := SortByScore(before);
        forall i | 0 <= i < |sorted|
          ensures IndexOf(order, sorted[i].id) < IndexOf(order, h.id)
        {
          assert sorted[i] in before;
          CandidatesAre(order[..n - 1], vectors, fts, k);
          EarlierIndex(order, n - 1, sorted[i].id);
        }
        assert h.id in order;
        InsertKeepsRank(order, sorted, h);
        SortSnoc(before, h);
        assert forall x :: x in before + [h] <==> x in before || x == h;
      } else {
        assert before + [] == before;
      }
    }
  }

  lemma {:induction false} IndexIsPlace(order: seq<string>, i: nat)
    requires Distinct(order) && i < |order|
    ensures order[i] in order && IndexOf(order, order[i]) == i
  {
    assert order[IndexOf(order, order[i])] == order[i];
  }

  predicate IsEligible(vectors: seq<VectorList>, fts: seq<seq<string>>, id: string, k: nat) {
    Mentioned(Lists(vectors, fts), id) && Eligible(EntryOf(vectors, fts, id, k))
  }

  /**
   * The output is the top of one strict ranking of the eligible chunks (score, then first appearance): it holds no
   * chunk twice, is at most `limit` long, and leaves an eligible chunk out only when it is full of chunks ranked
   * before it.
   */
  lemma FusedIsTopCut(vectors: seq<VectorList>, fts: seq<seq<string>>, k: nat, limit: nat)
    ensures var out := Fused(vectors, fts, k, limit);
      var order := Order(Lists(vectors, fts));
      && |out| <= limit
      && From(order, out) && Ranked(order, out)
      && (forall h :: h in out ==> IsEligible(vectors, fts, h.id, k) && h == HitFor(vectors, fts, h.id, k))
      && (forall id :: IsEligible(vectors, fts, id, k) && HitFor(vectors, fts, id, k) !in out ==>
            && id in order && |out| == limit
            && forall i :: 0 <= i < |out| ==> Before(order, out[i], HitFor(vectors, fts, id, k)))
  {
    hide EntryOf, IndexOf, Order, Lists;
    var order := Order(Lists(vectors, fts));
    OrderMembers(Lists(vectors, fts));
    SortRanks(order, |order|, vectors, fts, k);
    CandidatesAre(order, vectors, fts, k);
    assert order[..|order|] == order;
    var sorted := SortByScore(Candidates(order, vectors, fts, k));
    var out := Fused(vectors, fts, k, limit);
    forall i | 0 <= i < |out|
      ensures out[i] == sorted[i] && out[i] in sorted
    {
    }
    forall h | h in out
      ensures h in sorted
    {
    }
    forall id | IsEligible(vectors, fts, id, k) && HitFor(vectors, fts, id, k) !in out
      ensures id in order && |out| == limit
      ensures forall i :: 0 <= i < |out| ==> Before(order, out[i], HitFor(vectors, fts, id, k))
    {
      var h := HitFor(vectors, fts, id, k);
      assert h.id == id;
      assert h in sorted;
      var j :| 0 <= j < |sorted| && sorted[j] == h;
      assert j >= limit;
    }
  }

  // ---------- dominance ----------

  predicate Sorted(hits: seq<VectorRow>) {
    forall i, j :: 0 <= i < j < |hits| ==> hits[i].distance <= hits[j].distance
  }

  /** What the search calls return: vector lists by ascending distance, and no chunk twice in one list. */
  ghost predicate WellFormed(vectors: seq<VectorList>, fts: seq<seq<string>>) {
    && (forall v :: 0 <= v < |vectors| ==> Sorted(vectors[v].hits))
    && (forall l :: 0 <= l < |Lists(vectors, fts)| ==> Distinct(Lists(vectors, fts)[l]))
  }

  ghost predicate AheadIn(ids: seq<string>, a: string, b: string) {
    exists i, j :: 0 <= i < j < |ids| && ids[i] == a && ids[j] == b
  }

  /** a is ahead of b in every list that has b. */
  ghost predicate Dominates(lists: seq<seq<string>>, a: string, b: string) {
    forall l :: 0 <= l < |lists| && b in lists[l] ==> AheadIn(lists[l], a, b)
  }

  lemma PlaceShrinks(k: nat, m: nat, n: nat)
    requires 0 < m < n
    ensures Place(k, m) > Place(k, n) > 0.0
  {
    var x, y := (k + m) as real, (k + n) as real;
    assert 1.0 / x - 1.0 / y == (y - x) / (x * y);
    assert x * y > 0.0;
  }

  lemma {:induction false} ListScoreIs(ids: seq<string>, id: string, k: nat)
    requires Distinct(ids)
    ensures id !in ids ==> ListScore(ids, id, k) == 0.0
    ensures forall i :: 0 <= i < |ids| && ids[i] == id ==> ListScore(ids, id, k) == Place(k, i + 1)
    ensures ListScore(ids, id, k) >= 0.0
  {
    hide Place;
    if ids != [] {
      var n := |ids|;
      PlaceShrinks(k, n, n + 1);
      ListScoreIs(ids[..n - 1], id, k);
      if ids[n - 1] == id {
        assert id !in ids[..n - 1];
      }
    }
  }

  /** The contribution of one list: 1 / (k + rank), where the first place has rank 1. */
  lemma ReciprocalRank(ids: seq<string>, i: nat, k: nat)
    requires Distinct(ids) && i < |ids|
    ensures ListScore(ids, ids[i], k) == 1.0 / (k + i + 1) as real
  {
    ListScoreIs(ids, ids[i], k);
  }

  lemma AheadScoresMore(ids: seq<string>, a: string, b: string, k: nat)
    requires Distinct(ids) && (b in ids ==> AheadIn(ids, a, b))
    ensures ListScore(ids, a, k) >= ListScore(ids, b, k)
    ensures b in ids ==> ListScore(ids, a, k) > ListScore(ids, b, k)
  {
    hide Place, ListScore;
    ListScoreIs(ids, a, k);
    ListScoreIs(ids, b, k);
    if b in ids {
      var i, j :| 0 <= i < j < |ids| && ids[i] == a && ids[j] == b;
      PlaceShrinks(k, i + 1, j + 1);
    }
  }

  lemma {:induction false} DominantScoresMore(lists: seq<seq<string>>, a: string, b: string, k: nat)
    requires (forall l :: 0 <= l < |lists| ==> Distinct(lists[l])) && Dominates(lists, a, b)
    ensures Score(lists, a, k) >= Score(lists, b, k)
    ensures Mentioned(lists, b) ==> Score(lists, a, k) > Score(lists, b, k)
  {
    hide ListScore, Distinct, AheadIn;
    if lists != [] {
      var n := |lists| - 1;
      assert forall l :: 0 <= l < n ==> lists[..n][l] == lists[l];
      DominantScoresMore(lists[..n], a, b, k);
      AheadScoresMore(lists[n], a, b, k);
      if Mentioned(lists, b) && b !in lists[n] {
        var l :| 0 <= l < |lists| && b in lists[l];
        assert b in lists[..n][l];
      }
    }
  }

  lemma DominantIsEligible(vectors: seq<VectorList>, fts: seq<seq<string>>, a: string, b: string, k: nat)
    requires WellFormed(vectors, fts) && Dominates(Lists(vectors, fts), a, b)
    requires IsEligible(vectors, fts, b, k)
    ensures IsEligible(vectors, fts, a, k)
  {
    hide Score, Distance, Distinct, Sorted, ListPasses, AheadIn, Ids, IsEligible, Lists;
    var lists := Lists(vectors, fts);
    WhyEligible(vectors, fts, a, k);
    WhyEligible(vectors, fts, b, k);
    if Matched(fts, b) {
      var f :| 0 <= f < |fts| && b in fts[f];
      assert lists[|vectors| + f] == fts[f];
      AheadIsIn(fts[f], a, b);
    } else {
      var v :| 0 <= v < |vectors| && ListPasses(vectors[v], b);
      PassingIsIn(vectors[v], b);
      assert lists[v] == Ids(vectors[v].hits);
      NearerPasses(vectors[v], a, b);
    }
  }

  lemma WhyEligible(vectors: seq<VectorList>, fts: seq<seq<string>>, id: string, k: nat)
    ensures IsEligible(vectors, fts, id, k) <==> Matched(fts, id) || Passes(vectors, id)
  {
    hide Score, Distance, ListPasses, Ids;
    var lists := Lists(vectors, fts);
    if Matched(fts, id) {
      var f :| 0 <= f < |fts| && id in fts[f];
      assert id in lists[|vectors| + f];
    }
    if Passes(vectors, id) {
      var v :| 0 <= v < |vectors| && ListPasses(vectors[v], id);
      PassingIsIn(vectors[v], id);
      assert id in lists[v];
    }
  }

  lemma AheadIsIn(ids: seq<string>, a: string, b: string)
    requires AheadIn(ids, a, b)
    ensures a in ids
  {
  }

  lemma PassingIsIn(list: VectorList, id: string)
    requires ListPasses(list, id)
    ensures id in Ids(list.hits)
  {
    var i :| 0 <= i < |list.hits| && list.hits[i].id == id && list.hits[i].distance <= list.floor;
    assert Ids(list.hits)[i] == id;
  }

  /** In a list sorted by distance, a chunk ahead of one within the floor is within the floor. */
  lemma NearerPasses(list: VectorList, a: string, b: string)
    requires Sorted(list.hits) && Distinct(Ids(list.hits)) && AheadIn(Ids(list.hits), a, b) && ListPasses(list, b)
    ensures ListPasses(list, a)
  {
    hide Distinct;
    var m :| 0 <= m < |list.hits| && list.hits[m].id == b && list.hits[m].distance <= list.floor;
    var i, j :| 0 <= i < j < |Ids(list.hits)| && Ids(list.hits)[i] == a && Ids(list.hits)[j] == b;
    DistinctPlace(Ids(list.hits), j, m);
    assert list.hits[i].id == a && list.hits[i].distance <= list.floor;
  }

  lemma DistinctPlace(ids: seq<string>, i: nat, j: nat)
    requires Distinct(ids) && i < |ids| && j < |ids| && ids[i] == ids[j]
    ensures i == j
  {
  }

  /**
   * Fusion respects agreement: if one chunk is ahead of another in every list that has the other, and the other is
   * returned, then the first is returned too, and before it. Distances of different lists are never compared.
   */
  lemma DominanceIsKept(vectors: seq<VectorList>, fts: seq<seq<string>>, k: nat, limit: nat, a: string, b: string,
                        j: nat)
    requires WellFormed(vectors, fts) && Dominates(Lists(vectors, fts), a, b)
    requires j < |Fused(vectors, fts, k, limit)| && Fused(vectors, fts, k, limit)[j].id == b
    ensures exists i :: 0 <= i < j && Fused(vectors, fts, k, limit)[i] == HitFor(vectors, fts, a, k)
  {
    hide EntryOf, Order, Lists, Fused, IndexOf, Distinct, Score, Dominates, WellFormed;
    var out := Fused(vectors, fts, k, limit);
    var order := Order(Lists(vectors, fts));
    FusedIsTopCut(vectors, fts, k, limit);
    assert out[j] in out;
    EntryScore(vectors, fts, a, k);
    EntryScore(vectors, fts, b, k);
    DominantIsEligible(vectors, fts, a, b, k);
    DistinctLists(vectors, fts);
    DominantScoresMore(Lists(vectors, fts), a, b, k);
    var h := HitFor(vectors, fts, a, k);
    assert h in out;
    var i :| 0 <= i < |out| && out[i] == h;
  }

  lemma EntryScore(vectors: seq<VectorList>, fts: seq<seq<string>>, id: string, k: nat)
    ensures EntryOf(vectors, fts, id, k).score == Score(Lists(vectors, fts), id, k)
  {
  }

  lemma DistinctLists(vectors: seq<VectorList>, fts: seq<seq<string>>)
    requires WellFormed(vectors, fts)
    ensures forall l :: 0 <= l < |Lists(vectors, fts)| ==> Distinct(Lists(vectors, fts)[l])
  {
  }

  // ---------- what a hit tells ----------

  /** A row of a chunk. */
  predicate IsRow(vectors: seq<VectorList>, id: string, v: nat, i: nat) {
    v < |vectors| && i < |vectors[v].hits| && vectors[v].hits[i].id == id
  }

  lemma {:induction false} ListDistanceIs(hits: seq<VectorRow>, id: string)
    ensures ListDistance(hits, id).None? <==> forall i :: 0 <= i < |hits| ==> hits[i].id != id
    ensures ListDistance(hits, id).Some? ==>
      && (exists i :: 0 <= i < |hits| && hits[i].id == id && hits[i].distance == ListDistance(hits, id).value)
      && (forall i :: 0 <= i < |hits| && hits[i].id == id ==> ListDistance(hits, id).value <= hits[i].distance)
  {
    if hits != [] {
      var n := |hits| - 1;
      ListDistanceIs(hits[..n], id);
      if ListDistance(hits[..n], id).Some? {
        var i :| 0 <= i < n && hits[..n][i].id == id && hits[..n][i].distance == ListDistance(hits[..n], id).value;
        assert hits[i] == hits[..n][i];
      }
      assert forall i :: 0 <= i < n ==> hits[i] == hits[..n][i];
    }
  }

  /** The distance kept of a chunk is the least of all its rows, in whatever list. */
  ghost predicate IsLeast(vectors: seq<VectorList>, id: string, distance: Option<real>) {
    match distance
    case None => forall v: nat, i: nat :: !IsRow(vectors, id, v, i)
    case Some(d) =>
      && (exists v: nat, i: nat :: IsRow(vectors, id, v, i) && vectors[v].hits[i].distance == d)
      && (forall v: nat, i: nat :: IsRow(vectors, id, v, i) ==> d <= vectors[v].hits[i].distance)
  }

  lemma {:induction false} DistanceIsLeast(vectors: seq<VectorList>, id: string)
    ensures IsLeast(vectors, id, Distance(vectors, id))
  {
    hide ListDistance, IsLeast;
    if vectors == [] {
      NoRows(id);
    } else {
      var n := |vectors| - 1;
      DistanceIsLeast(vectors[..n], id);
      ListDistanceIs(vectors[n].hits, id);
      OneMoreList(vectors[..n], vectors[n], id);
      assert vectors[..n] + [vectors[n]] == vectors;
    }
  }

  lemma NoRows(id: string)
    ensures IsLeast([], id, None)
  {
  }

  lemma OneMoreList(vectors: seq<VectorList>, list: VectorList, id: string)
    requires IsLeast(vectors, id, Distance(vectors, id))
    ensures IsLeast(vectors + [list], id, Nearer(Distance(vectors, id), ListDistance(list.hits, id)))
  {
    hide Distance, ListDistance;
    ListDistanceIs(list.hits, id);
    var all, n := vectors + [list], |vectors|;
    forall v: nat, i: nat | IsRow(all, id, v, i)
      ensures if v < n then IsRow(vectors, id, v, i) && all[v] == vectors[v] else v == n && all[v] == list
    {
    }
    if Distance(vectors, id).Some? {
      var v: nat, i: nat :| IsRow(vectors, id, v, i) && vectors[v].hits[i].distance == Distance(vectors, id).value;
      assert IsRow(all, id, v, i) && all[v] == vectors[v];
    }
    if ListDistance(list.hits, id).Some? {
      var best := ListDistance(list.hits, id).value;
      var i: nat :| i < |list.hits| && list.hits[i].id == id && list.hits[i].distance == best;
      assert IsRow(all, id, n, i) && all[n] == list;
    }
    forall v: nat, i: nat | IsRow(vectors, id, v, i)
      ensures IsRow(all, id, v, i) && all[v] == vectors[v]
    {
    }
  }

  /**
   * What every hit tells of its chunk: whether a text list has it, the least of its distances, and the sum of its rank
   * scores; and it is there only for a text match, or for a row within its own list's floor.
   */
  lemma HitTells(vectors: seq<VectorList>, fts: seq<seq<string>>, k: nat, limit: nat, h: HybridHit)
    requires h in Fused(vectors, fts, k, limit)
    ensures h.ftsMatched <==> exists f :: 0 <= f < |fts| && h.id in fts[f]
    ensures IsLeast(vectors, h.id, h.distance)
    ensures h.score == Score(Lists(vectors, fts), h.id, k)
    ensures h.ftsMatched || exists v: nat, i: nat ::
      IsRow(vectors, h.id, v, i) && vectors[v].hits[i].distance <= vectors[v].floor
  {
    hide Fused, Score, Distance, Lists, IsLeast;
    FusedIsTopCut(vectors, fts, k, limit);
    DistanceIsLeast(vectors, h.id);
    if !h.ftsMatched {
      var v :| 0 <= v < |vectors| && ListPasses(vectors[v], h.id);
      var i :| 0 <= i < |vectors[v].hits| && vectors[v].hits[i].id == h.id
        && vectors[v].hits[i].distance <= vectors[v].floor;
      assert IsRow(vectors, h.id, v, i);
    }
  }

  // ---------- the rerank gate at the end of the hybrid search ----------

  /** Candidates fused for the reranker before the final cut. */
  const RERANK_POOL: nat := 25

  /** A hit that makes the head of the ranking trustworthy without a reranker. */
  predicate Strong(h: HybridHit, strong: real, floor: real) {
    && h.distance.Some?
    && (h.distance.value <= strong || (h.ftsMatched && h.distance.value <= floor))
  }

  predicate IsLowConfidence(hits: seq<HybridHit>, strong: real, floor: real) {
    !exists i :: 0 <= i < |hits| && Strong(hits[i], strong, floor)
  }

  /** The reranker as the search sees it: absent, failing (its text fetch included), or answering with indexes. */
  datatype Reranker = Absent | Fails | Ranks(indexes: seq<int>)

  /** The hits an answer points at; an index outside the pool is dropped. */
  function Pick(pool: seq<HybridHit>, indexes: seq<int>): (r: seq<HybridHit>)
    ensures forall h :: h in r ==> h in pool
  {
    if indexes == [] then []
    else (if 0 <= indexes[0] < |pool| then [pool[indexes[0]]] else []) + Pick(pool, indexes[1..])
  }

  /** The hits, and whether the reranker was called. */
  function HybridResult(vectors: seq<VectorList>, fts: seq<seq<string>>, k: nat, limit: nat, strong: real, floor: real,
                        reranker: Reranker): (seq<HybridHit>, bool)
  {
    var pool := Fused(vectors, fts, k, if reranker.Absent? then limit else RERANK_POOL);
    var head := Cut(pool, limit);
    if reranker.Absent? || |pool| <= 1 || |pool| <= limit || !IsLowConfidence(head, strong, floor) then (head, false)
    else if reranker.Fails? then (head, true)
    else (Cut(Pick(pool, reranker.indexes), limit), true)
  }

  function EligibleIn(order: seq<string>, vectors: seq<VectorList>, fts: seq<seq<string>>, k: nat): set<string> {
    set id | id in order && Eligible(EntryOf(vectors, fts, id, k))
  }

  /** The chunks that may be returned at all. */
  function EligibleIds(vectors: seq<VectorList>, fts: seq<seq<string>>, k: nat): set<string> {
    EligibleIn(Order(Lists(vectors, fts)), vectors, fts, k)
  }

  lemma EligibleSnoc(order: seq<string>, vectors: seq<VectorList>, fts: seq<seq<string>>, k: nat)
    requires Distinct(order) && order != []
    ensures var n := |order| - 1;
      && order[n] !in EligibleIn(order[..n], vectors, fts, k)
      && EligibleIn(order, vectors, fts, k) ==
         EligibleIn(order[..n], vectors, fts, k)
         + if Eligible(EntryOf(vectors, fts, order[n], k)) then {order[n]} else {}
  {
    hide EntryOf, Eligible;
    DistinctFront(order);
  }

  lemma {:induction false} CandidateCount(order: seq<string>, vectors: seq<VectorList>, fts: seq<seq<string>>, k: nat)
    requires Distinct(order)
    ensures |Candidates(order, vectors, fts, k)| == |EligibleIn(order, vectors, fts, k)|
  {
    hide EntryOf, Eligible, Candidates, Distinct, HitOf;
    assert order[..|order|] == order;
    if order == [] {
      NoCandidates(order, vectors, fts, k);
      assert EligibleIn([], vectors, fts, k) == {};
    } else {
      hide EligibleIn;
      DistinctFront(order);
      CandidateCount(order[..|order| - 1], vectors, fts, k);
      CandidatesStep(order, |order|, vectors, fts, k);
      EligibleSnoc(order, vectors, fts, k);
    }
  }

  lemma DistinctFront(order: seq<string>)
    requires Distinct(order) && order != []
    ensures var n := |order| - 1;
      && Distinct(order[..n]) && order[n] !in order[..n]
      && forall id :: id in order <==> id in order[..n] || id == order[n]
  {
  }

  lemma FusedSize(vectors: seq<VectorList>, fts: seq<seq<string>>, k: nat, limit: nat)
    ensures |Fused(vectors, fts, k, limit)| == Smaller(limit, |EligibleIds(vectors, fts, k)|)
  {
    hide EntryOf, Lists, SortByScore, Order, Distinct, EligibleIn;
    OrderMembers(Lists(vectors, fts));
    CandidateCount(Order(Lists(vectors, fts)), vectors, fts, k);
  }

  function Smaller(a: nat, b: nat): nat {
    if a <= b then a else b
  }

  lemma FusedAgain(vectors: seq<VectorList>, fts: seq<seq<string>>, k: nat, a: nat, b: nat)
    ensures Cut(Fused(vectors, fts, k, a), b) == Fused(vectors, fts, k, Smaller(a, b))
  {
    hide EntryOf, Lists, SortByScore, Order, Candidates;
  }

  lemma LowConfidenceIff(hits: seq<HybridHit>, strong: real, floor: real)
    ensures IsLowConfidence(hits, strong, floor) <==>
      forall h :: h in hits && h.distance.Some? ==>
        h.distance.value > strong && !(h.ftsMatched && h.distance.value <= floor)
  {
  }

  /**
   * What configuring a reranker does to the answer of the same search without one. It is called exactly when the cut
   * leaves out some of the 25 pooled chunks and the answer so far has no strong hit. When it is not called, or fails,
   * the answer is the one without it, cut to 25: the same answer if and only if at most 25 are asked for or at most
   * 25 are eligible.
   */
  lemma RerankGate(vectors: seq<VectorList>, fts: seq<seq<string>>, k: nat, limit: nat, strong: real, floor: real,
                   reranker: Reranker)
    ensures var (hits, called) := HybridResult(vectors, fts, k, limit, strong, floor, reranker);
      var (plain, _) := HybridResult(vectors, fts, k, limit, strong, floor, Absent);
      var eligible := |EligibleIds(vectors, fts, k)|;
      && plain == Fused(vectors, fts, k, limit)
      && (called <==>
            && !reranker.Absent? && limit < 25 && limit < eligible && eligible > 1
            && forall h :: h in plain && h.distance.Some? ==>
                 h.distance.value > strong && !(h.ftsMatched && h.distance.value <= floor))
      && (called && reranker.Ranks? ==>
            |hits| <= limit && forall h :: h in hits ==> h in Fused(vectors, fts, k, RERANK_POOL))
      && (!called || reranker.Fails? ==>
            && (hits == plain <==> reranker.Absent? || limit <= RERANK_POOL || eligible <= RERANK_POOL)
            && hits == if reranker.Absent? then plain else Cut(plain, RERANK_POOL))
  {
    hide IsLowConfidence, Fused, EligibleIds, Pick;
    LowConfidenceIff(Fused(vectors, fts, k, limit), strong, floor);
    FusedSize(vectors, fts, k, limit);
    FusedSize(vectors, fts, k, RERANK_POOL);
    FusedAgain(vectors, fts, k, RERANK_POOL, limit);
    FusedAgain(vectors, fts, k, limit, RERANK_POOL);
    FusedAgain(vectors, fts, k, limit, limit);
    if reranker.Ranks? {
      var picked := Pick(Fused(vectors, fts, k, RERANK_POOL), reranker.indexes);
      assert forall h :: h in Cut(picked, limit) ==> h in picked;
    }
  }

  /** The positions of an answer's indexes that point into a pool of n, in order. */
  function Inside(indexes: seq<int>, n: nat): (at: seq<nat>)
    ensures forall p: nat :: p in at <==> p < |indexes| && 0 <= indexes[p] < n
    ensures forall i, j :: 0 <= i < j < |at| ==> at[i] < at[j]
  {
    if indexes == [] then []
    else
      var last := |indexes| - 1;
      var before := Inside(indexes[..last], n);
      assert forall i :: 0 <= i < |before| ==> before[i] in before;
      before + if 0 <= indexes[last] < n then [last] else []
  }

  lemma {:induction false} PickAppend(pool: seq<HybridHit>, a: seq<int>, b: seq<int>)
    ensures Pick(pool, a + b) == Pick(pool, a) + Pick(pool, b)
  {
    hide Pick;
    PickStep(pool, a);
    if a == [] {
      assert a + b == b;
    } else {
      PickAppend(pool, a[1..], b);
      PickStep(pool, a + b);
      assert (a + b)[1..] == a[1..] + b;
      var first := if 0 <= a[0] < |pool| then [pool[a[0]]] else [];
      assert first + (Pick(pool, a[1..]) + Pick(pool, b)) == first + Pick(pool, a[1..]) + Pick(pool, b);
    }
  }

  lemma PickStep(pool: seq<HybridHit>, indexes: seq<int>)
    ensures indexes == [] ==> Pick(pool, indexes) == []
    ensures indexes != [] ==>
      Pick(pool, indexes) == (if 0 <= indexes[0] < |pool| then [pool[indexes[0]]] else []) + Pick(pool, indexes[1..])
  {
  }

  lemma {:induction false} PickIs(pool: seq<HybridHit>, indexes: seq<int>)
    ensures var at := Inside(indexes, |pool|);
      && |Pick(pool, indexes)| == |at|
      && forall i :: 0 <= i < |at| ==> at[i] in at && Pick(pool, indexes)[i] == pool[indexes[at[i]]]
  {
    hide Pick, Inside;
    if indexes == [] {
      PickStep(pool, indexes);
      InsideStep([], |pool|);
    } else {
      var n := |indexes| - 1;
      PickIs(pool, indexes[..n]);
      PickSnoc(pool, indexes[..n], indexes[n]);
      InsideStep(indexes, |pool|);
      assert indexes[..n] + [indexes[n]] == indexes;
      var before := Inside(indexes[..n], |pool|);
      assert forall i :: 0 <= i < |before| ==> indexes[..n][before[i]] == indexes[before[i]];
      assert forall i :: 0 <= i < |Inside(indexes, |pool|)| ==> Inside(indexes, |pool|)[i] in Inside(indexes, |pool|);
    }
  }

  lemma PickSnoc(pool: seq<HybridHit>, indexes: seq<int>, last: int)
    ensures Pick(pool, indexes + [last]) == Pick(pool, indexes) + if 0 <= last < |pool| then [pool[last]] else []
  {
    PickAppend(pool, indexes, [last]);
    assert [last][1..] == [];
  }

  lemma InsideStep(indexes: seq<int>, n: nat)
    ensures indexes == [] ==> Inside(indexes, n) == []
    ensures indexes != [] ==>
      var last := |indexes| - 1;
      Inside(indexes, n) == Inside(indexes[..last], n) + if 0 <= indexes[last] < n then [last] else []
    ensures forall p: nat :: p in Inside(indexes, n) ==> p < |indexes| && 0 <= indexes[p] < n
  {
  }

  lemma {:induction false} InsideAll(indexes: seq<int>, n: nat)
    requires forall p :: 0 <= p < |indexes| ==> 0 <= indexes[p] < n
    ensures Inside(indexes, n) == seq(|indexes|, i => i)
  {
    if indexes != [] {
      InsideAll(indexes[..|indexes| - 1], n);
    }
  }

  /**
   * What a reranker that is called and answers returns: the pooled chunks its indexes point at, best first as it ranked
   * them, without the indexes that point nowhere, cut to what was asked for.
   */
  lemma RerankedAnswer(vectors: seq<VectorList>, fts: seq<seq<string>>, k: nat, limit: nat, strong: real, floor: real,
                       indexes: seq<int>)
    requires HybridResult(vectors, fts, k, limit, strong, floor, Ranks(indexes)).1
    ensures var hits := HybridResult(vectors, fts, k, limit, strong, floor, Ranks(indexes)).0;
      var pool := Fused(vectors, fts, k, 25);
      var at := Inside(indexes, |pool|);
      && |hits| == Smaller(limit, |at|)
      && (forall i :: 0 <= i < |hits| ==> at[i] in at && hits[i] == pool[indexes[at[i]]])
      && ((forall p :: 0 <= p < |indexes| ==> 0 <= indexes[p] < |pool|) ==>
            |hits| == Smaller(limit, |indexes|) && forall i :: 0 <= i < |hits| ==> hits[i] == pool[indexes[i]])
  {
    hide Fused, IsLowConfidence, Pick, Inside;
    var pool := Fused(vectors, fts, k, RERANK_POOL);
    PickIs(pool, indexes);
    if forall p :: 0 <= p < |indexes| ==> 0 <= indexes[p] < |pool| {
      InsideAll(indexes, |pool|);
    }
  }

  /** Distinct ids: a text list of n chunks. */
  function Numbered(n: nat): (ids: seq<string>)
    ensures |ids| == n
    ensures forall i :: 0 <= i < n ==> |ids[i]| == i
  {
    if n == 0 then [] else Numbered(n - 1) + [seq(n - 1, i => 'x')]
  }

  /** However many more than 25 text matches there are, and however many are asked for, 25 come back uncalled. */
  lemma UncalledRerankerCuts(n: nat, limit: nat, k: nat, strong: real, floor: real, reranker: Reranker)
    requires n > RERANK_POOL && limit > RERANK_POOL && !reranker.Absent?
    ensures var (hits, called) := HybridResult([], [Numbered(n)], k, limit, strong, floor, reranker);
      var (plain, _) := HybridResult([], [Numbered(n)], k, limit, strong, floor, Absent);
      && !called
      && |hits| == RERANK_POOL && |plain| == Smaller(limit, n)
  {
    hide IsLowConfidence, Fused, EligibleIds, Pick;
    RerankGate([], [Numbered(n)], k, limit, strong, floor, reranker);
    NumberedAreEligible(n, k);
    FusedSize([], [Numbered(n)], k, limit);
    FusedSize([], [Numbered(n)], k, RERANK_POOL);
  }

  lemma NumberedAreEligible(n: nat, k: nat)
    ensures |EligibleIds([], [Numbered(n)], k)| == n
  {
    hide Order, Distance, Score, Passes, Numbered;
    var ids := Numbered(n);
    var lists := Lists([], [ids]);
    OrderMembers(lists);
    assert lists[0] == ids;
    forall id
      ensures id in EligibleIds([], [ids], k) <==> id in ids
    {
      assert [ids][0] == ids;
      assert id in ids ==> Matched([ids], id) && Mentioned(lists, id);
    }
    SetOfDistinct(ids, EligibleIds([], [ids], k));
  }

  lemma {:induction false} SetOfDistinct(ids: seq<string>, s: set<string>)
    requires Distinct(ids) && forall id :: id in s <==> id in ids
    ensures |s| == |ids|
  {
    if ids == [] {
      assert s == {};
    } else {
      var n := |ids| - 1;
      DistinctFront(ids);
      SetOfDistinct(ids[..n], s - {ids[n]});
    }
  }
}
