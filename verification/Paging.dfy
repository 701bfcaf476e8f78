/** Paging through a list with the smallest id of a page as the next cursor. */
module Paging {
  import opened Optionals
  import opened SetSizes

  const PAGE_LIMIT: nat := 1000

  /** Ids are compared only; a fixed-length hexadecimal id is its number. */
  datatype Item = Item(id: nat, body: string)

  /** The items a cursor leaves to be served. */
  function Below(items: set<Item>, before: Option<nat>): (r: set<Item>)
    ensures r <= items
  {
    set x | x in items && (before.None? || x.id < before.value)
  }

  predicate NoTwice(page: seq<Item>) {
    forall i, j :: 0 <= i < j < |page| ==> page[i] != page[j]
  }

  /** A page: the newest items below the cursor, at most a page of them, in any order. */
  ghost predicate IsPage(page: seq<Item>, items: set<Item>, before: Option<nat>) {
    var below := Below(items, before);
    && NoTwice(page)
    && |page| == (if |below| <= PAGE_LIMIT then |below| else PAGE_LIMIT)
    && (forall x :: x in page ==> x in below)
    && (forall x, y :: x in page && y in below && y !in page ==> y.id < x.id)
  }

  ghost predicate DistinctIds(items: set<Item>) {
    forall x, y :: x in items && y in items && x.id == y.id ==> x == y
  }

  function MinId(page: seq<Item>): (r: Option<nat>)
    ensures r.None? <==> page == []
    ensures r.Some? ==> (exists x :: x in page && x.id == r.value) && forall x :: x in page ==> r.value <= x.id
  {
    if page == [] then None
    else
      var front := MinId(page[..|page| - 1]);
      var last := page[|page| - 1];
      assert forall x :: x in page <==> x in page[..|page| - 1] || x == last;
      if front.None? || last.id < front.value then Some(last.id) else front
  }

  function Elements(s: seq<Item>): set<Item> {
    set x | x in s
  }

  lemma {:induction false} ElementsSize(s: seq<Item>)
    requires NoTwice(s)
    ensures |Elements(s)| == |s|
  {
    if s != [] {
      var front := s[..|s| - 1];
      ElementsSize(front);
      assert Elements(s) == Elements(front) + {s[|s| - 1]};
    }
  }

  /** A page that is not full holds all that was left. */
  lemma ShortPage(page: seq<Item>, items: set<Item>, before: Option<nat>)
    requires IsPage(page, items, before) && |page| < PAGE_LIMIT
    ensures Below(items, before) == Elements(page)
  {
    hide Below;
    ElementsSize(page);
    SubsetSize(Elements(page), Below(items, before));
  }

  /** A page leaves exactly the items below its smallest id. */
  lemma PageLeaves(page: seq<Item>, items: set<Item>, before: Option<nat>)
    requires DistinctIds(items) && IsPage(page, items, before) && page != []
    ensures Below(items, MinId(page)) == Below(items, before) - Elements(page)
  {
    hide NoTwice;
    var below, min := Below(items, before), MinId(page);
    var least :| least in page && least.id == min.value;
    assert least in below;
    forall x
      ensures x in Below(items, min) <==> x in below - Elements(page)
    {
      assert x in below && x !in page ==> x.id < least.id;
      assert x in page ==> x.id >= min.value;
    }
  }

  lemma {:induction false} TakeAway<T>(items: set<T>, left: set<T>, page: set<T>)
    requires page <= left <= items
    ensures (items - left) + page == items - (left - page)
    ensures left == page ==> (items - left) + page == items
    ensures page != {} ==> |left - page| < |left|
  {
  }

  lemma JoinPages(all: seq<Item>, page: seq<Item>)
    requires NoTwice(all) && NoTwice(page) && Elements(all) !! Elements(page)
    ensures NoTwice(all + page) && Elements(all + page) == Elements(all) + Elements(page)
  {
    forall i, j | 0 <= i < j < |all + page|
      ensures (all + page)[i] != (all + page)[j]
    {
      if i < |all| <= j {
        assert all[i] in Elements(all) && page[j - |all|] in Elements(page);
      }
    }
  }

  /**
   * Against a fixed finite set of items with distinct ids, whatever the order inside the pages, paging ends and returns
   * every item exactly once, a full last page included.
   */
  method Paginate(serve: (nat, Option<nat>) -> seq<Item>, ghost items: set<Item>) returns (all: seq<Item>)
    requires DistinctIds(items)
    requires forall n, before :: IsPage(serve(n, before), items, before)
    ensures NoTwice(all) && Elements(all) == items
  {
    hide IsPage, NoTwice, Below, Elements, DistinctIds;
    all := [];
    var before: Option<nat> := None;
    var requests := 0;
    NothingYet(items);
    while true
      invariant NoTwice(all) && Elements(all) == items - Below(items, before)
      decreases |Below(items, before)|
    {
      var page := serve(requests, before);
      requests := requests + 1;
      AddPage(all, page, items, before);
      all := all + page;
      if |page| < PAGE_LIMIT {
        break;
      }
      before := MinId(page);
      if before.None? {
        break;
      }
    }
  }

  lemma NothingYet(items: set<Item>)
    ensures NoTwice([]) && Elements([]) == items - Below(items, None)
  {
  }

  lemma AddPage(all: seq<Item>, page: seq<Item>, items: set<Item>, before: Option<nat>)
    requires DistinctIds(items) && IsPage(page, items, before)
    requires NoTwice(all) && Elements(all) == items - Below(items, before)
    ensures NoTwice(all + page)
    ensures |page| < PAGE_LIMIT ==> Elements(all + page) == items
    ensures page != [] ==>
      Elements(all + page) == items - Below(items, MinId(page)) && |Below(items, MinId(page))| < |Below(items, before)|
  {
    hide NoTwice, Below, IsPage, DistinctIds;
    PageMembers(page, items, before);
    JoinPages(all, page);
    var left := Below(items, before);
    TakeAway(items, left, Elements(page));
    if |page| < PAGE_LIMIT {
      ShortPage(page, items, before);
    }
    if page != [] {
      PageLeaves(page, items, before);
      assert page[0] in Elements(page);
    }
  }

  lemma PageMembers(page: seq<Item>, items: set<Item>, before: Option<nat>)
    requires IsPage(page, items, before)
    ensures NoTwice(page) && Elements(page) <= Below(items, before)
  {
  }
}
