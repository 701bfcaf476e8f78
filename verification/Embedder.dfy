/** The embedder: a cache pass, then one series of requests per domain, stitched back to the items' places. */
module Embedder {
  import opened SetSizes
  import opened WordForms
  import opened EmbedKeys
  import opened EmbedCaches

  const MAX_INPUTS_PER_REQUEST: nat := 128

  datatype Call = Call(texts: seq<string>, model: string, purpose: Purpose)
  datatype Datum = Datum(index: int, embedding: Vector)

  /** What is left of a request after its retries: a failure, or data in any order. */
  datatype Response = Failed | Data(data: seq<Datum>)

  /** A place of the result: a hole until a vector is put there. */
  datatype Slot = Hole | Filled(index: nat, vector: Vector, cached: bool)

  predicate FromCache(slot: Slot, i: nat) {
    slot.Filled? && slot.index == i && slot.cached
  }

  datatype EmbedResult = Rejected | Embedded(vectors: seq<Slot>, cacheHits: nat)

  /** A request as it was sent: the places of the items it asks for, and the call. */
  datatype Request = Request(places: seq<nat>, call: Call)

  /** What embedding one text on its own would give. */
  type Direct = (string, Purpose, string) -> Vector

  function Places(requests: seq<Request>): (places: seq<nat>) {
    if requests == [] then [] else Places(requests[..|requests| - 1]) + requests[|requests| - 1].places
  }

  lemma {:induction false} PlacesAppend(a: seq<Request>, b: seq<Request>)
    ensures Places(a + b) == Places(a) + Places(b)
  {
    hide Places;
    PlacesStep(b);
    if b == [] {
      assert a + b == a;
    } else {
      PlacesAppend(a, b[..|b| - 1]);
      PlacesStep(a + b);
      assert (a + b)[..|a + b| - 1] == a + b[..|b| - 1];
    }
  }

  lemma PlacesStep(r: seq<Request>)
    ensures Places(r) == if r == [] then [] else Places(r[..|r| - 1]) + r[|r| - 1].places
  {
  }

  /** The places of one domain that the cache did not fill, ascending. */
  function Missed(items: seq<Item>, hit: seq<bool>, domain: Domain): (places: seq<nat>)
    requires |hit| <= |items|
    ensures forall i: nat :: i in places <==> i < |hit| && !hit[i] && items[i].domain == domain
    ensures forall i, j :: 0 <= i < j < |places| ==> places[i] < places[j]
  {
    if hit == [] then []
    else
      var n: nat := |hit| - 1;
      var before := Missed(items, hit[..n], domain);
      assert forall i :: 0 <= i < |before| ==> before[i] in before;
      before + if !hit[n] && items[n].domain == domain then [n] else []
  }

  function Elements(places: seq<nat>): set<nat> {
    set i | i in places
  }

  lemma ElementsNone()
    ensures Elements([]) == {}
  {
  }

  function HitAt(hit: seq<bool>): set<nat> {
    set i: nat | i < |hit| && hit[i]
  }

  function Hits(hit: seq<bool>): (n: nat)
    ensures n <= |hit|
  {
    if hit == [] then 0 else Hits(hit[..|hit| - 1]) + if hit[|hit| - 1] then 1 else 0
  }

  lemma {:induction false} MissesAndHits(items: seq<Item>, hit: seq<bool>)
    requires |hit| <= |items|
    ensures |Missed(items, hit, TextDomain)| + |Missed(items, hit, CodeDomain)| + Hits(hit) == |hit|
  {
    if hit != [] {
      MissesAndHits(items, hit[..|hit| - 1]);
    }
  }

  lemma MissedStep(items: seq<Item>, hit: seq<bool>, b: bool, domain: Domain)
    requires |hit| < |items|
    ensures Missed(items, hit + [b], domain) ==
      Missed(items, hit, domain) + if !b && items[|hit|].domain == domain then [|hit|] else []
    ensures Hits(hit + [b]) == Hits(hit) + if b then 1 else 0
  {
    assert (hit + [b])[..|hit|] == hit;
  }

  // ---------- the provider ----------

  /** Every datum that points at an input of its request is that input's own vector. */
  ghost predicate Right(data: seq<Datum>, call: Call, direct: Direct) {
    forall k :: 0 <= k < |data| && 0 <= data[k].index < |call.texts| ==>
      data[k].embedding == direct(call.model, call.purpose, call.texts[data[k].index])
  }

  /** Every input of the request is answered. */
  ghost predicate Whole(data: seq<Datum>, call: Call) {
    forall j :: 0 <= j < |call.texts| ==> Answered(data, j)
  }

  ghost predicate Answered(data: seq<Datum>, j: int) {
    exists k :: 0 <= k < |data| && data[k].index == j
  }

  /** A vector depends on the text's words only, and has the configured length. */
  ghost predicate Regular(direct: Direct, dimension: nat) {
    && (forall m, p, a, b :: Words(a) == Words(b) ==> direct(m, p, a) == direct(m, p, b))
    && (forall m, p, t :: |direct(m, p, t)| == dimension)
  }

  class VoyageEmbedder {
    const cache: EmbedCache
    const dimension: nat
    const textModel: string
    const codeModel: string
    /** The n-th request's outcome: the provider need not answer twice alike. */
    const provider: (nat, Call) -> Response
    var requests: seq<Request>

    constructor (cache: EmbedCache, dimension: nat, textModel: string, codeModel: string,
                 provider: (nat, Call) -> Response)
      ensures requests == [] && this.cache == cache && this.dimension == dimension
      ensures this.textModel == textModel && this.codeModel == codeModel && this.provider == provider
    {
      this.cache, this.dimension, this.textModel, this.codeModel, this.provider :=
        cache, dimension, textModel, codeModel, provider;
      requests := [];
    }

    function ModelFor(domain: Domain): string {
      if domain == CodeDomain then codeModel else textModel
    }

    /** The vector a direct call for one item gives. */
    ghost function DirectOf(direct: Direct, item: Item, purpose: Purpose): Vector {
      direct(ModelFor(item.domain), purpose, item.text)
    }

    ghost predicate Honest(direct: Direct) {
      && Regular(direct, dimension)
      && forall n, call :: provider(n, call).Data? ==> Right(provider(n, call).data, call, direct)
    }

    /** An honest provider that answers every input of every request. */
    ghost predicate Dependable(direct: Direct) {
      && Honest(direct)
      && forall n, call :: provider(n, call).Data? && Whole(provider(n, call).data, call)
    }

    /** Every cached vector is what a direct call would give for each item with that key. */
    ghost predicate Sound(entries: seq<Entry>, direct: Direct) {
      forall e :: e in entries ==> SoundEntry(e, direct)
    }

    ghost predicate SoundEntry(e: Entry, direct: Direct) {
      forall item, purpose :: KeyOf(item, purpose) == e.key ==> e.vector == DirectOf(direct, item, purpose)
    }

    ghost predicate RightSlot(slot: Slot, item: Item, purpose: Purpose, direct: Direct) {
      slot.Filled? ==> slot.vector == DirectOf(direct, item, purpose)
    }

    /** All the time the clock can show lies within one lifetime of an entry, and no deadline passes. */
    ghost predicate NoneLate(entries: seq<Entry>) {
      && (forall a: nat, b: nat :: cache.clock(b) <= cache.clock(a) + cache.ttlMs)
      && (forall e: Entry, a: nat :: e in entries ==> cache.clock(a) <= e.expiresAt)
    }

    function KeysAt(items: seq<Item>, purpose: Purpose, places: set<nat>): set<string> {
      set i | i in places && i < |items| :: KeyOf(items[i], purpose)
    }

    /** Nothing is late, and the keys of these places are held as the youngest. */
    ghost predicate Warm(entries: seq<Entry>, items: seq<Item>, purpose: Purpose, places: set<nat>) {
      && NoneLate(entries) && DistinctKeys(entries)
      && Young(entries, KeysAt(items, purpose, places))
    }

    lemma KeysAtAre(items: seq<Item>, purpose: Purpose, places: set<nat>, n: nat)
      requires n < |items|
      ensures KeysAt(items, purpose, places + {n}) == KeysAt(items, purpose, places) + {KeyOf(items[n], purpose)}
      ensures |KeysAt(items, purpose, places)| <= |items|
    {
      hide KeyOf;
      KeysAreFew(items, purpose, places, |items|);
      assert (set i | i in places && i < |items| :: KeyOf(items[i], purpose)) == KeysAt(items, purpose, places);
    }

    lemma {:induction false} KeysAreFew(items: seq<Item>, purpose: Purpose, places: set<nat>, n: nat)
      requires n <= |items|
      ensures |set i | i in places && i < n :: KeyOf(items[i], purpose)| <= n
    {
      hide KeyOf;
      if n > 0 {
        KeysAreFew(items, purpose, places, n - 1);
        var fewer := set i | i in places && i < n - 1 :: KeyOf(items[i], purpose);
        var all := set i | i in places && i < n :: KeyOf(items[i], purpose);
        var last := KeyOf(items[n - 1], purpose);
        assert all <= fewer + {last};
        SubsetSize(all, fewer + {last});
      }
    }

    lemma GetStaysWarm(entries: seq<Entry>, items: seq<Item>, purpose: Purpose, places: set<nat>, n: nat, reading: nat)
      requires Warm(entries, items, purpose, places) && n < |items|
      ensures var key, now := KeyOf(items[n], purpose), cache.clock(reading);
        && Warm(AfterGet(entries, key, now), items, purpose, if Holds(entries, key) then places + {n} else places)
        && (Answer(entries, key, now).Some? <==> Holds(entries, key))
        && (forall k :: Holds(AfterGet(entries, key, now), k) <==> Holds(entries, k))
    {
      hide KeyOf, KeysAt, AfterGet, Answer, Holds, Young, DistinctKeys, Fits;
      var key, now := KeyOf(items[n], purpose), cache.clock(reading);
      KeysAtAre(items, purpose, places, n);
      GetKeepsYoung(entries, key, now, KeysAt(items, purpose, places));
      GetDistinct(entries, key, now);
    }

    lemma GetDistinct(entries: seq<Entry>, key: string, now: int)
      requires DistinctKeys(entries)
      ensures DistinctKeys(AfterGet(entries, key, now))
    {
      GetFits(entries, key, now, |entries| + 1);
    }

    lemma SetStaysWarm(entries: seq<Entry>, items: seq<Item>, purpose: Purpose, places: set<nat>, n: nat,
                       vector: Vector, reading: nat)
      requires Warm(entries, items, purpose, places) && n < |items| <= cache.maxEntries
      ensures var e := Entry(KeyOf(items[n], purpose), vector, cache.clock(reading) + cache.ttlMs);
        Warm(AfterSet(entries, e, cache.maxEntries), items, purpose, places + {n})
    {
      hide KeyOf, KeysAt, AfterSet, Holds, Young, DistinctKeys;
      var e := Entry(KeyOf(items[n], purpose), vector, cache.clock(reading) + cache.ttlMs);
      KeysAtAre(items, purpose, places, n);
      KeysAtAre(items, purpose, places + {n}, n);
      assert places + {n} + {n} == places + {n};
      SetKeepsYoung(entries, e, cache.maxEntries, KeysAt(items, purpose, places));
      SetDistinct(entries, e, cache.maxEntries);
    }

    lemma SetDistinct(entries: seq<Entry>, e: Entry, cap: nat)
      requires DistinctKeys(entries)
      ensures DistinctKeys(AfterSet(entries, e, cap))
    {
      EvictedKeeps(Without(entries, e.key), cap);
      SnocDistinct(Evicted(Without(entries, e.key), cap), e);
    }

    lemma StartsWarm(entries: seq<Entry>, items: seq<Item>, purpose: Purpose)
      requires NoneLate(entries) && DistinctKeys(entries)
      ensures Warm(entries, items, purpose, {})
    {
    }

    /** From one cache to a later one, the keys of more places come to be held with those of `warm`. */
    ghost predicate KeepsWarm(was: seq<Entry>, entries: seq<Entry>, items: seq<Item>, purpose: Purpose, warm: set<nat>,
                              more: set<nat>)
    {
      |items| <= cache.maxEntries && Warm(was, items, purpose, warm) ==> Warm(entries, items, purpose, warm + more)
    }

    lemma KeepsWarmNow(entries: seq<Entry>, items: seq<Item>, purpose: Purpose, warm: set<nat>)
      ensures KeepsWarm(entries, entries, items, purpose, warm, {})
    {
      assert warm + {} == warm;
    }

    lemma KeepsWarmSet(was: seq<Entry>, entries: seq<Entry>, items: seq<Item>, purpose: Purpose, warm: set<nat>,
                       more: set<nat>, n: nat, vector: Vector, reading: nat)
      requires KeepsWarm(was, entries, items, purpose, warm, more) && n < |items|
      ensures var e := Entry(KeyOf(items[n], purpose), vector, cache.clock(reading) + cache.ttlMs);
        KeepsWarm(was, AfterSet(entries, e, cache.maxEntries), items, purpose, warm, more + {n})
    {
      hide KeyOf, Warm, AfterSet;
      if |items| <= cache.maxEntries && Warm(entries, items, purpose, warm + more) {
        SetStaysWarm(entries, items, purpose, warm + more, n, vector, reading);
      }
      assert warm + more + {n} == warm + (more + {n});
    }

    lemma KeepsWarmTwice(a: seq<Entry>, b: seq<Entry>, c: seq<Entry>, items: seq<Item>, purpose: Purpose,
                         warm: set<nat>, more: seq<nat>, most: seq<nat>)
      requires KeepsWarm(a, b, items, purpose, warm, Elements(more))
      requires KeepsWarm(b, c, items, purpose, warm + Elements(more), Elements(most))
      ensures KeepsWarm(a, c, items, purpose, warm, Elements(more + most))
    {
      hide Warm;
      assert warm + Elements(more) + Elements(most) == warm + Elements(more + most);
    }

    lemma WarmInTheEnd(was: seq<Entry>, entries: seq<Entry>, items: seq<Item>, purpose: Purpose, warm: set<nat>,
                       more: set<nat>)
      requires KeepsWarm(was, entries, items, purpose, warm, more) && forall i: nat :: i < |items| ==> i in warm + more
      ensures |items| <= cache.maxEntries && Warm(was, items, purpose, warm) ==>
        NoneLate(entries) && AllHeld(entries, items, purpose)
    {
      hide Warm;
      WarmHoldsAll(entries, items, purpose, warm + more);
    }

    /** Which places are found, against what was held before the pass: those held, while no deadline passes. */
    ghost predicate Found(was: seq<Entry>, entries: seq<Entry>, items: seq<Item>, purpose: Purpose, hit: seq<bool>)
      requires |hit| <= |items|
    {
      && (forall i :: 0 <= i < |hit| && hit[i] ==> Holds(was, KeyOf(items[i], purpose)))
      && (forall k :: Holds(entries, k) ==> Holds(was, k))
      && (NoneLate(was) ==>
            && Warm(entries, items, purpose, HitAt(hit))
            && (forall k :: Holds(was, k) ==> Holds(entries, k))
            && (forall i :: 0 <= i < |hit| && Holds(was, KeyOf(items[i], purpose)) ==> hit[i]))
    }

    lemma NothingFound(was: seq<Entry>, items: seq<Item>, purpose: Purpose)
      requires DistinctKeys(was)
      ensures Found(was, was, items, purpose, [])
    {
      hide KeyOf, Holds;
      assert HitAt([]) == {};
      if NoneLate(was) {
        StartsWarm(was, items, purpose);
      }
    }

    lemma FoundStep(was: seq<Entry>, entries: seq<Entry>, items: seq<Item>, purpose: Purpose, hit: seq<bool>,
                    reading: nat)
      requires |hit| < |items| && Found(was, entries, items, purpose, hit)
      ensures var key, now := KeyOf(items[|hit|], purpose), cache.clock(reading);
        Found(was, AfterGet(entries, key, now), items, purpose, hit + [Answer(entries, key, now).Some?])
    {
      hide KeyOf, Holds, Warm, NoneLate, AfterGet, Answer;
      var n := |hit|;
      var key, now := KeyOf(items[n], purpose), cache.clock(reading);
      GetHoldsNoMore(entries, key, now);
      var longer := hit + [Answer(entries, key, now).Some?];
      assert forall i :: 0 <= i < n ==> longer[i] == hit[i];
      if NoneLate(was) {
        GetStaysWarm(entries, items, purpose, HitAt(hit), n, reading);
        assert HitAt(longer) == if Holds(entries, key) then HitAt(hit) + {n} else HitAt(hit);
      }
    }

    lemma GetHoldsNoMore(entries: seq<Entry>, key: string, now: int)
      ensures forall k :: Holds(AfterGet(entries, key, now), k) ==> Holds(entries, k)
      ensures Answer(entries, key, now).Some? ==> Holds(entries, key)
    {
      hide Holds;
      WithoutHolds(entries, key);
      if Find(entries, key).Some? {
        HoldsSnoc(Without(entries, key), Find(entries, key).value);
      }
    }

    lemma WarmHolds(entries: seq<Entry>, items: seq<Item>, purpose: Purpose, places: set<nat>, i: nat)
      requires Warm(entries, items, purpose, places) && i in places && i < |items|
      ensures Holds(entries, KeyOf(items[i], purpose)) && NoneLate(entries)
    {
      hide KeyOf;
      assert KeyOf(items[i], purpose) in KeysAt(items, purpose, places);
    }

    lemma SetIsSound(entries: seq<Entry>, item: Item, purpose: Purpose, vector: Vector, deadline: int, cap: nat,
                     direct: Direct)
      requires Regular(direct, dimension) && Sound(entries, direct) && vector == DirectOf(direct, item, purpose)
      ensures Sound(AfterSet(entries, Entry(KeyOf(item, purpose), vector, deadline), cap), direct)
    {
      hide KeyOf, Words;
      var e := Entry(KeyOf(item, purpose), vector, deadline);
      forall other, q | KeyOf(other, q) == e.key
        ensures vector == DirectOf(direct, other, q)
      {
        SameKeyIff(other, q, item, purpose);
      }
      var kept := Evicted(Without(entries, e.key), cap);
      assert forall x :: x in kept ==> x in entries;
    }

    lemma GetIsSound(entries: seq<Entry>, item: Item, purpose: Purpose, now: int, direct: Direct)
      requires Sound(entries, direct)
      ensures var r := Answer(entries, KeyOf(item, purpose), now);
        r.Some? ==> r.value == DirectOf(direct, item, purpose)
      ensures Sound(AfterGet(entries, KeyOf(item, purpose), now), direct)
    {
      hide KeyOf;
    }

    /** The first pass: what the cache holds is filled in, the other places are listed by domain. */
    method CachePass(items: seq<Item>, purpose: Purpose, ghost direct: Direct)
      returns (vectors: seq<Slot>, order: seq<Domain>, byDomain: map<Domain, seq<nat>>, hits: nat, ghost hit: seq<bool>)
      requires cache.Valid()
      modifies cache
      ensures cache.Valid()
      ensures |vectors| == |hit| == |items| && hits == Hits(hit)
      ensures forall i :: 0 <= i < |items| ==> if hit[i] then FromCache(vectors[i], i) else vectors[i].Hole?
      ensures Listed(order, byDomain, items, hit)
      ensures Found(old(cache.entries), cache.entries, items, purpose, hit)
      ensures Regular(direct, dimension) && Sound(old(cache.entries), direct) ==>
        Sound(cache.entries, direct) && AllRight(vectors, items, purpose, direct)
    {
      hide KeyOf, Sound, AfterGet, Answer, Missed, Hits, AllRight, RightSlot, Listed, Regular, Found, Holds;
      NothingFound(cache.entries, items, purpose);
      vectors := seq(|items|, _ => Hole);
      order, byDomain, hits, hit := [], map[], 0, [];
      NothingListed(items);
      HolesAreRight(vectors, items, purpose, direct);
      for n := 0 to |items|
        invariant cache.Valid()
        invariant |vectors| == |items| && |hit| == n && hits == Hits(hit)
        invariant forall i :: 0 <= i < n ==> if hit[i] then FromCache(vectors[i], i) else vectors[i].Hole?
        invariant forall i :: n <= i < |items| ==> vectors[i].Hole?
        invariant Listed(order, byDomain, items, hit)
        invariant Found(old(cache.entries), cache.entries, items, purpose, hit)
        invariant Regular(direct, dimension) && Sound(old(cache.entries), direct) ==>
            Sound(cache.entries, direct) && AllRight(vectors, items, purpose, direct)
      {
        var domain := items[n].domain;
        MissedStep(items, hit, true, domain);
        MissedStep(items, hit, false, domain);
        ghost var entries, now := cache.entries, cache.clock(cache.readings);
        FoundStep(old(cache.entries), entries, items, purpose, hit, cache.readings);
        var cached := cache.Get(KeyOf(items[n], purpose));
        if Sound(entries, direct) {
          GetIsSound(entries, items[n], purpose, now, direct);
        }
        ghost var was := vectors;
        ListStep(order, byDomain, items, hit, cached.Some?);
        if cached.Some? {
          vectors := vectors[n := Filled(n, cached.value, true)];
          PutRight(was, n, vectors[n], items, purpose, direct);
          hits := hits + 1;
        } else {
          var list := if domain in byDomain then byDomain[domain] else [];
          order := if domain in byDomain then order else order + [domain];
          byDomain := byDomain[domain := list + [n]];
        }
        hit := hit + [cached.Some?];
      }
    }

    /** One request of at most 128 inputs, its data put at the items' own places and into the cache. */
    method SendBatch(items: seq<Item>, purpose: Purpose, domain: Domain, batch: seq<nat>, before: seq<Slot>,
                     ghost direct: Direct, ghost warm: set<nat>)
      returns (ok: bool, vectors: seq<Slot>)
      requires cache.Valid() && |before| == |items|
      requires 1 <= |batch| <= MAX_INPUTS_PER_REQUEST && Addressed(items, batch, domain)
      modifies this`requests, cache
      ensures cache.Valid() && |vectors| == |items|
      ensures requests == old(requests) + [Request(batch, CallOf(items, purpose, domain, batch))]
      ensures SentOk(items, purpose, requests[|old(requests)|])
      ensures forall i :: 0 <= i < |items| ==> Kept(before, vectors, i, batch)
      ensures StaysRight(old(cache.entries), cache.entries, before, vectors, items, purpose, direct)
      ensures Dependable(direct) ==> ok && FilledAt(vectors, batch)
      ensures ok <==> GoodData(provider(|old(requests)|, CallOf(items, purpose, domain, batch)), |batch|)
      ensures Dependable(direct) ==>
        KeepsWarm(old(cache.entries), cache.entries, items, purpose, warm, Elements(batch))
    {
      hide KeyOf, Sound, AfterSet, Regular, Words, KeepsWarm, Elements, StaysRight, Honest, Dependable, FilledAt;
      ghost var done: set<nat> := {};
      KeepsWarmNow(cache.entries, items, purpose, warm);
      RightNow(cache.entries, before, items, purpose, direct);
      DependableIsGood(items, purpose, domain, batch, |requests|, direct);
      var call := CallOf(items, purpose, domain, batch);
      var response := provider(|requests|, call);
      requests := requests + [Request(batch, call)];
      vectors := before;
      if response.Failed? {
        return false, vectors;
      }
      var data := response.data;
      for k := 0 to |data|
        invariant cache.Valid() && |vectors| == |items|
        invariant requests == old(requests) + [Request(batch, call)]
        invariant forall i :: 0 <= i < |items| ==> Kept(before, vectors, i, batch)
        invariant StaysRight(old(cache.entries), cache.entries, before, vectors, items, purpose, direct)
        invariant forall m :: 0 <= m < k && 0 <= data[m].index < |batch| ==>
            |data[m].embedding| == dimension && batch[data[m].index] in done
        invariant forall i :: i in done ==> i in batch && vectors[i].Filled?
        invariant KeepsWarm(old(cache.entries), cache.entries, items, purpose, warm, done)
      {
        var datum := data[k];
        if 0 <= datum.index < |batch| {
          var target := batch[datum.index];
          if |datum.embedding| != dimension {
            return false, vectors;
          }
          ghost var entries, was := cache.entries, vectors;
          DatumIsRight(old(cache.entries), entries, before, was, items, purpose, domain, batch, |old(requests)|, k,
                       cache.readings, direct);
          KeepsWarmSet(old(cache.entries), entries, items, purpose, warm, done, target, datum.embedding,
                       cache.readings);
          done := done + {target};
          cache.Set(KeyOf(items[target], purpose), datum.embedding);
          assert target in batch;
          vectors := vectors[target := Filled(target, datum.embedding, false)];
          forall i | 0 <= i < |items|
            ensures Kept(before, vectors, i, batch)
          {
            assert Kept(before, was, i, batch);
          }
        }
      }
      ok := true;
      if Dependable(direct) {
        AllAnswered(batch, data, done, call);
        AllFilled(vectors, batch, done);
      }
    }

    lemma AllFilled(vectors: seq<Slot>, batch: seq<nat>, done: set<nat>)
      requires done == Elements(batch) && (forall i :: i in batch ==> i < |vectors|)
      requires forall i :: i in done && i < |vectors| ==> vectors[i].Filled?
      ensures FilledAt(vectors, batch)
    {
    }

    lemma DependableIsGood(items: seq<Item>, purpose: Purpose, domain: Domain, batch: seq<nat>, n: nat, direct: Direct)
      requires Addressed(items, batch, domain)
      ensures Dependable(direct) ==>
        var response := provider(n, CallOf(items, purpose, domain, batch));
        GoodData(response, |batch|) && Whole(response.data, CallOf(items, purpose, domain, batch))
    {
      hide Regular, Whole;
      if Dependable(direct) {
        var data := provider(n, CallOf(items, purpose, domain, batch)).data;
        forall k | 0 <= k < |data| && 0 <= data[k].index < |batch|
          ensures |data[k].embedding| == dimension
        {
          HonestDatum(items, purpose, domain, batch, n, k, direct);
        }
      }
    }

    /** One datum, put at its place and into the cache. */
    lemma DatumIsRight(start: seq<Entry>, entries: seq<Entry>, before: seq<Slot>, was: seq<Slot>, items: seq<Item>,
                       purpose: Purpose, domain: Domain, batch: seq<nat>, n: nat, k: nat, reading: nat, direct: Direct)
      requires |before| == |items| && |was| == |items| && Addressed(items, batch, domain)
      requires StaysRight(start, entries, before, was, items, purpose, direct)
      requires provider(n, CallOf(items, purpose, domain, batch)).Data?
      requires k < |provider(n, CallOf(items, purpose, domain, batch)).data|
      requires 0 <= provider(n, CallOf(items, purpose, domain, batch)).data[k].index < |batch|
      ensures var datum := provider(n, CallOf(items, purpose, domain, batch)).data[k];
        var target := batch[datum.index];
        var e := Entry(KeyOf(items[target], purpose), datum.embedding, cache.clock(reading) + cache.ttlMs);
        StaysRight(start, AfterSet(entries, e, cache.maxEntries), before,
                   was[target := Filled(target, datum.embedding, false)], items, purpose, direct)
    {
      hide KeyOf, Sound, AfterSet, Regular, Words, AllRight, RightSlot, Honest;
      if Honest(direct) && Sound(start, direct) {
        HonestDatum(items, purpose, domain, batch, n, k, direct);
        var datum := provider(n, CallOf(items, purpose, domain, batch)).data[k];
        var target := batch[datum.index];
        SetIsSound(entries, items[target], purpose, datum.embedding, cache.clock(reading) + cache.ttlMs,
                   cache.maxEntries, direct);
        PutRight(was, target, Filled(target, datum.embedding, false), items, purpose, direct);
      }
    }

    lemma AllAnswered(batch: seq<nat>, data: seq<Datum>, done: set<nat>, call: Call)
      requires Whole(data, call) && |call.texts| == |batch| && forall i :: i in done ==> i in batch
      requires forall m :: 0 <= m < |data| && 0 <= data[m].index < |batch| ==> batch[data[m].index] in done
      ensures done == Elements(batch)
    {
      forall i | i in batch
        ensures i in done
      {
        var j :| 0 <= j < |batch| && batch[j] == i;
        assert Answered(data, j);
      }
    }

    /** A response with data, each datum for an input of the request having the configured length. */
    ghost predicate GoodData(response: Response, n: nat) {
      && response.Data?
      && forall k :: 0 <= k < |response.data| && 0 <= response.data[k].index < n ==>
           |response.data[k].embedding| == dimension
    }

    /** The requests of one domain, in slices of 128, until one fails. */
    method SendDomain(items: seq<Item>, purpose: Purpose, domain: Domain, indices: seq<nat>, before: seq<Slot>,
                      ghost direct: Direct, ghost warm: set<nat>)
      returns (ok: bool, vectors: seq<Slot>)
      requires cache.Valid() && |before| == |items|
      requires Addressed(items, indices, domain)
      modifies this`requests, cache
      ensures cache.Valid() && |vectors| == |items|
      ensures Sent(items, purpose, old(requests), requests)
      ensures ok ==> Places(requests[|old(requests)|..]) == indices
      ensures indices == [] ==> ok && requests == old(requests)
      ensures forall i :: 0 <= i < |items| ==> Kept(before, vectors, i, indices)
      ensures StaysRight(old(cache.entries), cache.entries, before, vectors, items, purpose, direct)
      ensures Dependable(direct) ==> ok && FilledAt(vectors, indices)
      ensures Dependable(direct) ==>
        KeepsWarm(old(cache.entries), cache.entries, items, purpose, warm, Elements(indices))
    {
      hide KeyOf, Sound, Regular, Words, Honest, Dependable, RightSlot, AllRight, Kept, SentOk, FilledAt, Addressed;
      hide KeepsWarm, GoodData, Elements, StaysRight, CallOf;
      RightNow(cache.entries, before, items, purpose, direct);
      ElementsNone();
      KeepsWarmNow(cache.entries, items, purpose, warm);
      vectors := before;
      ok := true;
      KeptAll(before, indices);
      FilledNone(vectors);
      assert indices[..0] == [];
      var offset := 0;
      ghost var done: nat := 0;
      while offset < |indices|
        invariant ok && done == if offset <= |indices| then offset else |indices|
        invariant cache.Valid() && |vectors| == |items|
        invariant Sent(items, purpose, old(requests), requests)
        invariant Places(requests[|old(requests)|..]) == indices[..done]
        invariant indices == [] ==> requests == old(requests)
        invariant forall i :: 0 <= i < |items| ==> Kept(before, vectors, i, indices)
        invariant StaysRight(old(cache.entries), cache.entries, before, vectors, items, purpose, direct)
        invariant Dependable(direct) ==> FilledAt(vectors, indices[..done])
        invariant Dependable(direct) ==>
            KeepsWarm(old(cache.entries), cache.entries, items, purpose, warm, Elements(indices[..done]))
      {
        var end := if offset + MAX_INPUTS_PER_REQUEST <= |indices| then offset + MAX_INPUTS_PER_REQUEST else |indices|;
        var batch := indices[offset..end];
        ghost var sent, was := requests[|old(requests)|..], vectors;
        AddressedSlice(items, indices, offset, end, domain);
        ghost var held := cache.entries;
        ok, vectors := SendBatch(items, purpose, domain, batch, vectors, direct, warm + Elements(indices[..done]));
        if Dependable(direct) {
          KeepsWarmTwice(old(cache.entries), held, cache.entries, items, purpose, warm, indices[..done], batch);
        }
        RightTwice(old(cache.entries), held, cache.entries, before, was, vectors, items, purpose, direct);
        assert requests[|old(requests)|..] == sent + [Request(batch, CallOf(items, purpose, domain, batch))];
        assert sent == requests[|old(requests)|..][..|sent|];
        KeptTwice(before, was, vectors, batch, indices);
        if !ok {
          return;
        }
        SliceJoin(indices, offset, end);
        FilledTwice(was, vectors, indices[..offset], batch);
        offset := offset + MAX_INPUTS_PER_REQUEST;
        done := end;
      }
      assert indices[..|indices|] == indices;
    }

    /** The requests of all domains, in the order of their first miss, until one fails. */
    method SendAll(items: seq<Item>, purpose: Purpose, order: seq<Domain>, byDomain: map<Domain, seq<nat>>,
                   before: seq<Slot>,
                   ghost direct: Direct, ghost warm: set<nat>)
      returns (ok: bool, vectors: seq<Slot>)
      requires cache.Valid() && |before| == |items|
      requires forall d :: d in order ==> d in byDomain && Addressed(items, byDomain[d], d)
      modifies this`requests, cache
      ensures cache.Valid() && |vectors| == |items|
      ensures Sent(items, purpose, old(requests), requests)
      ensures ok ==> Places(requests[|old(requests)|..]) == Concat(order, byDomain)
      ensures Concat(order, byDomain) == [] ==> ok && requests == old(requests)
      ensures forall i :: 0 <= i < |items| ==> Kept(before, vectors, i, Concat(order, byDomain))
      ensures StaysRight(old(cache.entries), cache.entries, before, vectors, items, purpose, direct)
      ensures Dependable(direct) ==> ok && FilledAt(vectors, Concat(order, byDomain))
      ensures Dependable(direct) ==>
        KeepsWarm(old(cache.entries), cache.entries, items, purpose, warm, Elements(Concat(order, byDomain)))
    {
      hide KeyOf, Sound, Regular, Words, Honest, Dependable, RightSlot, AllRight, Concat, Kept, SentOk, FilledAt;
      hide KeepsWarm, Elements, StaysRight;
      RightNow(cache.entries, before, items, purpose, direct);
      ElementsNone();
      KeepsWarmNow(cache.entries, items, purpose, warm);
      vectors := before;
      ok := true;
      ConcatNone(byDomain);
      KeptAll(before, Concat(order, byDomain));
      FilledNone(vectors);
      assert order[..0] == [];
      for k := 0 to |order|
        invariant cache.Valid() && |vectors| == |items| && ok
        invariant Sent(items, purpose, old(requests), requests)
        invariant Places(requests[|old(requests)|..]) == Concat(order[..k], byDomain)
        invariant Concat(order, byDomain) == [] ==> requests == old(requests)
        invariant forall i :: 0 <= i < |items| ==> Kept(before, vectors, i, Concat(order, byDomain))
        invariant StaysRight(old(cache.entries), cache.entries, before, vectors, items, purpose, direct)
        invariant Dependable(direct) ==> FilledAt(vectors, Concat(order[..k], byDomain))
        invariant Dependable(direct) ==>
            KeepsWarm(old(cache.entries), cache.entries, items, purpose, warm, Elements(Concat(order[..k], byDomain)))
      {
        var domain := order[k];
        ConcatStep(order, byDomain, k);
        ConcatHas(order, byDomain, k);
        assert Concat(order, byDomain) == [] ==> byDomain[domain] == [] by {
          assert byDomain[domain] != [] ==> byDomain[domain][0] in byDomain[domain];
        }
        ghost var sent, mid, was := requests[|old(requests)|..], requests, vectors;
        ghost var warmer := warm + Elements(Concat(order[..k], byDomain));
        ghost var held := cache.entries;
        ok, vectors := SendDomain(items, purpose, domain, byDomain[domain], vectors, direct, warmer);
        if Dependable(direct) {
          KeepsWarmTwice(old(cache.entries), held, cache.entries, items, purpose, warm,
                         Concat(order[..k], byDomain), byDomain[domain]);
        }
        RightTwice(old(cache.entries), held, cache.entries, before, was, vectors, items, purpose, direct);
        assert requests[|old(requests)|..] == sent + requests[|mid|..];
        PlacesAppend(sent, requests[|mid|..]);
        KeptTwice(before, was, vectors, byDomain[domain], Concat(order, byDomain));
        FilledTwice(was, vectors, Concat(order[..k], byDomain), byDomain[domain]);
        if !ok {
          return;
        }
      }
      assert order[..|order|] == order;
    }

    /**
     * Whatever the cache held before and whatever the provider answers: items that the cache held are not asked for,
     * every other item is asked for once, at most 128 to a request. From a sound cache and an honest provider every
     * vector returned is the one a direct call for that item alone gives, and the cache stays sound; a provider that
     * answers every input leaves no place empty.
     */
    method Embed(items: seq<Item>, purpose: Purpose, ghost direct: Direct) returns (r: EmbedResult)
      requires cache.Valid()
      modifies this`requests, cache
      ensures cache.Valid()
      ensures Sent(items, purpose, old(requests), requests)
      ensures r.Embedded? ==>
        && |r.vectors| == |items|
        && |Places(requests[|old(requests)|..])| + r.cacheHits == |items|
        && forall i: nat :: i < |items| ==>
             && (i in Places(requests[|old(requests)|..]) <==> !FromCache(r.vectors[i], i))
             && (r.vectors[i].Filled? ==> r.vectors[i].index == i)
      ensures Honest(direct) && Sound(old(cache.entries), direct) ==>
        Sound(cache.entries, direct) && (r.Embedded? ==> AllRight(r.vectors, items, purpose, direct))
      ensures Dependable(direct) ==> r.Embedded? && forall i :: 0 <= i < |items| ==> r.vectors[i].Filled?
      ensures r.Embedded? ==> forall i: nat :: i < |items| && FromCache(r.vectors[i], i) ==>
        Holds(old(cache.entries), KeyOf(items[i], purpose))
      ensures NoneLate(old(cache.entries)) && AllHeld(old(cache.entries), items, purpose) ==>
        r.Embedded? && requests == old(requests) && r.cacheHits == |items|
      ensures NoneLate(old(cache.entries)) && Dependable(direct) && |items| <= cache.maxEntries ==>
        NoneLate(cache.entries) && AllHeld(cache.entries, items, purpose)
    {
      hide KeyOf, Sound, Regular, Words, Honest, Dependable, RightSlot, AllRight, Concat, Sent, Warm, Found, Holds;
      hide NoneLate, AllHeld, KeepsWarm;
      var vectors, order, byDomain, hits;
      ghost var hit;
      vectors, order, byDomain, hits, hit := CachePass(items, purpose, direct);
      ghost var passed := vectors;
      AllPlaces(order, byDomain, items, hit);
      ListedIsAddressed(order, byDomain, items, hit);
      HonestIsRegular(direct);
      var ok;
      ghost var was, cached := old(cache.entries), cache.entries;
      FoundTells(was, cached, items, purpose, hit, order, byDomain);
      ok, vectors := SendAll(items, purpose, order, byDomain, vectors, direct, HitAt(hit));
      if Dependable(direct) {
        WarmInTheEnd(cached, cache.entries, items, purpose, HitAt(hit), Elements(Concat(order, byDomain)));
      }
      if !ok {
        return Rejected;
      }
      forall i: nat | i < |items|
        ensures i in Concat(order, byDomain) <==> !FromCache(vectors[i], i)
        ensures vectors[i].Filled? ==> vectors[i].index == i
        ensures Dependable(direct) ==> vectors[i].Filled?
      {
        assert Kept(passed, vectors, i, Concat(order, byDomain));
        assert hit[i] ==> FromCache(passed[i], i);
      }
      r := Embedded(vectors, hits);
    }

    /** The cache has every item's vector. */
    ghost predicate AllHeld(entries: seq<Entry>, items: seq<Item>, purpose: Purpose) {
      forall i :: 0 <= i < |items| ==> Holds(entries, KeyOf(items[i], purpose))
    }

    lemma WarmHoldsAll(entries: seq<Entry>, items: seq<Item>, purpose: Purpose, places: set<nat>)
      ensures Warm(entries, items, purpose, places) && (forall i: nat :: i < |items| ==> i in places) ==>
        NoneLate(entries) && AllHeld(entries, items, purpose)
    {
      hide KeyOf, Holds, Warm, NoneLate;
      if Warm(entries, items, purpose, places) && forall i: nat :: i < |items| ==> i in places {
        WarmIsTimely(entries, items, purpose, places);
        forall i: nat | i < |items|
          ensures Holds(entries, KeyOf(items[i], purpose))
        {
          WarmHolds(entries, items, purpose, places, i);
        }
      }
    }

    lemma WarmIsTimely(entries: seq<Entry>, items: seq<Item>, purpose: Purpose, places: set<nat>)
      requires Warm(entries, items, purpose, places)
      ensures NoneLate(entries)
    {
    }

    /** What the pass found leaves nothing to ask for when everything was held. */
    lemma FoundTells(was: seq<Entry>, entries: seq<Entry>, items: seq<Item>, purpose: Purpose, hit: seq<bool>,
                     order: seq<Domain>, byDomain: map<Domain, seq<nat>>)
      requires |hit| == |items| && Found(was, entries, items, purpose, hit) && Listed(order, byDomain, items, hit)
      requires forall d :: d in order ==> d in byDomain
      ensures forall i :: 0 <= i < |hit| && hit[i] ==> Holds(was, KeyOf(items[i], purpose))
      ensures NoneLate(was) ==> Warm(entries, items, purpose, HitAt(hit))
      ensures forall i: nat :: i < |items| ==> i in HitAt(hit) + Elements(Concat(order, byDomain))
      ensures NoneLate(was) && AllHeld(was, items, purpose) ==>
        Concat(order, byDomain) == [] && Hits(hit) == |items|
    {
      hide KeyOf, Holds, Warm, NoneLate, Listed, Concat;
      AllPlaces(order, byDomain, items, hit);
      var asked := Concat(order, byDomain);
      assert asked != [] ==> asked[0] in asked;
    }

    /** What every request of a call looks like. */
    ghost predicate Sent(items: seq<Item>, purpose: Purpose, before: seq<Request>, after: seq<Request>) {
      && before <= after
      && forall n :: |before| <= n < |after| ==> SentOk(items, purpose, after[n])
    }

    ghost predicate SentOk(items: seq<Item>, purpose: Purpose, r: Request) {
      && 1 <= |r.places| == |r.call.texts| <= MAX_INPUTS_PER_REQUEST
      && r.call.purpose == purpose
      && forall j :: 0 <= j < |r.places| ==>
           && r.places[j] < |items|
           && r.call.texts[j] == items[r.places[j]].text
           && r.call.model == (if items[r.places[j]].domain.CodeDomain? then codeModel else textModel)
    }

    ghost predicate AllRight(vectors: seq<Slot>, items: seq<Item>, purpose: Purpose, direct: Direct)
      requires |vectors| == |items|
    {
      forall i :: 0 <= i < |items| ==> RightSlot(vectors[i], items[i], purpose, direct)
    }

    lemma HolesAreRight(slots: seq<Slot>, items: seq<Item>, purpose: Purpose, direct: Direct)
      requires |slots| == |items| && forall i :: 0 <= i < |slots| ==> slots[i].Hole?
      ensures AllRight(slots, items, purpose, direct)
    {
    }

    lemma PutRight(slots: seq<Slot>, n: nat, slot: Slot, items: seq<Item>, purpose: Purpose, direct: Direct)
      requires |slots| == |items| && n < |items| && slot.Filled?
      ensures AllRight(slots, items, purpose, direct) && slot.vector == DirectOf(direct, items[n], purpose)
        ==> AllRight(slots[n := slot], items, purpose, direct)
    {
    }

    /** With an honest provider a sound cache stays sound, and vectors that are right stay right. */
    ghost predicate StaysRight(was: seq<Entry>, entries: seq<Entry>, before: seq<Slot>, vectors: seq<Slot>,
                               items: seq<Item>, purpose: Purpose, direct: Direct)
      requires |before| == |items| && |vectors| == |items|
    {
      Honest(direct) && Sound(was, direct) ==>
        && Sound(entries, direct)
        && (AllRight(before, items, purpose, direct) ==> AllRight(vectors, items, purpose, direct))
    }

    lemma RightTwice(a: seq<Entry>, b: seq<Entry>, c: seq<Entry>, before: seq<Slot>, mid: seq<Slot>, after: seq<Slot>,
                     items: seq<Item>, purpose: Purpose, direct: Direct)
      requires |before| == |items| && |mid| == |items| && |after| == |items|
      requires StaysRight(a, b, before, mid, items, purpose, direct)
      requires StaysRight(b, c, mid, after, items, purpose, direct)
      ensures StaysRight(a, c, before, after, items, purpose, direct)
    {
      hide Honest, Sound, AllRight;
    }

    lemma RightNow(entries: seq<Entry>, slots: seq<Slot>, items: seq<Item>, purpose: Purpose, direct: Direct)
      requires |slots| == |items|
      ensures StaysRight(entries, entries, slots, slots, items, purpose, direct)
    {
      hide Honest, Sound, AllRight;
    }

    lemma HonestIsRegular(direct: Direct)
      ensures Honest(direct) ==> Regular(direct, dimension)
      ensures Dependable(direct) ==> Honest(direct)
    {
      hide Regular;
    }

    function CallOf(items: seq<Item>, purpose: Purpose, domain: Domain, batch: seq<nat>): (call: Call)
      requires forall j :: 0 <= j < |batch| ==> batch[j] < |items|
      ensures |call.texts| == |batch| && call.purpose == purpose && call.model == ModelFor(domain)
      ensures forall j :: 0 <= j < |batch| ==> call.texts[j] == items[batch[j]].text
    {
      Call(seq(|batch|, j requires 0 <= j < |batch| => items[batch[j]].text), ModelFor(domain), purpose)
    }

    lemma HonestDatum(items: seq<Item>, purpose: Purpose, domain: Domain, batch: seq<nat>, n: nat, k: nat,
                      direct: Direct)
      requires Honest(direct)
      requires forall j :: 0 <= j < |batch| ==> batch[j] < |items| && items[batch[j]].domain == domain
      requires provider(n, CallOf(items, purpose, domain, batch)).Data?
      requires k < |provider(n, CallOf(items, purpose, domain, batch)).data|
      ensures var datum := provider(n, CallOf(items, purpose, domain, batch)).data[k];
        0 <= datum.index < |batch| ==>
          datum.embedding == DirectOf(direct, items[batch[datum.index]], purpose) && |datum.embedding| == dimension
      ensures Regular(direct, dimension)
    {
      hide Words;
      var call := CallOf(items, purpose, domain, batch);
      var data := provider(n, call).data;
      assert Right(data, call, direct);
      if 0 <= data[k].index < |batch| {
        var at := data[k].index;
        assert data[k].embedding == direct(call.model, call.purpose, call.texts[at]);
      }
    }
  }

  /** A place keeps its slot unless it was asked for; then it may hold a fresh vector. */
  ghost predicate Kept(before: seq<Slot>, after: seq<Slot>, i: nat, asked: seq<nat>)
    requires i < |before| && i < |after|
  {
    after[i] == before[i] || (i in asked && after[i].Filled? && after[i].index == i && !after[i].cached)
  }

  /** Places that exist and whose items are of one domain. */
  predicate Addressed(items: seq<Item>, places: seq<nat>, domain: Domain) {
    forall j :: 0 <= j < |places| ==> places[j] < |items| && items[places[j]].domain == domain
  }

  lemma AddressedSlice(items: seq<Item>, places: seq<nat>, from: nat, to: nat, domain: Domain)
    requires Addressed(items, places, domain) && from <= to <= |places|
    ensures Addressed(items, places[from..to], domain)
  {
  }

  ghost predicate FilledAt(slots: seq<Slot>, places: seq<nat>) {
    forall i :: 0 <= i < |slots| && i in places ==> slots[i].Filled?
  }

  lemma FilledNone(slots: seq<Slot>)
    ensures FilledAt(slots, [])
  {
  }

  lemma FilledTwice(before: seq<Slot>, after: seq<Slot>, a: seq<nat>, b: seq<nat>)
    requires |before| == |after| && forall i :: 0 <= i < |before| ==> Kept(before, after, i, b)
    ensures FilledAt(before, a) && FilledAt(after, b) ==> FilledAt(after, a + b)
  {
    if FilledAt(before, a) && FilledAt(after, b) {
      forall i | 0 <= i < |after| && i in a + b
        ensures after[i].Filled?
      {
        assert Kept(before, after, i, b);
      }
    }
  }

  lemma KeptAll(slots: seq<Slot>, asked: seq<nat>)
    ensures forall i :: 0 <= i < |slots| ==> Kept(slots, slots, i, asked)
  {
  }

  lemma ListedIsAddressed(order: seq<Domain>, byDomain: map<Domain, seq<nat>>, items: seq<Item>, hit: seq<bool>)
    requires |hit| <= |items| && Listed(order, byDomain, items, hit)
    ensures forall d :: d in order ==> d in byDomain && Addressed(items, byDomain[d], d)
  {
    forall d | d in order
      ensures Addressed(items, byDomain[d], d)
    {
      var places := Missed(items, hit, d);
      assert forall j :: 0 <= j < |places| ==> places[j] in places;
    }
  }

  lemma KeptTwice(a: seq<Slot>, b: seq<Slot>, c: seq<Slot>, part: seq<nat>, all: seq<nat>)
    requires |a| == |b| == |c| && forall i :: i in part ==> i in all
    requires forall i :: 0 <= i < |a| ==> Kept(a, b, i, all)
    requires forall i :: 0 <= i < |a| ==> Kept(b, c, i, part)
    ensures forall i :: 0 <= i < |a| ==> Kept(a, c, i, all)
  {
    forall i | 0 <= i < |a|
      ensures Kept(a, c, i, all)
    {
      assert Kept(a, b, i, all) && Kept(b, c, i, part);
    }
  }

  lemma SliceJoin(s: seq<nat>, from: nat, to: nat)
    requires from <= to <= |s|
    ensures s[..from] + s[from..to] == s[..to]
  {
  }

  lemma ConcatNone(byDomain: map<Domain, seq<nat>>)
    ensures Concat([], byDomain) == []
  {
  }

  lemma {:induction false} ConcatHas(order: seq<Domain>, byDomain: map<Domain, seq<nat>>, n: nat)
    requires n < |order| && forall d :: d in order ==> d in byDomain
    ensures forall i :: i in byDomain[order[n]] ==> i in Concat(order, byDomain)
    decreases |order|
  {
    ConcatStep(order, byDomain, |order| - 1);
    assert order[..|order|] == order;
    if n < |order| - 1 {
      ConcatHas(order[..|order| - 1], byDomain, n);
    }
  }

  datatype EmbedRequest = EmbedRequest(items: seq<Item>, purpose: Purpose)

  /** What the caller of one request may rely on: every vector returned is the one a direct call for its item gives. */
  ghost predicate AnswersDirectly(e: VoyageEmbedder, request: EmbedRequest, r: EmbedResult, direct: Direct) {
    r.Embedded? ==> |r.vectors| == |request.items| && e.AllRight(r.vectors, request.items, request.purpose, direct)
  }

  /**
   * Any history of requests on one embedder, from an empty cache: whatever was cached, evicted or expired on the way,
   * and however earlier requests failed, every request is answered as if each of its items had been embedded on its
   * own.
   */
  method EmbedInTurn(e: VoyageEmbedder, history: seq<EmbedRequest>, ghost direct: Direct)
    returns (results: seq<EmbedResult>)
    requires e.cache.Valid() && e.cache.entries == [] && e.Honest(direct)
    modifies e`requests, e.cache
    ensures |results| == |history|
    ensures forall i :: 0 <= i < |history| ==> AnswersDirectly(e, history[i], results[i], direct)
    ensures e.Dependable(direct) ==> forall i :: 0 <= i < |history| ==>
      results[i].Embedded? && forall k :: 0 <= k < |results[i].vectors| ==> results[i].vectors[k].Filled?
  {
    hide AnswersDirectly;
    results := [];
    for n := 0 to |history|
      invariant e.cache.Valid() && e.Sound(e.cache.entries, direct) && |results| == n
      invariant forall i :: 0 <= i < n ==> AnswersDirectly(e, history[i], results[i], direct)
      invariant e.Dependable(direct) ==> forall i :: 0 <= i < n ==>
          results[i].Embedded? && forall k :: 0 <= k < |results[i].vectors| ==> results[i].vectors[k].Filled?
    {
      var r := e.Embed(history[n].items, history[n].purpose, direct);
      assert AnswersDirectly(e, history[n], r, direct) by {
        DirectlyIf(e, history[n], r, direct);
      }
      results := results + [r];
    }
  }

  /**
   * The same items again, while no deadline passes and the cache has room for them: the second call asks for nothing
   * and takes every vector from the cache, so that both calls together ask for what the first one's cache lacked.
   */
  method EmbedTwice(e: VoyageEmbedder, request: EmbedRequest, ghost direct: Direct)
    returns (first: EmbedResult, second: EmbedResult)
    requires e.cache.Valid() && e.NoneLate(e.cache.entries) && e.Dependable(direct)
    requires |request.items| <= e.cache.maxEntries
    modifies e`requests, e.cache
    ensures first.Embedded? && second.Embedded? && second.cacheHits == |request.items|
    ensures old(e.requests) <= e.requests
    ensures |Places(e.requests[|old(e.requests)|..])| + first.cacheHits == |request.items|
  {
    first := e.Embed(request.items, request.purpose, direct);
    second := e.Embed(request.items, request.purpose, direct);
  }

  lemma DirectlyIf(e: VoyageEmbedder, request: EmbedRequest, r: EmbedResult, direct: Direct)
    requires r.Embedded? ==>
      |r.vectors| == |request.items| && e.AllRight(r.vectors, request.items, request.purpose, direct)
    ensures AnswersDirectly(e, request, r, direct)
  {
  }

  /** What the first pass hands on: for each domain with a miss its missed places, domains by first miss. */
  ghost predicate Listed(order: seq<Domain>, byDomain: map<Domain, seq<nat>>, items: seq<Item>, hit: seq<bool>)
    requires |hit| <= |items|
  {
    && (forall d :: d in order <==> d in byDomain)
    && (forall i, j :: 0 <= i < j < |order| ==> order[i] != order[j])
    && (forall d :: if d in byDomain then byDomain[d] == Missed(items, hit, d) else Missed(items, hit, d) == [])
  }

  lemma NothingListed(items: seq<Item>)
    ensures Listed([], map[], items, []) && Hits([]) == 0
  {
  }

  lemma ListStep(order: seq<Domain>, byDomain: map<Domain, seq<nat>>, items: seq<Item>, hit: seq<bool>, b: bool)
    requires |hit| < |items| && Listed(order, byDomain, items, hit)
    ensures b ==> Listed(order, byDomain, items, hit + [b])
    ensures !b ==>
      var d := items[|hit|].domain;
      var list := if d in byDomain then byDomain[d] else [];
      Listed(if d in byDomain then order else order + [d], byDomain[d := list + [|hit|]], items, hit + [b])
  {
    hide Missed;
    forall d
      ensures Missed(items, hit + [b], d) ==
        Missed(items, hit, d) + if !b && items[|hit|].domain == d then [|hit|] else []
    {
      MissedStep(items, hit, b, d);
    }
  }

  function Concat(order: seq<Domain>, byDomain: map<Domain, seq<nat>>): (places: seq<nat>)
    requires forall d :: d in order ==> d in byDomain
  {
    if order == [] then []
    else
      var n := |order| - 1;
      assert forall d :: d in order[..n] ==> d in order;
      Concat(order[..n], byDomain) + byDomain[order[n]]
  }

  lemma ConcatStep(order: seq<Domain>, byDomain: map<Domain, seq<nat>>, n: nat)
    requires n < |order| && forall d :: d in order ==> d in byDomain
    ensures Concat(order[..n + 1], byDomain) == Concat(order[..n], byDomain) + byDomain[order[n]]
  {
    assert order[..n + 1][..n] == order[..n];
  }

  /** The listed places are the misses, each once. */
  lemma AllPlaces(order: seq<Domain>, byDomain: map<Domain, seq<nat>>, items: seq<Item>, hit: seq<bool>)
    requires |hit| == |items| && Listed(order, byDomain, items, hit)
    ensures |Concat(order, byDomain)| + Hits(hit) == |items|
    ensures forall i: nat :: i in Concat(order, byDomain) <==> i < |items| && !hit[i]
  {
    hide Missed, Concat, Listed, PartOf;
    MissesAndHits(items, hit);
    ListedParts(order, byDomain, items, hit);
    ConcatIs(order, byDomain);
    MissedMembers(items, hit);
  }

  lemma ListedParts(order: seq<Domain>, byDomain: map<Domain, seq<nat>>, items: seq<Item>, hit: seq<bool>)
    requires |hit| <= |items| && Listed(order, byDomain, items, hit)
    ensures forall d :: d in order <==> d in byDomain
    ensures forall i, j :: 0 <= i < j < |order| ==> order[i] != order[j]
    ensures PartOf(byDomain, TextDomain) == Missed(items, hit, TextDomain)
    ensures PartOf(byDomain, CodeDomain) == Missed(items, hit, CodeDomain)
  {
    hide Missed;
  }

  lemma MissedMembers(items: seq<Item>, hit: seq<bool>)
    requires |hit| <= |items|
    ensures forall i: nat :: i in Missed(items, hit, TextDomain) || i in Missed(items, hit, CodeDomain) <==>
      i < |hit| && !hit[i]
  {
    hide Missed;
  }

  function PartOf(byDomain: map<Domain, seq<nat>>, d: Domain): seq<nat> {
    if d in byDomain then byDomain[d] else []
  }

  lemma ConcatIs(order: seq<Domain>, byDomain: map<Domain, seq<nat>>)
    requires forall d :: d in order <==> d in byDomain
    requires forall i, j :: 0 <= i < j < |order| ==> order[i] != order[j]
    ensures Concat(order, byDomain) == PartOf(byDomain, TextDomain) + PartOf(byDomain, CodeDomain)
         || Concat(order, byDomain) == PartOf(byDomain, CodeDomain) + PartOf(byDomain, TextDomain)
  {
    hide Concat;
    DomainOrders(order);
    assert TextDomain in order <==> TextDomain in byDomain;
    assert CodeDomain in order <==> CodeDomain in byDomain;
    if |order| == 2 {
      ConcatTwo(order[0], order[1], byDomain);
    } else if |order| == 1 {
      ConcatOne(order[0], byDomain);
    } else {
      ConcatNone(byDomain);
    }
  }

  lemma ConcatOne(a: Domain, byDomain: map<Domain, seq<nat>>)
    requires a in byDomain
    ensures Concat([a], byDomain) == byDomain[a]
  {
    ConcatStep([a], byDomain, 0);
    assert [a][..1] == [a];
  }

  lemma ConcatTwo(a: Domain, b: Domain, byDomain: map<Domain, seq<nat>>)
    requires a in byDomain && b in byDomain
    ensures Concat([a, b], byDomain) == byDomain[a] + byDomain[b]
  {
    ConcatOne(a, byDomain);
    ConcatStep([a, b], byDomain, 1);
    assert [a, b][..1] == [a] && [a, b][..2] == [a, b];
  }

  lemma DomainOrders(order: seq<Domain>)
    requires forall i, j :: 0 <= i < j < |order| ==> order[i] != order[j]
    ensures order == [] || order == [TextDomain] || order == [CodeDomain]
      || order == [TextDomain, CodeDomain] || order == [CodeDomain, TextDomain]
  {
    assert forall i :: 0 <= i < |order| ==> order[i] == TextDomain || order[i] == CodeDomain;
    assert |order| > 2 ==> order[0] != order[1] && order[1] != order[2] && order[0] != order[2];
  }
}
