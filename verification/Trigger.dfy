/** When an utterance may start a retrieval: the two lanes, the cooldown, and the question ceilings. */
module Trigger {
  import opened Optionals

  const UTTERANCE_THRESHOLD: nat := 1
  const COOLDOWN_MS: nat := 10_000
  const WINDOW_UTTERANCES: nat := 8
  const QUESTION_MAX_PER_MIN: nat := 6
  const QUESTION_MAX_PER_MEETING: nat := 60
  const QUESTION_RATE_WINDOW_MS: nat := 60_000

  datatype Lane = Question | Ambient

  /** One retrieval that fired: the call's clock, its lane, and whether it was exempt from the cooldown. */
  datatype Fire = Fire(at: int, lane: Lane, exempt: bool)

  datatype Outcome = Fired | BelowThreshold | CoolingDown

  /** The gate's state. lastAt is None for the "never fired" sentinel, minus infinity. */
  datatype Gate = Gate(utterances: nat, lastAt: Option<int>, questionTimes: seq<int>, questionCount: nat,
    fires: seq<Fire>)

  const CLOSED: Gate := Gate(0, None, [], 0, [])

  /**
   * A call enters when its utterance arrives, and commits after awaiting its embedding; other calls may do either
   * between.
   */
  datatype Step = Enter | Commit(lane: Lane, now: int)

  function Recent(times: seq<int>, now: int): (kept: seq<int>)
    ensures |kept| <= |times|
  {
    if times == [] then []
    else if now - times[0] < QUESTION_RATE_WINDOW_MS then [times[0]] + Recent(times[1..], now)
    else Recent(times[1..], now)
  }

  predicate OverCeiling(g: Gate, now: int) {
    |Recent(g.questionTimes, now)| >= QUESTION_MAX_PER_MIN || g.questionCount >= QUESTION_MAX_PER_MEETING
  }

  function Decide(g: Gate, lane: Lane, now: int): Outcome {
    var mustRespectCooldown := lane.Ambient? || OverCeiling(g, now);
    if g.utterances < UTTERANCE_THRESHOLD then BelowThreshold
    else if mustRespectCooldown && g.lastAt.Some? && now - g.lastAt.value < COOLDOWN_MS then CoolingDown
    else Fired
  }

  function Next(g: Gate, s: Step): Gate {
    match s
    case Enter => g.(utterances := g.utterances + 1)
    case Commit(lane, now) =>
      var pruned := Recent(g.questionTimes, now);
      if !Decide(g, lane, now).Fired? then g.(questionTimes := pruned)
      else
        Gate(0, Some(now),
             if lane.Question? then pruned + [now] else pruned,
             if lane.Question? then g.questionCount + 1 else g.questionCount,
             g.fires + [Fire(now, lane, lane.Question? && !OverCeiling(g, now))])
  }

  /** The state after all steps, the last step last. */
  function Run(g: Gate, steps: seq<Step>): Gate {
    if steps == [] then g else Next(Run(g, steps[..|steps| - 1]), steps[|steps| - 1])
  }

  // ---------- the meeting's runtime ----------

  class RetrievalRuntime {
    var recentFinals: seq<string>
    var utteranceCountSinceLastRetrieval: nat
    var lastRetrievalAt: Option<int>
    var questionFireTimestamps: seq<int>
    var questionFireCount: nat
    ghost var fires: seq<Fire>
    ghost var heard: seq<string>

    ghost predicate Valid()
      reads this
    {
      recentFinals == heard[if |heard| <= WINDOW_UTTERANCES then 0 else |heard| - WINDOW_UTTERANCES..]
    }

    ghost function View(): Gate
      reads this
    {
      Gate(utteranceCountSinceLastRetrieval, lastRetrievalAt, questionFireTimestamps, questionFireCount, fires)
    }

    constructor ()
      ensures Valid() && View() == CLOSED && heard == []
    {
      recentFinals, utteranceCountSinceLastRetrieval, lastRetrievalAt := [], 0, None;
      questionFireTimestamps, questionFireCount := [], 0;
      fires, heard := [], [];
    }

    /** The top of maybeRetrieveAndEmit: the rolling window and the utterance count. */
    method Hear(utteranceText: string)
      requires Valid()
      modifies this
      ensures Valid() && heard == old(heard) + [utteranceText]
      ensures View() == Next(old(View()), Enter)
    {
      recentFinals := recentFinals + [utteranceText];
      heard := heard + [utteranceText];
      while |recentFinals| > WINDOW_UTTERANCES
        invariant heard == old(heard) + [utteranceText]
        invariant View() == old(View())
        invariant |recentFinals| <= |heard| && recentFinals == heard[|heard| - |recentFinals|..]
        invariant |recentFinals| >= WINDOW_UTTERANCES || recentFinals == heard
        decreases |recentFinals|
      {
        recentFinals := recentFinals[1..];
      }
      utteranceCountSinceLastRetrieval := utteranceCountSinceLastRetrieval + 1;
    }

    /** The synchronous gate and commit; `now` was read before the embedding was awaited. */
    method TryFire(lane: Lane, now: int) returns (outcome: Outcome)
      requires Valid()
      modifies this
      ensures Valid() && heard == old(heard)
      ensures outcome == Decide(old(View()), lane, now)
      ensures View() == Next(old(View()), Commit(lane, now))
    {
      questionFireTimestamps := Recent(questionFireTimestamps, now);
      var overQuestionCeiling :=
        |questionFireTimestamps| >= QUESTION_MAX_PER_MIN || questionFireCount >= QUESTION_MAX_PER_MEETING;
      var mustRespectCooldown := lane.Ambient? || overQuestionCeiling;
      if utteranceCountSinceLastRetrieval < UTTERANCE_THRESHOLD {
        return BelowThreshold;
      }
      if mustRespectCooldown && lastRetrievalAt.Some? && now - lastRetrievalAt.value < COOLDOWN_MS {
        return CoolingDown;
      }
      utteranceCountSinceLastRetrieval := 0;
      lastRetrievalAt := Some(now);
      if lane.Question? {
        questionFireTimestamps := questionFireTimestamps + [now];
        questionFireCount := questionFireCount + 1;
      }
      fires := fires + [Fire(now, lane, lane.Question? && !overQuestionCeiling)];
      return Fired;
    }
  }

  // ---------- counting fires ----------

  datatype Kind = All | Questions | Exempt | Cooled

  predicate IsOf(f: Fire, kind: Kind) {
    match kind
    case All => true
    case Questions => f.lane.Question?
    case Exempt => f.exempt
    case Cooled => !f.exempt
  }

  /** How many fires of a kind fall in the half-open interval [from, to). */
  function CountIn(fires: seq<Fire>, kind: Kind, from: int, to: int): (n: nat)
    ensures n <= |fires|
  {
    if fires == [] then 0
    else
      var last := fires[|fires| - 1];
      CountIn(fires[..|fires| - 1], kind, from, to) + if IsOf(last, kind) && from <= last.at < to then 1 else 0
  }

  function Count(fires: seq<Fire>, kind: Kind): (n: nat)
    ensures n <= |fires|
  {
    if fires == [] then 0
    else Count(fires[..|fires| - 1], kind) + if IsOf(fires[|fires| - 1], kind) then 1 else 0
  }

  lemma CountInSnoc(fires: seq<Fire>, last: Fire, kind: Kind, from: int, to: int)
    ensures CountIn(fires + [last], kind, from, to) ==
            CountIn(fires, kind, from, to) + if IsOf(last, kind) && from <= last.at < to then 1 else 0
    ensures Count(fires + [last], kind) == Count(fires, kind) + if IsOf(last, kind) then 1 else 0
  {
    assert (fires + [last])[..|fires|] == fires;
  }

  lemma {:induction false} KindsSplit(fires: seq<Fire>, from: int, to: int)
    ensures CountIn(fires, All, from, to) == CountIn(fires, Exempt, from, to) + CountIn(fires, Cooled, from, to)
  {
    if fires != [] {
      KindsSplit(fires[..|fires| - 1], from, to);
    }
  }

  lemma {:induction false} NarrowerCountsLess(fires: seq<Fire>, from: int, to: int, wideFrom: int, wideTo: int)
    requires wideFrom <= from && forall i :: 0 <= i < |fires| ==> fires[i].at < wideTo
    requires forall i :: 0 <= i < |fires| ==> (fires[i].exempt ==> fires[i].lane.Question?)
    ensures CountIn(fires, Exempt, from, to) <= CountIn(fires, Questions, wideFrom, wideTo)
  {
    if fires != [] {
      NarrowerCountsLess(fires[..|fires| - 1], from, to, wideFrom, wideTo);
    }
  }

  // ---------- bounds that hold on any clocks ----------

  /** What every fire was subject to, whatever the clocks of concurrent calls showed. */
  ghost predicate Spaced(fires: seq<Fire>) {
    forall i :: 0 < i < |fires| && !fires[i].exempt ==> fires[i].at - fires[i - 1].at >= COOLDOWN_MS
  }

  ghost predicate AnyClockInv(g: Gate) {
    && Spaced(g.fires)
    && (g.lastAt == if g.fires == [] then None else Some(g.fires[|g.fires| - 1].at))
    && (forall i :: 0 <= i < |g.fires| ==> (g.fires[i].exempt ==> g.fires[i].lane.Question?))
    && g.questionCount == Count(g.fires, Questions)
    && Count(g.fires, Exempt) <= g.questionCount
    && Count(g.fires, Exempt) <= QUESTION_MAX_PER_MEETING
  }

  lemma FireKeepsAnyClockInv(g: Gate, lane: Lane, now: int)
    requires AnyClockInv(g) && Decide(g, lane, now).Fired?
    ensures AnyClockInv(Next(g, Commit(lane, now)))
  {
    hide Recent, Count, CountIn, IsOf, Spaced;
    var f := Fire(now, lane, lane.Question? && !OverCeiling(g, now));
    CountInSnoc(g.fires, f, Questions, 0, 0);
    CountInSnoc(g.fires, f, Exempt, 0, 0);
    KindOf(f);
    SpacedSnoc(g.fires, f);
  }

  lemma KindOf(f: Fire)
    ensures (IsOf(f, Questions) <==> f.lane.Question?) && (IsOf(f, Exempt) <==> f.exempt)
  {
  }

  lemma SpacedSnoc(fires: seq<Fire>, f: Fire)
    requires Spaced(fires)
    requires fires != [] && !f.exempt ==> f.at - fires[|fires| - 1].at >= COOLDOWN_MS
    ensures Spaced(fires + [f])
  {
  }

  lemma {:induction false} AnyClockBounds(steps: seq<Step>)
    ensures AnyClockInv(Run(CLOSED, steps))
  {
    if steps != [] {
      var g := Run(CLOSED, steps[..|steps| - 1]);
      var s := steps[|steps| - 1];
      AnyClockBounds(steps[..|steps| - 1]);
      hide Recent, Count, Decide;
      if s.Commit? && Decide(g, s.lane, s.now).Fired? {
        FireKeepsAnyClockInv(g, s.lane, s.now);
      }
    }
  }

  /**
   * At most 60 fires of a meeting skip the cooldown, and every other fire comes 10 s or more after the fire before
   * it.
   */
  lemma MeetingBounds(steps: seq<Step>, i: nat)
    ensures var fires := Run(CLOSED, steps).fires;
      && Count(fires, Exempt) <= QUESTION_MAX_PER_MEETING
      && (0 < i < |fires| && !fires[i].exempt ==> fires[i].at - fires[i - 1].at >= COOLDOWN_MS)
  {
    AnyClockBounds(steps);
  }

  // ---------- bounds that need the clock ----------

  /** Commits happen in the order of their clocks. */
  ghost predicate ClockRises(steps: seq<Step>) {
    forall i, j :: 0 <= i < j < |steps| && steps[i].Commit? && steps[j].Commit? ==> steps[i].now <= steps[j].now
  }

  function Clock(steps: seq<Step>): Option<int> {
    if steps == [] then None
    else if steps[|steps| - 1].Commit? then Some(steps[|steps| - 1].now)
    else Clock(steps[..|steps| - 1])
  }

  lemma {:induction false} ClockIsLatest(steps: seq<Step>)
    requires ClockRises(steps)
    ensures forall i :: 0 <= i < |steps| && steps[i].Commit? ==>
      Clock(steps).Some? && steps[i].now <= Clock(steps).value
    ensures Clock(steps).Some? ==> exists i ::
      0 <= i < |steps| && steps[i].Commit? && steps[i].now == Clock(steps).value
  {
    if steps != [] {
      var front := steps[..|steps| - 1];
      ClockIsLatest(front);
      if !steps[|steps| - 1].Commit? && Clock(front).Some? {
        var i :| 0 <= i < |front| && front[i].Commit? && front[i].now == Clock(front).value;
        assert steps[i] == front[i];
      }
      forall i | 0 <= i < |steps| && steps[i].Commit?
        ensures Clock(steps).Some? && steps[i].now <= Clock(steps).value
      {
        if i < |front| {
          assert front[i] == steps[i];
        }
      }
    }
  }

  ghost predicate Rising(fires: seq<Fire>) {
    forall i, j :: 0 <= i < j < |fires| ==> fires[i].at <= fires[j].at
  }

  function QuestionTimes(fires: seq<Fire>): seq<int> {
    if fires == [] then []
    else
      var last := fires[|fires| - 1];
      QuestionTimes(fires[..|fires| - 1]) + if last.lane.Question? then [last.at] else []
  }

  lemma QuestionTimesSnoc(fires: seq<Fire>, last: Fire)
    ensures QuestionTimes(fires + [last]) == QuestionTimes(fires) + if last.lane.Question? then [last.at] else []
  {
    assert (fires + [last])[..|fires|] == fires;
  }

  lemma {:induction false} RecentAppend(a: seq<int>, b: seq<int>, now: int)
    ensures Recent(a + b, now) == Recent(a, now) + Recent(b, now)
  {
    hide Recent;
    if a == [] {
      assert a + b == b;
      RecentStep([], now);
    } else {
      RecentAppend(a[1..], b, now);
      RecentStep(a, now);
      RecentStep(a + b, now);
      assert (a + b)[0] == a[0] && (a + b)[1..] == a[1..] + b;
    }
  }

  lemma RecentStep(a: seq<int>, now: int)
    ensures a == [] ==> Recent(a, now) == []
    ensures a != [] ==>
      Recent(a, now) == (if now - a[0] < QUESTION_RATE_WINDOW_MS then [a[0]] else []) + Recent(a[1..], now)
  {
  }

  /** Pruning again at a later time is the same as pruning once. */
  lemma {:induction false} RecentTwice(times: seq<int>, now: int, later: int)
    requires now <= later
    ensures Recent(Recent(times, now), later) == Recent(times, later)
  {
    if times != [] {
      RecentTwice(times[1..], now, later);
      if now - times[0] < QUESTION_RATE_WINDOW_MS {
        assert Recent(times, now)[1..] == Recent(times[1..], now);
      }
    }
  }

  lemma {:induction false} RecentCounts(fires: seq<Fire>, now: int)
    requires forall i :: 0 <= i < |fires| ==> fires[i].at <= now
    ensures |Recent(QuestionTimes(fires), now)| ==
            CountIn(fires, Questions, now - QUESTION_RATE_WINDOW_MS + 1, now + 1)
  {
    if fires != [] {
      var front := fires[..|fires| - 1];
      var last := fires[|fires| - 1];
      RecentCounts(front, now);
      RecentAppend(QuestionTimes(front), if last.lane.Question? then [last.at] else [], now);
      assert last.lane.Question? ==>
        Recent([last.at], now) == if now - last.at < QUESTION_RATE_WINDOW_MS then [last.at] else [];
    }
  }

  /** An exempt fire saw fewer than six question fires in the minute up to it. */
  ghost predicate ExemptSawFew(fires: seq<Fire>) {
    forall i :: 0 <= i < |fires| && fires[i].exempt ==>
      CountIn(fires[..i], Questions, fires[i].at - QUESTION_RATE_WINDOW_MS + 1, fires[i].at + 1) < QUESTION_MAX_PER_MIN
  }

  ghost predicate ClockInv(g: Gate, clock: Option<int>) {
    && Rising(g.fires)
    && (clock.None? ==> g.fires == [])
    && (forall i :: 0 <= i < |g.fires| ==> g.fires[i].at <= clock.value)
    && g.questionTimes == (if clock.None? then [] else Recent(QuestionTimes(g.fires), clock.value))
    && ExemptSawFew(g.fires)
  }

  lemma PrunedAgain(g: Gate, clock: Option<int>, now: int)
    requires ClockInv(g, clock) && (clock.Some? ==> clock.value <= now)
    ensures Recent(g.questionTimes, now) == Recent(QuestionTimes(g.fires), now)
    ensures |Recent(g.questionTimes, now)| == CountIn(g.fires, Questions, now - QUESTION_RATE_WINDOW_MS + 1, now + 1)
  {
    if clock.Some? {
      RecentTwice(QuestionTimes(g.fires), clock.value, now);
    }
    RecentCounts(g.fires, now);
  }

  lemma RecentOne(now: int)
    ensures Recent([now], now) == [now] && Recent([], now) == []
  {
  }

  lemma CommitKeepsClockInv(g: Gate, clock: Option<int>, lane: Lane, now: int)
    requires ClockInv(g, clock) && (clock.Some? ==> clock.value <= now)
    ensures ClockInv(Next(g, Commit(lane, now)), Some(now))
  {
    hide Recent, QuestionTimes, CountIn;
    var g' := Next(g, Commit(lane, now));
    PrunedAgain(g, clock, now);
    if Decide(g, lane, now).Fired? {
      var f := g'.fires[|g.fires|];
      QuestionTimesSnoc(g.fires, f);
      RecentAppend(QuestionTimes(g.fires), if lane.Question? then [now] else [], now);
      RecentOne(now);
      FireKeepsExempt(g.fires, f);
    }
  }

  lemma FireKeepsExempt(fires: seq<Fire>, f: Fire)
    requires ExemptSawFew(fires)
    requires f.exempt ==> CountIn(fires, Questions, f.at - QUESTION_RATE_WINDOW_MS + 1, f.at + 1) < QUESTION_MAX_PER_MIN
    ensures ExemptSawFew(fires + [f])
  {
    var longer := fires + [f];
    assert longer[..|fires|] == fires;
    forall i | 0 <= i < |longer|
      ensures longer[..i] == fires[..i]
    {
    }
    hide CountIn;
  }

  lemma {:induction false} ClockInvHolds(steps: seq<Step>)
    requires ClockRises(steps)
    ensures ClockInv(Run(CLOSED, steps), Clock(steps))
  {
    if steps != [] {
      var front := steps[..|steps| - 1];
      var s := steps[|steps| - 1];
      ClockInvHolds(front);
      ClockIsLatest(front);
      if s.Commit? {
        if Clock(front).Some? {
          var i :| 0 <= i < |front| && front[i].Commit? && front[i].now == Clock(front).value;
          assert steps[i] == front[i];
        }
        CommitKeepsClockInv(Run(CLOSED, front), Clock(front), s.lane, s.now);
      }
    }
  }

  lemma {:induction false} ExemptInWindow(fires: seq<Fire>, from: int)
    requires Rising(fires) && ExemptSawFew(fires)
    requires forall i :: 0 <= i < |fires| ==> (fires[i].exempt ==> fires[i].lane.Question?)
    ensures CountIn(fires, Exempt, from, from + QUESTION_RATE_WINDOW_MS) <= QUESTION_MAX_PER_MIN
  {
    if fires != [] {
      var n := |fires| - 1;
      var front, last := fires[..n], fires[n];
      forall i | 0 <= i < n
        ensures front[..i] == fires[..i]
      {
      }
      ExemptInWindow(front, from);
      if last.exempt && from <= last.at < from + QUESTION_RATE_WINDOW_MS {
        NarrowerCountsLess(front, from, from + QUESTION_RATE_WINDOW_MS,
                           last.at - QUESTION_RATE_WINDOW_MS + 1, last.at + 1);
      }
    }
  }

  /** The k-th cooled fire of a window lies at least (k - 1) cooldowns into it, and so does everything after it. */
  lemma {:induction false} CooledAreSpread(fires: seq<Fire>, from: int, to: int)
    requires Rising(fires) && Spaced(fires)
    ensures var k := CountIn(fires, Cooled, from, to);
      k > 0 ==> fires[|fires| - 1].at >= from + COOLDOWN_MS * (k - 1)
    ensures var k := CountIn(fires, Cooled, from, to);
      k > 0 ==> from + COOLDOWN_MS * (k - 1) < to
  {
    if fires != [] {
      var n := |fires| - 1;
      CooledAreSpread(fires[..n], from, to);
      if n > 0 {
        assert fires[..n][n - 1] == fires[n - 1];
      }
    }
  }

  /**
   * With commits in clock order, any half-open minute has at most 6 fires that skip the cooldown and at most 12 fires
   * in all. Calls that commit out of clock order can break it: see OutOfOrderBurst.
   */
  lemma MinuteBounds(steps: seq<Step>, from: int)
    requires ClockRises(steps)
    ensures var fires := Run(CLOSED, steps).fires;
      && CountIn(fires, Exempt, from, from + QUESTION_RATE_WINDOW_MS) <= QUESTION_MAX_PER_MIN
      && CountIn(fires, All, from, from + QUESTION_RATE_WINDOW_MS)
         <= QUESTION_MAX_PER_MIN + QUESTION_RATE_WINDOW_MS / COOLDOWN_MS
  {
    var fires := Run(CLOSED, steps).fires;
    AnyClockBounds(steps);
    ClockInvHolds(steps);
    ExemptInWindow(fires, from);
    CooledAreSpread(fires, from, from + QUESTION_RATE_WINDOW_MS);
    KindsSplit(fires, from, from + QUESTION_RATE_WINDOW_MS);
  }

  /** k questions heard and committed one after the other on one clock reading. */
  function Burst(now: int, k: nat): seq<Step> {
    if k == 0 then [] else Burst(now, k - 1) + [Enter, Commit(Question, now)]
  }

  lemma {:induction false} RunAppend(g: Gate, a: seq<Step>, b: seq<Step>)
    ensures Run(g, a + b) == Run(Run(g, a), b)
  {
    if b == [] {
      assert a + b == a;
    } else {
      RunAppend(g, a, b[..|b| - 1]);
      assert (a + b)[..|a + b| - 1] == a + b[..|b| - 1];
    }
  }

  lemma {:induction false} AllRecent(times: seq<int>, now: int)
    requires forall i :: 0 <= i < |times| ==> now - times[i] < QUESTION_RATE_WINDOW_MS
    ensures Recent(times, now) == times
  {
    if times != [] {
      AllRecent(times[1..], now);
    }
  }

  lemma {:induction false} BurstFires(g: Gate, now: int, k: nat)
    requires forall i :: 0 <= i < |g.questionTimes| ==> now - g.questionTimes[i] < QUESTION_RATE_WINDOW_MS
    requires |g.questionTimes| + k <= QUESTION_MAX_PER_MIN && g.questionCount + k <= QUESTION_MAX_PER_MEETING
    ensures var g' := Run(g, Burst(now, k));
      && g'.questionTimes == g.questionTimes + seq(k, _ => now)
      && g'.questionCount == g.questionCount + k
      && g'.fires == g.fires + seq(k, _ => Fire(now, Question, true))
  {
    hide Run, Recent;
    if k > 0 {
      var before := Burst(now, k - 1);
      BurstFires(g, now, k - 1);
      RunAppend(g, before, [Enter, Commit(Question, now)]);
      AllRecent(Run(g, before).questionTimes, now);
      OneQuestion(Run(g, before), now);
      assert seq(k, _ => now) == seq(k - 1, _ => now) + [now];
      assert seq(k, _ => Fire(now, Question, true)) ==
        seq(k - 1, _ => Fire(now, Question, true)) + [Fire(now, Question, true)];
    } else {
      assert Run(g, []) == g by {
        NoSteps(g);
      }
    }
  }

  lemma NoSteps(g: Gate)
    ensures Run(g, []) == g
  {
  }

  lemma OneQuestion(g: Gate, now: int)
    requires |Recent(g.questionTimes, now)| < QUESTION_MAX_PER_MIN && g.questionCount < QUESTION_MAX_PER_MEETING
    ensures Run(g, [Enter, Commit(Question, now)])
         == Gate(0, Some(now), Recent(g.questionTimes, now) + [now], g.questionCount + 1,
              g.fires + [Fire(now, Question, true)])
  {
    var two := [Enter, Commit(Question, now)];
    assert two[..1] == [Enter] && two[..1][..0] == [];
    assert Run(g, two[..1]) == Next(Run(g, []), Enter);
    assert Run(g, two) == Next(Run(g, two[..1]), Commit(Question, now));
  }

  lemma {:induction false} CountOfMany(fires: seq<Fire>, k: nat, f: Fire, from: int, to: int)
    requires f.exempt && from <= f.at < to
    ensures CountIn(fires + seq(k, _ => f), Exempt, from, to) == CountIn(fires, Exempt, from, to) + k
  {
    if k == 0 {
      assert fires + seq(k, _ => f) == fires;
    } else {
      CountOfMany(fires, k - 1, f, from, to);
      assert fires + seq(k, _ => f) == (fires + seq(k - 1, _ => f)) + [f];
      CountInSnoc(fires + seq(k - 1, _ => f), f, Exempt, from, to);
    }
  }

  function Entries(k: nat): seq<Step> {
    if k == 0 then [] else Entries(k - 1) + [Enter]
  }

  lemma {:induction false} EntriesOnlyCount(g: Gate, k: nat)
    ensures Run(g, Entries(k)) == g.(utterances := g.utterances + k)
  {
    if k > 0 {
      EntriesOnlyCount(g, k - 1);
      assert Entries(k)[..|Entries(k)| - 1] == Entries(k - 1);
    }
  }

  /**
   * k questions whose clocks were read earlier commit now, each just after an ambient remark that is still cooling
   * down.
   */
  function LateCommits(early: int, now: int, k: nat): seq<Step> {
    if k == 0 then [] else LateCommits(early, now, k - 1) + [Enter, Commit(Ambient, now), Commit(Question, early)]
  }

  /** All question fires count at both clocks, and the last fire still cools an ambient remark down. */
  ghost predicate Recently(g: Gate, early: int, now: int) {
    && (forall i :: 0 <= i < |g.questionTimes| ==> now - g.questionTimes[i] < QUESTION_RATE_WINDOW_MS)
    && (forall i :: 0 <= i < |g.questionTimes| ==> early - g.questionTimes[i] < QUESTION_RATE_WINDOW_MS)
    && g.lastAt.Some? && now - g.lastAt.value < COOLDOWN_MS
  }

  lemma OneLate(g: Gate, early: int, now: int)
    requires Recently(g, early, now) && early <= now < early + COOLDOWN_MS
    requires |g.questionTimes| < QUESTION_MAX_PER_MIN && g.questionCount < QUESTION_MAX_PER_MEETING
    ensures var g' := Run(g, [Enter, Commit(Ambient, now), Commit(Question, early)]);
      && g' == Gate(0, Some(early), g.questionTimes + [early], g.questionCount + 1,
                    g.fires + [Fire(early, Question, true)])
      && Recently(g', early, now)
  {
    hide Run, Next;
    NextIs(g, early, now);
    ThreeSteps(g, Enter, Commit(Ambient, now), Commit(Question, early));
  }

  lemma NextIs(g: Gate, early: int, now: int)
    requires Recently(g, early, now)
    requires |g.questionTimes| < QUESTION_MAX_PER_MIN && g.questionCount < QUESTION_MAX_PER_MEETING
    ensures var heard := g.(utterances := g.utterances + 1);
      && Next(g, Enter) == heard
      && Next(heard, Commit(Ambient, now)) == heard
      && Next(heard, Commit(Question, early))
         == Gate(0, Some(early), g.questionTimes + [early], g.questionCount + 1,
              g.fires + [Fire(early, Question, true)])
  {
    hide Recent;
    AllRecent(g.questionTimes, now);
    AllRecent(g.questionTimes, early);
  }

  lemma ThreeSteps(g: Gate, a: Step, b: Step, c: Step)
    ensures Run(g, [a, b, c]) == Next(Next(Next(g, a), b), c)
  {
    hide Next;
    var three := [a, b, c];
    assert three[..2] == [a, b] && [a, b][..1] == [a] && [a][..0] == [];
    assert Run(g, [a]) == Next(Run(g, []), a);
    assert Run(g, [a, b]) == Next(Run(g, [a]), b);
  }

  lemma {:induction false} LateFires(g: Gate, early: int, now: int, k: nat)
    requires Recently(g, early, now) && early <= now < early + COOLDOWN_MS
    requires |g.questionTimes| + k <= QUESTION_MAX_PER_MIN && g.questionCount + k <= QUESTION_MAX_PER_MEETING
    ensures var g' := Run(g, LateCommits(early, now, k));
      && Recently(g', early, now)
      && |g'.questionTimes| == |g.questionTimes| + k && g'.questionCount == g.questionCount + k
      && g'.fires == g.fires + seq(k, _ => Fire(early, Question, true))
  {
    hide Recently, Recent;
    if k > 0 {
      var before := LateCommits(early, now, k - 1);
      LateFires(g, early, now, k - 1);
      RunAppend(g, before, [Enter, Commit(Ambient, now), Commit(Question, early)]);
      OneLate(Run(g, before), early, now);
      assert seq(k, _ => Fire(early, Question, true)) ==
        seq(k - 1, _ => Fire(early, Question, true)) + [Fire(early, Question, true)];
    }
  }

  /**
   * Out of clock order the bound breaks. Six questions fire at 0. Five more are heard, and read their clocks, at
   * 59_999; while their embeddings are awaited a question is heard at 60_000 and fires, which prunes the six. Then
   * the five commit, each after an ambient remark heard at 60_000: eleven fires of one minute skip the cooldown.
   */
  lemma OutOfOrderBurst()
    ensures var steps := Burst(0, 6) + Entries(5) + Burst(60_000, 1) + LateCommits(59_999, 60_000, 5);
      && LateBy(steps, 1)
      && CountIn(Run(CLOSED, steps).fires, Exempt, 0, 60_000) == 11
  {
    hide Run, Recent, CountIn, Next, Decide;
    var a := Run(CLOSED, Burst(0, 6));
    var heard := Run(a, Entries(5));
    var b := Run(heard, Burst(60_000, 1));
    BurstFires(CLOSED, 0, 6);
    EntriesOnlyCount(a, 5);
    AllStale(a.questionTimes, 60_000);
    OneMore(heard, 60_000);
    LateFires(b, 59_999, 60_000, 5);
    RunAppend(CLOSED, Burst(0, 6) + Entries(5) + Burst(60_000, 1), LateCommits(59_999, 60_000, 5));
    RunAppend(CLOSED, Burst(0, 6) + Entries(5), Burst(60_000, 1));
    RunAppend(CLOSED, Burst(0, 6), Entries(5));
    CountOfNone(0, 60_000);
    CountOfMany([], 6, Fire(0, Question, true), 0, 60_000);
    CountInSnoc(a.fires, Fire(60_000, Question, true), Exempt, 0, 60_000);
    CountOfMany(b.fires, 5, Fire(59_999, Question, true), 0, 60_000);
    assert [] + seq(6, _ => Fire(0, Question, true)) == seq(6, _ => Fire(0, Question, true));
    BurstIsLate();
  }

  lemma CountOfNone(from: int, to: int)
    ensures CountIn([], Exempt, from, to) == 0
  {
  }

  /** No commit's clock is more than d behind that of a commit before it. */
  ghost predicate LateBy(steps: seq<Step>, d: nat) {
    forall i, j :: 0 <= i < j < |steps| && steps[i].Commit? && steps[j].Commit? ==> steps[j].now >= steps[i].now - d
  }

  ghost predicate ClocksIn(steps: seq<Step>, low: int, high: int) {
    forall i :: 0 <= i < |steps| && steps[i].Commit? ==> low <= steps[i].now <= high
  }

  lemma {:induction false} BurstClocks(now: int, k: nat)
    ensures ClocksIn(Burst(now, k), now, now)
  {
    if k > 0 {
      BurstClocks(now, k - 1);
    }
  }

  lemma {:induction false} EntriesClocks(k: nat, at: int)
    ensures ClocksIn(Entries(k), at, at)
  {
    if k > 0 {
      EntriesClocks(k - 1, at);
    }
  }

  lemma {:induction false} LateClocks(early: int, now: int, k: nat)
    requires early <= now
    ensures ClocksIn(LateCommits(early, now, k), early, now)
  {
    if k > 0 {
      LateClocks(early, now, k - 1);
    }
  }

  lemma ClocksAppend(a: seq<Step>, b: seq<Step>, low: int, high: int)
    requires ClocksIn(a, low, high) && ClocksIn(b, low, high)
    ensures ClocksIn(a + b, low, high)
  {
  }

  lemma LateAppend(a: seq<Step>, b: seq<Step>, at: int, low: int, high: int, d: nat)
    requires ClocksIn(a, at, at) && ClocksIn(b, low, high) && at <= low <= high <= low + d
    ensures LateBy(a + b, d)
  {
  }

  lemma WiderClocks(a: seq<Step>, at: int, low: int, high: int)
    requires ClocksIn(a, at, at) && low <= at <= high
    ensures ClocksIn(a, low, high)
  {
  }

  lemma BurstIsLate()
    ensures LateBy(Burst(0, 6) + Entries(5) + Burst(60_000, 1) + LateCommits(59_999, 60_000, 5), 1)
  {
    hide ClocksIn, LateBy, Burst, Entries, LateCommits;
    var front, back := Burst(0, 6) + Entries(5), Burst(60_000, 1) + LateCommits(59_999, 60_000, 5);
    BurstClocks(0, 6);
    EntriesClocks(5, 0);
    ClocksAppend(Burst(0, 6), Entries(5), 0, 0);
    BurstClocks(60_000, 1);
    WiderClocks(Burst(60_000, 1), 60_000, 59_999, 60_000);
    LateClocks(59_999, 60_000, 5);
    ClocksAppend(Burst(60_000, 1), LateCommits(59_999, 60_000, 5), 59_999, 60_000);
    LateAppend(front, back, 0, 59_999, 60_000, 1);
    assert front + back == front + Burst(60_000, 1) + LateCommits(59_999, 60_000, 5);
  }

  /** At most 6 fires that skip the cooldown in the minute from a time on. */
  ghost predicate MinuteHolds(steps: seq<Step>, from: int) {
    CountIn(Run(CLOSED, steps).fires, Exempt, from, from + QUESTION_RATE_WINDOW_MS) <= QUESTION_MAX_PER_MIN
  }

  /**
   * How late may a commit be for the minute bound to hold in every run? Not at all: the bound holds of all runs whose
   * commits are at most d milliseconds behind an earlier one if and only if d is 0.
   */
  lemma MinuteBoundIffInOrder(d: nat)
    ensures (forall steps, from :: LateBy(steps, d) ==> MinuteHolds(steps, from)) <==> d == 0
  {
    hide Run, CountIn, Burst, Entries, LateCommits;
    if d == 0 {
      forall steps: seq<Step>, from: int | LateBy(steps, 0)
        ensures MinuteHolds(steps, from)
      {
        MinuteBounds(steps, from);
      }
    } else {
      var steps := Burst(0, 6) + Entries(5) + Burst(60_000, 1) + LateCommits(59_999, 60_000, 5);
      OutOfOrderBurst();
      assert LateBy(steps, d);
      assert !MinuteHolds(steps, 0);
    }
  }

  lemma {:induction false} AllStale(times: seq<int>, now: int)
    requires forall i :: 0 <= i < |times| ==> now - times[i] >= QUESTION_RATE_WINDOW_MS
    ensures Recent(times, now) == []
  {
    if times != [] {
      AllStale(times[1..], now);
    }
  }

  lemma OneMore(g: Gate, now: int)
    requires Recent(g.questionTimes, now) == [] && g.questionCount < QUESTION_MAX_PER_MEETING
    ensures var g' := Run(g, Burst(now, 1));
      && g'.questionTimes == [now] && g'.questionCount == g.questionCount + 1 && g'.lastAt == Some(now)
      && g'.fires == g.fires + [Fire(now, Question, true)]
  {
    assert Burst(now, 1) == Burst(now, 0) + [Enter, Commit(Question, now)] == [Enter, Commit(Question, now)];
    OneQuestion(g, now);
  }

  // ---------- exactly which calls fire ----------

  /** An utterance was heard, and nothing has fired since. */
  ghost predicate HeardSinceFire(steps: seq<Step>) {
    exists i :: 0 <= i < |steps| && steps[i].Enter? && |Run(CLOSED, steps[..i]).fires| == |Run(CLOSED, steps).fires|
  }

  /** The step is a question that fired. */
  predicate FiredQuestion(steps: seq<Step>, i: nat)
    requires i < |steps|
  {
    && steps[i].Commit? && steps[i].lane.Question?
    && |Run(CLOSED, steps[..i + 1]).fires| > |Run(CLOSED, steps[..i]).fires|
  }

  /** No clock that was read by a later commit has seen the step a minute old. */
  predicate StillRecent(steps: seq<Step>, i: nat)
    requires i < |steps| && steps[i].Commit?
  {
    forall j :: i < j < |steps| && steps[j].Commit? ==> steps[j].now - steps[i].now < 60_000
  }

  /** The clocks of the first n steps that are questions which fired and are not forgotten. */
  function Marks(steps: seq<Step>, n: nat): seq<int>
    requires n <= |steps|
  {
    if n == 0 then []
    else
      Marks(steps, n - 1)
      + if FiredQuestion(steps, n - 1) && StillRecent(steps, n - 1) then [steps[n - 1].now] else []
  }

  lemma RunSnoc(steps: seq<Step>, s: Step)
    ensures Run(CLOSED, steps + [s]) == Next(Run(CLOSED, steps), s)
  {
    assert (steps + [s])[..|steps|] == steps;
  }

  lemma {:induction false} FiresGrow(steps: seq<Step>, i: nat)
    requires i <= |steps|
    ensures |Run(CLOSED, steps[..i]).fires| <= |Run(CLOSED, steps).fires|
    decreases |steps| - i
  {
    if i < |steps| {
      FiresGrow(steps, i + 1);
      assert steps[..i + 1] == steps[..i] + [steps[i]];
      RunSnoc(steps[..i], steps[i]);
      hide Run, Recent, Decide;
    } else {
      assert steps[..i] == steps;
    }
  }

  lemma {:induction false} UtterancesTell(steps: seq<Step>)
    ensures Run(CLOSED, steps).utterances >= 1 <==> HeardSinceFire(steps)
  {
    if steps != [] {
      var front, s := steps[..|steps| - 1], steps[|steps| - 1];
      assert steps == front + [s];
      RunSnoc(front, s);
      UtterancesTell(front);
      HeardSnoc(front, s);
      hide Run, Recent, Decide, HeardSinceFire;
    }
  }

  lemma HeardSnoc(front: seq<Step>, s: Step)
    ensures var fired := |Run(CLOSED, front + [s]).fires| > |Run(CLOSED, front).fires|;
      HeardSinceFire(front + [s]) <==> !fired && (s.Enter? || HeardSinceFire(front))
  {
    hide Run;
    var steps := front + [s];
    assert forall i :: 0 <= i <= |front| ==> steps[..i] == front[..i];
    assert front[..|front|] == front;
    RunSnoc(front, s);
    FiresGrow(steps, |front|);
    if HeardSinceFire(front) && |Run(CLOSED, steps).fires| == |Run(CLOSED, front).fires| {
      var i :| 0 <= i < |front| && front[i].Enter? && |Run(CLOSED, front[..i]).fires| == |Run(CLOSED, front).fires|;
      assert steps[i].Enter? && steps[..i] == front[..i];
    }
    if s.Enter? {
      assert Run(CLOSED, steps).fires == Run(CLOSED, front).fires;
      assert steps[|front|].Enter? && steps[..|front|] == front;
    }
    if HeardSinceFire(steps) {
      var i :| 0 <= i < |steps| && steps[i].Enter? && |Run(CLOSED, steps[..i]).fires| == |Run(CLOSED, steps).fires|;
      FiresGrow(front, i);
      if i < |front| {
        assert front[i].Enter? && front[..i] == steps[..i];
      }
    }
  }

  /** One more step: an entry forgets nothing, and a commit what its clock sees a minute old. */
  lemma {:induction false} MarksAfter(steps: seq<Step>, s: Step, n: nat)
    requires n <= |steps|
    ensures Marks(steps + [s], n) == if s.Commit? then Recent(Marks(steps, n), s.now) else Marks(steps, n)
  {
    hide Run, Recent, StillRecent;
    if n > 0 {
      var i := n - 1;
      MarksAfter(steps, s, i);
      StillRecentAfter(steps, s, i);
      var last := if FiredQuestion(steps, i) && StillRecent(steps, i) then [steps[i].now] else [];
      assert Marks(steps, n) == Marks(steps, i) + last;
      if s.Commit? {
        RecentAppend(Marks(steps, i), last, s.now);
        RecentOfOne(steps[i], s.now);
      }
    } else {
      assert s.Commit? ==> Recent([], s.now) == [] by {
        RecentNone();
      }
    }
  }

  lemma RecentNone()
    ensures forall now :: Recent([], now) == []
  {
  }

  lemma RecentOfOne(s: Step, now: int)
    ensures Recent([], now) == []
    ensures s.Commit? ==> Recent([s.now], now) == if now - s.now < 60_000 then [s.now] else []
  {
  }

  lemma StillRecentAfter(steps: seq<Step>, s: Step, i: nat)
    requires i < |steps|
    ensures FiredQuestion(steps + [s], i) == FiredQuestion(steps, i)
    ensures steps[i].Commit? ==> (StillRecent(steps + [s], i) <==>
              StillRecent(steps, i) && (s.Commit? ==> s.now - steps[i].now < 60_000))
  {
    hide Run;
    var longer := steps + [s];
    assert longer[..i] == steps[..i] && longer[..i + 1] == steps[..i + 1];
    assert forall j :: 0 <= j < |steps| ==> longer[j] == steps[j];
    assert longer[|steps|] == s;
  }

  lemma {:induction false} QuestionTimesAreMarks(steps: seq<Step>)
    ensures Run(CLOSED, steps).questionTimes == Marks(steps, |steps|)
  {
    if steps != [] {
      var n := |steps| - 1;
      var front, s := steps[..n], steps[n];
      assert steps == front + [s];
      RunSnoc(front, s);
      QuestionTimesAreMarks(front);
      MarksAfter(front, s, n);
      assert steps[..n + 1] == steps;
      hide Run, Recent, Decide;
    }
  }

  /**
   * Which commits fire, on any clocks and in any run: an utterance must have been heard since the last fire. A question
   * then fires at once if it is within its ceilings: fewer than 60 question fires so far, and fewer than 6 that no
   * clock up to its own has seen a minute old. Every other commit fires exactly if there is no last fire or it was 10
   * seconds earlier or more by this commit's clock.
   */
  lemma FiresExactly(steps: seq<Step>, lane: Lane, now: int)
    ensures var commit := Commit(lane, now);
      var before, after := Run(CLOSED, steps).fires, Run(CLOSED, steps + [commit]).fires;
      var exempt := lane.Question? && Count(before, Questions) < 60 && |Marks(steps + [commit], |steps|)| < 6;
      var cooled := before == [] || now - before[|before| - 1].at >= 10_000;
      after == before + if HeardSinceFire(steps) && (exempt || cooled) then [Fire(now, lane, exempt)] else []
  {
    hide Run, Recent, Count, HeardSinceFire, Marks, Spaced;
    var commit := Commit(lane, now);
    RunSnoc(steps, commit);
    UtterancesTell(steps);
    QuestionTimesAreMarks(steps);
    MarksAfter(steps, commit, |steps|);
    AnyClockBounds(steps);
  }

  // ---------- a question is never dropped? ----------

  predicate FiresAt(g: Gate, steps: seq<Step>, m: nat)
    requires m < |steps|
  {
    var before := Run(g, steps[..m]);
    steps[m].Commit? && Decide(before, steps[m].lane, steps[m].now).Fired?
  }

  /** Some call fired, and nothing was heard after it. */
  ghost predicate QuietSinceFire(g: Gate, steps: seq<Step>) {
    exists m :: 0 <= m < |steps| && FiresAt(g, steps, m) && forall n :: m < n < |steps| ==> !steps[n].Enter?
  }

  lemma QuietSnoc(g: Gate, steps: seq<Step>)
    requires steps != []
    ensures var k := |steps| - 1;
      QuietSinceFire(g, steps) <==> FiresAt(g, steps, k) || (QuietSinceFire(g, steps[..k]) && !steps[k].Enter?)
  {
    hide Run, Decide;
    var k := |steps| - 1;
    var front := steps[..k];
    forall m: nat | m < k
      ensures FiresAt(g, front, m) <==> FiresAt(g, steps, m)
    {
      assert front[..m] == steps[..m];
    }
    if QuietSinceFire(g, front) && !steps[k].Enter? {
      var m :| 0 <= m < |front| && FiresAt(g, front, m) && forall n :: m < n < |front| ==> !front[n].Enter?;
      assert FiresAt(g, steps, m);
      assert forall n :: m < n < |steps| && n < k ==> front[n] == steps[n];
    }
    if QuietSinceFire(g, steps) && !FiresAt(g, steps, k) {
      var m :| 0 <= m < |steps| && FiresAt(g, steps, m) && forall n :: m < n < |steps| ==> !steps[n].Enter?;
      assert FiresAt(g, front, m);
      assert forall n :: m < n < |front| ==> front[n] == steps[n];
    }
  }

  lemma {:induction false} CountIsZeroIff(g: Gate, steps: seq<Step>)
    requires g.utterances >= 1
    ensures Run(g, steps).utterances == 0 <==> QuietSinceFire(g, steps)
  {
    if steps != [] {
      CountIsZeroIff(g, steps[..|steps| - 1]);
      QuietSnoc(g, steps);
      hide QuietSinceFire, Recent, Decide;
    }
  }

  /**
   * A question within its ceilings is heard in state g, waits for its embedding while the steps `meanwhile` happen,
   * and then tries to fire. It fires if and only if it is not the case that some other call fired in the meantime and
   * no utterance was heard after that. Concurrent questions are the failing family: the one that commits second is
   * dropped.
   */
  lemma QuestionFiresIff(g: Gate, meanwhile: seq<Step>, now: int)
    requires !OverCeiling(Run(Next(g, Enter), meanwhile), now)
    ensures Decide(Run(Next(g, Enter), meanwhile), Question, now) ==
            if QuietSinceFire(Next(g, Enter), meanwhile) then BelowThreshold else Fired
  {
    CountIsZeroIff(Next(g, Enter), meanwhile);
  }

  /** Two questions asked while the first is still being embedded: the second is dropped as below the threshold. */
  lemma SecondQuestionDropped(first: int, second: int)
    ensures var g := Run(CLOSED, [Enter, Enter, Commit(Question, first)]);
      && g.fires == [Fire(first, Question, true)]
      && !OverCeiling(g, second) && Decide(g, Question, second) == BelowThreshold
  {
    var steps := [Enter, Enter, Commit(Question, first)];
    assert steps[..2] == [Enter, Enter] && steps[..2][..1] == [Enter] && [Enter][..0] == [];
    assert Run(CLOSED, steps[..2][..1]) == Next(Run(CLOSED, []), Enter);
    assert Run(CLOSED, steps[..2]) == Gate(2, None, [], 0, []);
    var g := Run(CLOSED, steps);
    assert g == Next(Run(CLOSED, steps[..2]), steps[2]);
    assert g.questionTimes == [first];
    assert [first][1..] == [];
  }
}
