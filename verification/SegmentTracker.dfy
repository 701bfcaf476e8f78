/** Interim transcripts: one stable id and rising revisions per speech, throttled per speaker. */
module Segments {
  import opened Optionals

  const INTERIM_THROTTLE_MS: int := 250

  datatype Segment = Segment(utteranceId: string, revision: nat, lastBroadcastAt: int)

  type Tracker = map<string, Segment>

  datatype PartialResolution = PartialResolution(utteranceId: string, revision: nat, shouldBroadcast: bool)
  datatype FinalResolution = FinalResolution(utteranceId: string, revision: nat)

  function SeparatorAt(id: string): (i: nat)
    ensures i <= |id|
    ensures i < |id| ==> id[i..i + 1] == ":" && i + 1 < |id| && id[i + 1] == ':'
    ensures forall k :: 0 <= k < i && k + 1 < |id| ==> !(id[k] == ':' && id[k + 1] == ':')
  {
    if id == [] then 0
    else if |id| > 1 && id[0] == ':' && id[1] == ':' then 0
    else 1 + SeparatorAt(id[1..])
  }

  /** The participant in `<participant>::<start>`; the whole id when it has no separator. */
  function ParticipantKey(id: string): string {
    id[..SeparatorAt(id)]
  }

  // ---------- one participant's slot ----------

  /** What a partial does to its participant's slot. */
  function OnPartial(slot: Option<Segment>, id: string, now: int): (Option<Segment>, PartialResolution) {
    match slot
    case None => (Some(Segment(id, 0, now)), PartialResolution(id, 0, true))
    case Some(s) =>
      if now - s.lastBroadcastAt < INTERIM_THROTTLE_MS then (slot, PartialResolution(s.utteranceId, s.revision, false))
      else (Some(Segment(s.utteranceId, s.revision + 1, now)), PartialResolution(s.utteranceId, s.revision + 1, true))
  }

  function OnFinal(slot: Option<Segment>, id: string): FinalResolution {
    match slot
    case None => FinalResolution(id, 0)
    case Some(s) => FinalResolution(s.utteranceId, s.revision + 1)
  }

  function SlotOf(t: Tracker, key: string): Option<Segment> {
    if key in t then Some(t[key]) else None
  }

  class SegmentTracker {
    var open: Tracker

    constructor ()
      ensures open == map[]
    {
      open := map[];
    }

    method ResolvePartial(id: string, now: int) returns (r: PartialResolution)
      modifies this
      ensures var key := ParticipantKey(id);
        && (SlotOf(open, key), r) == OnPartial(SlotOf(old(open), key), id, now)
        && forall k :: k != key ==> SlotOf(open, k) == SlotOf(old(open), k)
    {
      var key := ParticipantKey(id);
      if key !in open {
        open := open[key := Segment(id, 0, now)];
        return PartialResolution(id, 0, true);
      }
      var existing := open[key];
      if now - existing.lastBroadcastAt < INTERIM_THROTTLE_MS {
        return PartialResolution(existing.utteranceId, existing.revision, false);
      }
      existing := existing.(revision := existing.revision + 1);
      existing := existing.(lastBroadcastAt := now);
      open := open[key := existing];
      r := PartialResolution(existing.utteranceId, existing.revision, true);
    }

    method ResolveFinal(id: string) returns (r: FinalResolution)
      modifies this
      ensures var key := ParticipantKey(id);
        && r == OnFinal(SlotOf(old(open), key), id)
        && SlotOf(open, key) == None
        && forall k :: k != key ==> SlotOf(open, k) == SlotOf(old(open), k)
    {
      var key := ParticipantKey(id);
      if key !in open {
        return FinalResolution(id, 0);
      }
      r := FinalResolution(open[key].utteranceId, open[key].revision + 1);
      open := open - {key};
    }
  }

  // ---------- runs of several participants ----------

  datatype Event = Partial(id: string, now: int) | Final(id: string)

  datatype Output = Interim(r: PartialResolution, at: int) | Landed(f: FinalResolution)

  function KeyOf(e: Event): string {
    ParticipantKey(e.id)
  }

  function Slot(slot: Option<Segment>, e: Event): Option<Segment> {
    match e
    case Partial(id, now) => OnPartial(slot, id, now).0
    case Final(_) => None
  }

  function Out(slot: Option<Segment>, e: Event): Output {
    match e
    case Partial(id, now) => Interim(OnPartial(slot, id, now).1, now)
    case Final(id) => Landed(OnFinal(slot, id))
  }

  function Step(t: Tracker, e: Event): Tracker {
    var next := Slot(SlotOf(t, KeyOf(e)), e);
    if next.Some? then t[KeyOf(e) := next.value] else t - {KeyOf(e)}
  }

  /** What the tracker answers to a run of events, with the participant each answer is for. */
  function Run(t: Tracker, events: seq<Event>): seq<(string, Output)>
    decreases |events|
  {
    if events == [] then []
    else
      [(KeyOf(events[0]), Out(SlotOf(t, KeyOf(events[0])), events[0]))] + Run(Step(t, events[0]), events[1..])
  }

  /** One participant alone. */
  function Alone(slot: Option<Segment>, events: seq<Event>): (outs: seq<Output>)
    ensures |outs| == |events|
    decreases |events|
  {
    if events == [] then [] else [Out(slot, events[0])] + Alone(Slot(slot, events[0]), events[1..])
  }

  function Of(events: seq<Event>, key: string): seq<Event> {
    if events == [] then []
    else (if KeyOf(events[0]) == key then [events[0]] else []) + Of(events[1..], key)
  }

  function OutputsOf(outs: seq<(string, Output)>, key: string): seq<Output> {
    if outs == [] then []
    else (if outs[0].0 == key then [outs[0].1] else []) + OutputsOf(outs[1..], key)
  }

  /** Other participants never change what a participant gets: each one's answers are those of its own events alone. */
  lemma {:induction false} ParticipantsDoNotInterfere(t: Tracker, events: seq<Event>, key: string)
    ensures OutputsOf(Run(t, events), key) == Alone(SlotOf(t, key), Of(events, key))
    decreases |events|
  {
    hide Slot, Out, ParticipantKey;
    if events != [] {
      var e := events[0];
      var rest := Run(Step(t, e), events[1..]);
      assert ([(KeyOf(e), Out(SlotOf(t, KeyOf(e)), e))] + rest)[1..] == rest;
      ParticipantsDoNotInterfere(Step(t, e), events[1..], key);
      if KeyOf(e) == key {
        assert SlotOf(Step(t, e), key) == Slot(SlotOf(t, key), e);
        assert ([e] + Of(events[1..], key))[1..] == Of(events[1..], key);
      } else {
        assert SlotOf(Step(t, e), key) == SlotOf(t, key);
        assert [] + Of(events[1..], key) == Of(events[1..], key);
        assert [] + OutputsOf(rest, key) == OutputsOf(rest, key);
      }
    }
  }

  // ---------- one speech ----------

  predicate AllPartials(events: seq<Event>) {
    forall i :: 0 <= i < |events| ==> events[i].Partial?
  }

  /** The interims that are broadcast. */
  function Sent(outs: seq<Output>): (s: seq<Output>)
    ensures forall i :: 0 <= i < |s| ==> s[i].Interim? && s[i].r.shouldBroadcast
  {
    if outs == [] then []
    else
      var last := outs[|outs| - 1];
      Sent(outs[..|outs| - 1]) + if last.Interim? && last.r.shouldBroadcast then [last] else []
  }

  /** The slot after a run of events. */
  function SlotAfter(slot: Option<Segment>, events: seq<Event>): Option<Segment> {
    if events == [] then slot
    else Slot(SlotAfter(slot, events[..|events| - 1]), events[|events| - 1])
  }

  lemma {:induction false} AloneSnoc(slot: Option<Segment>, events: seq<Event>, e: Event)
    ensures Alone(slot, events + [e]) == Alone(slot, events) + [Out(SlotAfter(slot, events), e)]
    decreases |events|
  {
    hide Slot, Out;
    if events == [] {
      assert [e][1..] == [];
    } else {
      var head, tail := events[0], events[1..];
      assert (events + [e])[1..] == tail + [e];
      AloneSnoc(Slot(slot, head), tail, e);
      SlotAfterCons(slot, events);
    }
  }

  lemma {:induction false} SlotAfterCons(slot: Option<Segment>, events: seq<Event>)
    requires events != []
    ensures SlotAfter(slot, events) == SlotAfter(Slot(slot, events[0]), events[1..])
  {
    hide Slot;
    var n := |events| - 1;
    if n == 0 {
      assert events[..0] == [] && events[1..] == [];
      assert SlotAfter(slot, events[..0]) == slot;
    } else {
      SlotAfterCons(slot, events[..n]);
      assert events[..n][1..] == events[1..][..n - 1];
    }
  }

  /** What a speech's broadcast interims look like, in the order sent. */
  ghost predicate Rising(sent: seq<Output>, id: string) {
    && (forall i :: 0 <= i < |sent| ==> sent[i].Interim? && sent[i].r.utteranceId == id && sent[i].r.revision == i)
    && (forall i, j :: 0 <= i < j < |sent| ==> sent[j].at - sent[i].at >= INTERIM_THROTTLE_MS)
  }

  ghost predicate InSpeech(slot: Option<Segment>, sent: seq<Output>, id: string) {
    sent != [] && Rising(sent, id) && slot == Some(Segment(id, |sent| - 1, sent[|sent| - 1].at))
  }

  lemma SentSnoc(outs: seq<Output>, o: Output)
    ensures Sent(outs + [o]) == Sent(outs) + if o.Interim? && o.r.shouldBroadcast then [o] else []
  {
    assert (outs + [o])[..|outs|] == outs;
  }

  lemma SpeechStep(slot: Option<Segment>, outs: seq<Output>, id: string, e: Event)
    requires e.Partial?
    requires InSpeech(slot, Sent(outs), id) || (outs == [] && slot == None && e.id == id)
    ensures InSpeech(Slot(slot, e), Sent(outs + [Out(slot, e)]), id)
    ensures Out(slot, e).Interim? && Out(slot, e).r.utteranceId == id
  {
    hide Sent;
    SentSnoc(outs, Out(slot, e));
    SentNone();
  }

  lemma SentNone()
    ensures Sent([]) == []
  {
  }

  /**
   * A speech: its partials from a clear slot. Those sent carry the first one's id, revisions 0, 1, 2, ... and times at
   * least 250 ms apart; what is kept is the last one sent.
   */
  lemma {:induction false} SpeechRises(events: seq<Event>)
    requires events != [] && AllPartials(events)
    ensures InSpeech(SlotAfter(None, events), Sent(Alone(None, events)), events[0].id)
    ensures forall i :: 0 <= i < |events| ==>
      Alone(None, events)[i].Interim? && Alone(None, events)[i].r.utteranceId == events[0].id
  {
    hide InSpeech, Sent, Out, Slot, Alone;
    var n := |events| - 1;
    var before, e := events[..n], events[n];
    assert before + [e] == events;
    AloneSnoc(None, before, e);
    if n > 0 {
      SpeechRises(before);
    }
    SpeechStep(SlotAfter(None, before), Alone(None, before), events[0].id, e);
  }

  /**
   * Which partials of a speech are sent: the first, and every one that comes 250 ms or more after the last one sent. It
   * carries the first one's id and the next revision; one that is held back repeats the revision last sent.
   */
  lemma SentExactly(events: seq<Event>, id: string, now: int)
    requires AllPartials(events)
    ensures var sent := Sent(Alone(None, events));
      && (events != [] ==> sent != [])
      && var sends := events == [] || now - sent[|sent| - 1].at >= 250;
         var revision := if sends then |sent| else |sent| - 1;
         && revision >= 0
         && Alone(None, events + [Partial(id, now)]) ==
            Alone(None, events)
            + [Interim(PartialResolution(if events == [] then id else events[0].id, revision, sends), now)]
  {
    hide Sent, Alone;
    AloneSnoc(None, events, Partial(id, now));
    if events != [] {
      SpeechRises(events);
    } else {
      assert Sent(Alone(None, [])) == [] by {
        NothingSent();
      }
    }
  }

  lemma NothingSent()
    ensures Sent(Alone(None, [])) == []
  {
  }

  /**
   * The final of a speech lands on the same id with the largest revision, and clears the slot for the next speech; one
   * without a partial before it lands on its own id.
   */
  lemma FinalLandsOnSpeech(events: seq<Event>, id: string)
    requires AllPartials(events)
    ensures var sent := Sent(Alone(None, events));
      && Alone(None, events + [Final(id)]) ==
         Alone(None, events) + [Landed(FinalResolution(if events == [] then id else events[0].id, |sent|))]
      && SlotAfter(None, events + [Final(id)]) == None
  {
    if events != [] {
      SpeechRises(events);
    }
    AloneSnoc(None, events, Final(id));
    assert (events + [Final(id)])[..|events|] == events;
  }

  // ---------- who speaks ----------

  /** Nowhere two colons in a row, nor one at the end. */
  predicate IsParticipant(key: string) {
    forall k :: 0 <= k < |key| && key[k] == ':' ==> k + 1 < |key| && key[k + 1] != ':'
  }

  /** The participant of an utterance id is what comes before its first two colons, or all of it if it has none. */
  lemma ParticipantKeyIs(key: string, rest: string)
    requires IsParticipant(key)
    ensures ParticipantKey(key + "::" + rest) == key && ParticipantKey(key) == key
  {
    var id := key + "::" + rest;
    assert id[|key|] == ':' && id[|key| + 1] == ':';
    assert forall k :: 0 <= k < |key| ==> id[k] == key[k] && !(id[k] == ':' && id[k + 1] == ':');
    assert SeparatorAt(id) == |key| && SeparatorAt(key) == |key|;
    assert id[..|key|] == key && key[..|key|] == key;
  }
}
