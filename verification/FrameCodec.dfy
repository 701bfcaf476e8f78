/** Fixed-width integers on the wire. */
module Bytes {
  type byte = b: int | 0 <= b < 0x100
  type int16 = s: int | -0x8000 <= s < 0x8000

  const U32_LIMIT: nat := 0x1_0000_0000

  function BE16(n: nat): (b: seq<byte>)
    requires n < 0x1_0000
    ensures |b| == 2
  {
    [n / 0x100, n % 0x100]
  }

  function BE32(n: nat): (b: seq<byte>)
    requires n < U32_LIMIT
    ensures |b| == 4
  {
    [n / 0x100_0000, n / 0x1_0000 % 0x100, n / 0x100 % 0x100, n % 0x100]
  }

  function ReadBE16(b: seq<byte>, at: nat): (n: nat)
    requires at + 2 <= |b|
    ensures n < 0x1_0000
  {
    (b[at] as int) * 0x100 + b[at + 1]
  }

  function ReadBE32(b: seq<byte>, at: nat): (n: nat)
    requires at + 4 <= |b|
    ensures n < U32_LIMIT
  {
    (b[at] as int) * 0x100_0000 + (b[at + 1] as int) * 0x1_0000 + (b[at + 2] as int) * 0x100 + b[at + 3]
  }

  lemma BE16RoundTrip(b: seq<byte>, at: nat)
    requires at + 2 <= |b|
    ensures BE16(ReadBE16(b, at)) == b[at..at + 2]
  {
  }

  lemma BE32RoundTrip(b: seq<byte>, at: nat)
    requires at + 4 <= |b|
    ensures BE32(ReadBE32(b, at)) == b[at..at + 4]
  {
    var n := ReadBE32(b, at);
    assert n / 0x100_0000 == b[at];
    assert n / 0x1_0000 == (b[at] as int) * 0x100 + b[at + 1];
    assert n / 0x100 == (b[at] as int) * 0x1_0000 + (b[at + 1] as int) * 0x100 + b[at + 2];
  }

  lemma ReadBE32OfBE32(n: nat, b: seq<byte>, at: nat)
    requires n < U32_LIMIT
    requires at + 4 <= |b| && b[at..at + 4] == BE32(n)
    ensures ReadBE32(b, at) == n
  {
    var e := b[at..at + 4];
    assert b[at] == e[0] && b[at + 1] == e[1] && b[at + 2] == e[2] && b[at + 3] == e[3];
    DigitsSum(n);
  }

  lemma DigitsSum(n: nat)
    ensures n == n / 0x100_0000 * 0x100_0000 + n / 0x1_0000 % 0x100 * 0x1_0000 + n / 0x100 % 0x100 * 0x100 + n % 0x100
  {
    assert n / 0x1_0000 == n / 0x100 / 0x100;
    assert n / 0x100_0000 == n / 0x1_0000 / 0x100;
  }

  /** The two bytes of an Int16Array element on a little-endian host. */
  function SampleBytes(s: int16): (b: seq<byte>)
    ensures |b| == 2
  {
    var u := if s < 0 then s + 0x1_0000 else s;
    [u % 0x100, u / 0x100]
  }

  function ReadSample(lo: byte, hi: byte): int16 {
    var u := lo + hi * 0x100;
    if u < 0x8000 then u else u - 0x1_0000
  }

  function EncodeSamples(samples: seq<int16>): (b: seq<byte>)
    ensures |b| == 2 * |samples|
  {
    if samples == [] then [] else SampleBytes(samples[0]) + EncodeSamples(samples[1..])
  }

  function DecodeSamples(b: seq<byte>): (samples: seq<int16>)
    requires |b| % 2 == 0
    ensures 2 * |samples| == |b|
  {
    if b == [] then [] else [ReadSample(b[0], b[1])] + DecodeSamples(b[2..])
  }

  lemma {:induction false} DecodeEncodeSamples(samples: seq<int16>)
    ensures DecodeSamples(EncodeSamples(samples)) == samples
  {
    if samples != [] {
      DecodeEncodeSamples(samples[1..]);
      assert EncodeSamples(samples)[2..] == EncodeSamples(samples[1..]);
    }
  }

  lemma {:induction false} EncodeDecodeSamples(b: seq<byte>)
    requires |b| % 2 == 0
    ensures EncodeSamples(DecodeSamples(b)) == b
  {
    if b != [] {
      EncodeDecodeSamples(b[2..]);
      assert SampleBytes(ReadSample(b[0], b[1])) == [b[0], b[1]];
    }
  }
}

/** The sidecar's audio frame format: a role header, a big-endian payload length, and the samples. */
module FrameCodec {
  import opened Optionals
  import opened Bytes

  const ROLE_LOCAL_SYSTEM: byte := 0x00
  const ROLE_LOCAL_MIC: byte := 0x01
  const ROLE_REMOTE_PARTICIPANT: byte := 0x02
  const ROLE_REMOTE_MIXED: byte := 0x03

  const MAX_PAYLOAD_BYTES: nat := 0x10_0000
  const MAX_PARTICIPANT_ID_BYTES: nat := 256

  datatype Result<+T> = Ok(value: T) | Err(error: ProtocolError)

  /** A participant id is held as its UTF-8 bytes. */
  datatype Role = LocalSystem | LocalMic | RemoteMixed | RemoteParticipant(id: seq<byte>)
  datatype Frame = Frame(role: Role, samples: seq<int16>)

  datatype ProtocolError =
    | ParticipantIdTooLong(length: nat)
    | UnknownRoleTag(tag: byte)
    | PayloadTooLarge(length: nat)
    | PayloadOdd(length: nat)
    | LengthOutOfRange(length: nat)

  // ---------- encoding ----------

  function EncodeRole(role: Role): Result<seq<byte>> {
    match role
    case LocalSystem => Ok([ROLE_LOCAL_SYSTEM])
    case LocalMic => Ok([ROLE_LOCAL_MIC])
    case RemoteMixed => Ok([ROLE_REMOTE_MIXED])
    case RemoteParticipant(id) =>
      if |id| > MAX_PARTICIPANT_ID_BYTES then Err(ParticipantIdTooLong(|id|))
      else Ok([ROLE_REMOTE_PARTICIPANT] + BE16(|id|) + id)
  }

  function EncodeFrame(f: Frame): Result<seq<byte>> {
    match EncodeRole(f.role)
    case Err(e) => Err(e)
    case Ok(header) =>
      var payload := EncodeSamples(f.samples);
      // writeUInt32BE throws a RangeError past 32 bits
      if |payload| >= U32_LIMIT then Err(LengthOutOfRange(|payload|))
      else Ok(header + BE32(|payload|) + payload)
  }

  /** The frames that both ends of the pipe agree to carry. */
  predicate Encodable(f: Frame)
    ensures Encodable(f) ==> EncodeFrame(f).Ok?
  {
    && 2 * |f.samples| <= MAX_PAYLOAD_BYTES
    && (f.role.RemoteParticipant? ==> |f.role.id| <= MAX_PARTICIPANT_ID_BYTES)
  }

  predicate AllEncodable(frames: seq<Frame>) {
    forall i :: 0 <= i < |frames| ==> Encodable(frames[i])
  }

  function EncodeAll(frames: seq<Frame>): seq<byte>
    requires AllEncodable(frames)
  {
    if frames == [] then [] else EncodeFrame(frames[0]).value + EncodeAll(frames[1..])
  }

  lemma NothingEncodes()
    ensures AllEncodable([]) && EncodeAll([]) == []
  {
  }

  lemma EncodeAllCons(f: Frame, frames: seq<Frame>)
    requires Encodable(f) && AllEncodable(frames)
    ensures AllEncodable([f] + frames)
    ensures EncodeAll([f] + frames) == EncodeFrame(f).value + EncodeAll(frames)
  {
    assert ([f] + frames)[1..] == frames;
  }

  // ---------- decoding ----------

  /** What one attempt to read the front of a buffer may find. */
  datatype Parse<+T> = NeedMore | Parsed(value: T, consumed: nat) | Malformed(error: ProtocolError)

  function DecodeRole(buf: seq<byte>): (p: Parse<Role>)
    ensures p.Parsed? ==> 0 < p.consumed <= |buf|
  {
    if |buf| == 0 then NeedMore
    else if buf[0] == ROLE_LOCAL_SYSTEM then Parsed(LocalSystem, 1)
    else if buf[0] == ROLE_LOCAL_MIC then Parsed(LocalMic, 1)
    else if buf[0] == ROLE_REMOTE_MIXED then Parsed(RemoteMixed, 1)
    else if buf[0] == ROLE_REMOTE_PARTICIPANT then
      if |buf| < 3 then NeedMore
      else
        var idLen := ReadBE16(buf, 1);
        if idLen > MAX_PARTICIPANT_ID_BYTES then Malformed(ParticipantIdTooLong(idLen))
        else if |buf| < 3 + idLen then NeedMore
        else Parsed(RemoteParticipant(buf[3..3 + idLen]), 3 + idLen)
    else Malformed(UnknownRoleTag(buf[0]))
  }

  function DecodeFrame(buf: seq<byte>): (p: Parse<Frame>)
    ensures p.Parsed? ==> 0 < p.consumed <= |buf|
  {
    match DecodeRole(buf)
    case NeedMore => NeedMore
    case Malformed(e) => Malformed(e)
    case Parsed(role, n) =>
      if |buf| < n + 4 then NeedMore
      else
        var len := ReadBE32(buf, n);
        if len > MAX_PAYLOAD_BYTES then Malformed(PayloadTooLarge(len))
        else if len % 2 != 0 then Malformed(PayloadOdd(len))
        else if |buf| < n + 4 + len then NeedMore
        else Parsed(Frame(role, DecodeSamples(buf[n + 4..n + 4 + len])), n + 4 + len)
  }

  /** Everything one push takes out of its buffer: the frames, the bytes left, and the error that stopped it. */
  datatype Drained = Drained(frames: seq<Frame>, rest: seq<byte>, failure: Option<ProtocolError>)

  function Drain(buf: seq<byte>): Drained
    decreases |buf|
  {
    match DecodeFrame(buf)
    case NeedMore => Drained([], buf, None)
    case Malformed(e) => Drained([], buf, Some(e))
    case Parsed(f, n) =>
      var d := Drain(buf[n..]);
      d.(frames := [f] + d.frames)
  }

  lemma DrainStep(buf: seq<byte>)
    ensures var p := DecodeFrame(buf);
      if p.Parsed? then
        var d := Drain(buf[p.consumed..]);
        Drain(buf) == Drained([p.value] + d.frames, d.rest, d.failure)
      else Drain(buf) == Drained([], buf, if p.Malformed? then Some(p.error) else None)
  {
  }

  datatype PushResult = Frames(frames: seq<Frame>) | Threw(error: ProtocolError)

  class FrameDecoder {
    var buffer: seq<byte>

    constructor ()
      ensures buffer == []
    {
      buffer := [];
    }

    method TryDecodeOne() returns (p: Parse<Frame>)
      modifies this
      ensures p == DecodeFrame(old(buffer))
      ensures buffer == if p.Parsed? then old(buffer)[p.consumed..] else old(buffer)
    {
      p := DecodeFrame(buffer);
      if p.Parsed? {
        buffer := buffer[p.consumed..];
      }
    }

    /** A push that throws has already taken the frames before the bad one out of the buffer; they are lost. */
    method Push(chunk: seq<byte>) returns (r: PushResult)
      modifies this
      ensures var d := Drain(old(buffer) + chunk);
        && buffer == d.rest
        && r == match d.failure case None => Frames(d.frames) case Some(e) => Threw(e)
    {
      hide Drain, DecodeFrame;
      buffer := if |buffer| == 0 then chunk else buffer + chunk;
      assert old(buffer) + chunk == buffer;
      var frames: seq<Frame> := [];
      ghost var whole := Drain(buffer);
      while true
        invariant whole == After(frames, Drain(buffer))
        decreases |buffer|
      {
        DrainStep(buffer);
        ghost var before := buffer;
        var next := TryDecodeOne();
        match next
        case NeedMore => return Frames(frames);
        case Malformed(e) => return Threw(e);
        case Parsed(f, n) =>
          AfterOne(frames, f, Drain(before[n..]));
          frames := frames + [f];
      }
    }
  }

  /** The drain of a buffer whose first frames have been taken out already. */
  function After(taken: seq<Frame>, d: Drained): Drained {
    Drained(taken + d.frames, d.rest, d.failure)
  }

  lemma AfterOne(taken: seq<Frame>, f: Frame, d: Drained)
    ensures After(taken, Drained([f] + d.frames, d.rest, d.failure)) == After(taken + [f], d)
  {
  }

  // ---------- more bytes never change what was already decided ----------

  lemma DecodeRoleStable(buf: seq<byte>, more: seq<byte>)
    ensures !DecodeRole(buf).NeedMore? ==> DecodeRole(buf + more) == DecodeRole(buf)
  {
    if |buf| >= 3 && buf[0] == ROLE_REMOTE_PARTICIPANT {
      var idLen := ReadBE16(buf, 1);
      if 3 + idLen <= |buf| {
        assert (buf + more)[3..3 + idLen] == buf[3..3 + idLen];
      }
    }
  }

  lemma DecodeFrameStable(buf: seq<byte>, more: seq<byte>)
    ensures !DecodeFrame(buf).NeedMore? ==> DecodeFrame(buf + more) == DecodeFrame(buf)
  {
    DecodeRoleStable(buf, more);
    var r := DecodeRole(buf);
    if r.Parsed? && r.consumed + 4 <= |buf| {
      var n := r.consumed;
      assert ReadBE32(buf + more, n) == ReadBE32(buf, n);
      var len := ReadBE32(buf, n);
      if n + 4 + len <= |buf| {
        assert (buf + more)[n + 4..n + 4 + len] == buf[n + 4..n + 4 + len];
      }
    }
  }

  /** Draining what is left of an error-free drain, plus new bytes, continues the drain of the whole. */
  lemma {:induction false} DrainContinues(buf: seq<byte>, more: seq<byte>)
    ensures var d := Drain(buf);
      var whole := Drain(buf + more);
      && (d.failure.None? ==>
            var next := Drain(d.rest + more);
            whole == next.(frames := d.frames + next.frames))
      && (d.failure.Some? ==> whole == Drained(d.frames, d.rest + more, d.failure))
    decreases |buf|
  {
    DecodeFrameStable(buf, more);
    hide DecodeFrame;
    var p := DecodeFrame(buf);
    if p.Parsed? {
      DrainContinues(buf[p.consumed..], more);
      assert (buf + more)[p.consumed..] == buf[p.consumed..] + more;
    }
  }

  /** A decoder that is waiting for bytes: the state of a fresh decoder, and of one whose last push returned. */
  predicate Waiting(buf: seq<byte>) {
    DecodeFrame(buf).NeedMore?
  }

  lemma {:induction false} DrainLeavesWaiting(buf: seq<byte>)
    ensures Drain(buf).failure.None? ==> Waiting(Drain(buf).rest)
    decreases |buf|
  {
    var p := DecodeFrame(buf);
    if p.Parsed? {
      DrainLeavesWaiting(buf[p.consumed..]);
    }
  }

  /** Once a push has thrown, every later push throws the same error and delivers nothing. */
  lemma {:induction false} MalformedForever(buf: seq<byte>, more: seq<byte>)
    requires Drain(buf).failure.Some?
    ensures Drain(Drain(buf).rest + more) == Drained([], Drain(buf).rest + more, Drain(buf).failure)
    decreases |buf|
  {
    var p := DecodeFrame(buf);
    if p.Parsed? {
      MalformedForever(buf[p.consumed..], more);
    } else {
      DecodeFrameStable(buf, more);
    }
  }

  // ---------- split invariance ----------

  function Flatten(chunks: seq<seq<byte>>): seq<byte> {
    if chunks == [] then [] else chunks[0] + Flatten(chunks[1..])
  }

  lemma FlattenStep(buf: seq<byte>, chunks: seq<seq<byte>>)
    requires chunks != []
    ensures buf + Flatten(chunks) == buf + chunks[0] + Flatten(chunks[1..])
  {
  }

  /**
   * A caller that pushes the chunks in order and stops at the first push that throws: the frames the
   * pushes returned, the frames the throwing push had decoded and dropped, the buffer, the error, and
   * how many pushes returned.
   */
  datatype Fed = Fed(delivered: seq<Frame>, dropped: seq<Frame>, buffer: seq<byte>,
                     failure: Option<ProtocolError>, returned: nat)

  function Feed(buf: seq<byte>, chunks: seq<seq<byte>>): (r: Fed)
    ensures r.returned <= |chunks|
    ensures r.failure.None? ==> r.returned == |chunks|
    decreases |chunks|
  {
    if chunks == [] then Fed([], [], buf, None, 0)
    else
      var d := Drain(buf + chunks[0]);
      if d.failure.Some? then Fed([], d.frames, d.rest, d.failure, 0)
      else
        var r := Feed(d.rest, chunks[1..]);
        r.(delivered := d.frames + r.delivered, returned := r.returned + 1)
  }

  /** A real decoder run over the chunks does what Feed says. */
  method FeedDecoder(decoder: FrameDecoder, chunks: seq<seq<byte>>)
    returns (delivered: seq<Frame>, failure: Option<ProtocolError>)
    modifies decoder
    ensures var r := Feed(old(decoder.buffer), chunks);
      delivered == r.delivered && failure == r.failure && decoder.buffer == r.buffer
  {
    hide Feed, Drain, DecodeFrame;
    delivered, failure := [], None;
    ghost var whole := Feed(decoder.buffer, chunks);
    var i := 0;
    assert chunks[0..] == chunks;
    while i < |chunks|
      invariant 0 <= i <= |chunks|
      invariant var r := Feed(decoder.buffer, chunks[i..]);
        whole.delivered == delivered + r.delivered && whole.buffer == r.buffer && whole.failure == r.failure
      decreases |chunks| - i
    {
      FeedStep(decoder.buffer, chunks[i..]);
      assert chunks[i..][0] == chunks[i] && chunks[i..][1..] == chunks[i + 1..];
      ghost var before := decoder.buffer;
      var r := decoder.Push(chunks[i]);
      match r {
        case Frames(frames) =>
          ghost var rest := Feed(decoder.buffer, chunks[i + 1..]).delivered;
          assert delivered + (frames + rest) == delivered + frames + rest;
          delivered := delivered + frames;
        case Threw(e) =>
          return delivered, Some(e);
      }
      i := i + 1;
    }
    assert chunks[i..] == [];
    FedNothing(decoder.buffer);
  }

  lemma FedNothing(buf: seq<byte>)
    ensures Feed(buf, []) == Fed([], [], buf, None, 0)
  {
  }

  lemma FeedNothing(buf: seq<byte>)
    requires Waiting(buf)
    ensures buf + Flatten([]) == buf && Drain(buf) == Drained([], buf, None)
      && Feed(buf, []) == Fed([], [], buf, None, 0)
  {
  }

  lemma FeedStep(buf: seq<byte>, chunks: seq<seq<byte>>)
    requires chunks != []
    ensures var d := Drain(buf + chunks[0]);
      var r := Feed(d.rest, chunks[1..]);
      Feed(buf, chunks) == if d.failure.Some? then Fed([], d.frames, d.rest, d.failure, 0)
                           else Fed(d.frames + r.delivered, r.dropped, r.buffer, r.failure, r.returned + 1)
  {
  }

  lemma {:induction false} SplitInvariance(buf: seq<byte>, chunks: seq<seq<byte>>)
    requires Waiting(buf)
    ensures var r := Feed(buf, chunks);
      var whole := Drain(buf + Flatten(chunks));
      // the same error, or none, however the stream is cut
      && r.failure == whole.failure
      // without an error: the same frames and the same bytes carried over
      && (r.failure.None? ==> r.delivered == whole.frames && r.dropped == [] && r.buffer == whole.rest)
      // with one: what is missing is exactly what the throwing push had decoded
      && r.delivered + r.dropped == whole.frames
      && r.delivered == Drain(buf + Flatten(chunks[..r.returned])).frames
    decreases |chunks|
  {
    hide DecodeFrame, Drain, Flatten, Feed, Waiting;
    FeedNothing(buf);
    assert chunks[..0] == [];
    if chunks != [] {
      var d := Drain(buf + chunks[0]);
      FeedStep(buf, chunks);
      FlattenStep(buf, chunks);
      DrainContinues(buf + chunks[0], Flatten(chunks[1..]));
      if d.failure.None? {
        DrainLeavesWaiting(buf + chunks[0]);
        SplitInvariance(d.rest, chunks[1..]);
        var r := Feed(d.rest, chunks[1..]);
        var front := chunks[..r.returned + 1];
        assert front[0] == chunks[0] && front[1..] == chunks[1..][..r.returned];
        FlattenStep(buf, front);
        DrainContinues(buf + chunks[0], Flatten(front[1..]));
      }
    }
  }

  // ---------- printing and parsing ----------

  lemma DecodeRoleOfEncoded(role: Role, more: seq<byte>)
    requires EncodeRole(role).Ok?
    ensures DecodeRole(EncodeRole(role).value + more) == Parsed(role, |EncodeRole(role).value|)
  {
    if role.RemoteParticipant? {
      var b := EncodeRole(role).value + more;
      assert ReadBE16(b, 1) == |role.id|;
      assert b[3..3 + |role.id|] == role.id;
    }
  }

  /** What the decoder makes of any frame the encoder is willing to write: the payload limit is the decoder's alone. */
  lemma DecodeOfEncoded(f: Frame, more: seq<byte>)
    requires EncodeFrame(f).Ok?
    ensures var b := EncodeFrame(f).value;
      var len := 2 * |f.samples|;
      DecodeFrame(b + more) == if len <= MAX_PAYLOAD_BYTES then Parsed(f, |b|) else Malformed(PayloadTooLarge(len))
  {
    hide BE32, ReadBE32, EncodeSamples, DecodeSamples, EncodeRole, DecodeRole;
    var header, size, payload := EncodeRole(f.role).value, BE32(2 * |f.samples|), EncodeSamples(f.samples);
    var b := EncodeFrame(f).value + more;
    HeaderSizePayload(header, size, payload, more);
    DecodeRoleOfEncoded(f.role, size + payload + more);
    ReadBE32OfBE32(|payload|, b, |header|);
    DecodeEncodeSamples(f.samples);
  }

  lemma HeaderSizePayload(header: seq<byte>, size: seq<byte>, payload: seq<byte>, more: seq<byte>)
    ensures var b := header + size + payload + more;
      var n, m := |header|, |header| + |size|;
      b == header + (size + payload + more) && b[n..m] == size && b[m..m + |payload|] == payload
  {
  }

  lemma {:induction false} DrainOfEncodeAll(frames: seq<Frame>)
    requires AllEncodable(frames)
    ensures Drain(EncodeAll(frames)) == Drained(frames, [], None)
  {
    if frames != [] {
      var b := EncodeFrame(frames[0]).value;
      var tail := EncodeAll(frames[1..]);
      DrainOfEncodeAll(frames[1..]);
      DecodeOfEncoded(frames[0], tail);
      assert (b + tail)[|b|..] == tail;
      DrainStep(b + tail);
      hide DecodeFrame, EncodeFrame, Encodable, Drain;
      assert Drain(b + tail) == Drained([frames[0]] + frames[1..], [], None);
    }
  }

  /** Any cut of an encoded frame sequence comes back as exactly that sequence with nothing left over. */
  lemma RoundTrip(frames: seq<Frame>, chunks: seq<seq<byte>>)
    requires AllEncodable(frames)
    requires Flatten(chunks) == EncodeAll(frames)
    ensures Feed([], chunks) == Fed(frames, [], [], None, |chunks|)
  {
    SplitInvariance([], chunks);
    assert [] + Flatten(chunks) == EncodeAll(frames);
    DrainOfEncodeAll(frames);
  }

  /** A written frame survives the pipe if and only if it is within the decoder's payload limit. */
  lemma RoundTripExactly(f: Frame)
    requires EncodeFrame(f).Ok?
    ensures Drain(EncodeFrame(f).value) == Drained([f], [], None) <==> 2 * |f.samples| <= MAX_PAYLOAD_BYTES
  {
    var b := EncodeFrame(f).value;
    assert b + [] == b;
    DecodeOfEncoded(f, []);
  }

  /**
   * Every frame the encoder writes past that limit is lost with an error, and there is one: 0x8_0001 silent samples.
   */
  lemma OversizedIsLost(f: Frame)
    requires EncodeFrame(f).Ok? && 2 * |f.samples| > MAX_PAYLOAD_BYTES
    ensures var b := EncodeFrame(f).value;
      Drain(b) == Drained([], b, Some(PayloadTooLarge(2 * |f.samples|)))
  {
    var b := EncodeFrame(f).value;
    assert b + [] == b;
    DecodeOfEncoded(f, []);
    DrainStep(b);
  }

  lemma OversizedFrame()
    ensures var f := Frame(LocalMic, Silence(0x8_0001));
      && EncodeFrame(f).Ok?
      && Drain(EncodeFrame(f).value) == Drained([], EncodeFrame(f).value, Some(PayloadTooLarge(0x10_0002)))
  {
    hide EncodeSamples;
    var f := Frame(LocalMic, Silence(0x8_0001));
    OversizedIsLost(f);
  }

  function Silence(n: nat): (samples: seq<int16>)
    ensures |samples| == n
  {
    seq(n, i => 0)
  }

  lemma EncodeOfDecodedRole(buf: seq<byte>)
    requires DecodeRole(buf).Parsed?
    ensures var p := DecodeRole(buf);
      && EncodeRole(p.value) == Ok(buf[..p.consumed])
      && (p.value.RemoteParticipant? ==> |p.value.id| <= MAX_PARTICIPANT_ID_BYTES)
  {
    var p := DecodeRole(buf);
    if p.value.RemoteParticipant? {
      BE16RoundTrip(buf, 1);
      assert |p.value.id| == ReadBE16(buf, 1);
      assert buf[..p.consumed] == [ROLE_REMOTE_PARTICIPANT] + buf[1..3] + p.value.id;
    } else {
      assert buf[..p.consumed] == [buf[0]];
    }
  }

  lemma EncodeOfDecoded(buf: seq<byte>)
    requires DecodeFrame(buf).Parsed?
    ensures var p := DecodeFrame(buf);
      Encodable(p.value) && EncodeFrame(p.value) == Ok(buf[..p.consumed])
  {
    hide BE32, ReadBE32, EncodeSamples, DecodeSamples, EncodeRole, DecodeRole;
    var n := DecodeRole(buf).consumed;
    var len := ReadBE32(buf, n);
    EncodeOfDecodedRole(buf);
    BE32RoundTrip(buf, n);
    EncodeDecodeSamples(buf[n + 4..n + 4 + len]);
    ThreeSlices(buf, n, n + 4, n + 4 + len);
  }

  lemma ThreeSlices(buf: seq<byte>, i: nat, j: nat, k: nat)
    requires i <= j <= k <= |buf|
    ensures buf[..k] == buf[..i] + buf[i..j] + buf[j..k]
  {
  }

  // ---------- what the decoder says, exactly ----------

  /** The bytes are those of an encodable frame, or end inside it. */
  predicate Continues(buf: seq<byte>, f: Frame) {
    Encodable(f) && buf < EncodeFrame(f).value
  }

  /** The last byte is the first of the two of an id's length, or one of the first three of a payload's. */
  predicate InLengthField(buf: seq<byte>) {
    && |buf| > 1
    && if buf[0] == 0x02 then
         |buf| == 2 || (ReadBE16(buf, 1) <= 256 && 0 < |buf| - (3 + ReadBE16(buf, 1)) < 4)
       else buf[0] <= 0x03 && |buf| < 5
  }

  /** A frame is decoded if and only if an encodable frame's bytes have arrived, and it is that one. */
  lemma DecodesIff(buf: seq<byte>)
    ensures DecodeFrame(buf).Parsed? <==> exists f :: Encodable(f) && EncodeFrame(f).value <= buf
    ensures forall f :: Encodable(f) && EncodeFrame(f).value <= buf ==>
      DecodeFrame(buf) == Parsed(f, |EncodeFrame(f).value|)
  {
    hide DecodeFrame, EncodeFrame, Encodable;
    if DecodeFrame(buf).Parsed? {
      EncodeOfDecoded(buf);
    }
    forall f | Encodable(f) && EncodeFrame(f).value <= buf
      ensures DecodeFrame(buf) == Parsed(f, |EncodeFrame(f).value|)
    {
      var b := EncodeFrame(f).value;
      EncodableIs(f);
      DecodeOfEncoded(f, buf[|b|..]);
      assert b + buf[|b|..] == buf;
    }
  }

  lemma EncodableIs(f: Frame)
    ensures Encodable(f) ==> EncodeFrame(f).Ok? && 2 * |f.samples| <= MAX_PAYLOAD_BYTES
  {
  }

  /** Before the last byte of an encodable frame the decoder waits. */
  lemma WaitsForTheRest(buf: seq<byte>, f: Frame)
    requires Continues(buf, f)
    ensures DecodeFrame(buf).NeedMore?
  {
    hide DecodeFrame, EncodeFrame;
    EncodableIs(f);
    var b := EncodeFrame(f).value;
    DecodeOfEncoded(f, []);
    DecodeFrameStable(buf, b[|buf|..]);
    assert buf + b[|buf|..] == b && b + [] == b;
  }

  lemma WaitsInLengthField(buf: seq<byte>)
    requires InLengthField(buf)
    ensures DecodeFrame(buf).NeedMore?
  {
    hide ReadBE32, DecodeSamples;
  }

  /** Otherwise the decoder waits only for an encodable frame that begins with these bytes. */
  lemma WaitsForAFrame(buf: seq<byte>) returns (f: Frame)
    requires DecodeFrame(buf).NeedMore? && !InLengthField(buf)
    ensures Continues(buf, f)
  {
    hide BE32, ReadBE32, DecodeSamples, EncodeSamples;
    var p := DecodeRole(buf);
    if p.Parsed? {
      EncodeOfDecodedRole(buf);
      if |buf| == p.consumed {
        f := Frame(p.value, []);
        assert buf[..p.consumed] == buf;
      } else {
        f := PayloadToCome(buf);
      }
    } else if |buf| == 0 {
      f := Frame(LocalMic, []);
    } else {
      f := IdToCome(buf);
    }
  }

  lemma IdToCome(buf: seq<byte>) returns (f: Frame)
    requires DecodeRole(buf).NeedMore? && |buf| > 0 && |buf| != 2
    ensures Continues(buf, f)
  {
    hide BE32, EncodeSamples;
    if |buf| == 1 {
      f := Frame(RemoteParticipant([]), []);
      assert EncodeFrame(f).value[0] == buf[0];
    } else {
      var idLen := ReadBE16(buf, 1);
      var id := buf[3..] + Zeros(3 + idLen - |buf|);
      f := Frame(RemoteParticipant(id), []);
      BE16RoundTrip(buf, 1);
      var b := EncodeFrame(f).value;
      assert buf == [buf[0]] + buf[1..3] + buf[3..];
      assert b == [buf[0]] + buf[1..3] + id + BE32(0) + EncodeSamples([]);
      assert b[..|buf|] == buf;
    }
  }

  function Zeros(n: nat): (b: seq<byte>)
    ensures |b| == n
  {
    seq(n, i => 0)
  }

  lemma PayloadToCome(buf: seq<byte>) returns (f: Frame)
    requires DecodeFrame(buf).NeedMore? && DecodeRole(buf).Parsed? && |buf| >= DecodeRole(buf).consumed + 4
    ensures Continues(buf, f)
  {
    hide BE32, ReadBE32, DecodeSamples, EncodeSamples, DecodeRole, EncodeRole;
    var p := DecodeRole(buf);
    var n := p.consumed;
    var len := ReadBE32(buf, n);
    var payload := buf[n + 4..] + Zeros(n + 4 + len - |buf|);
    f := Frame(p.value, DecodeSamples(payload));
    EncodeOfDecodedRole(buf);
    BE32RoundTrip(buf, n);
    EncodeDecodeSamples(payload);
    var b := EncodeFrame(f).value;
    ThreeSlices(buf, n, n + 4, |buf|);
    assert buf[..|buf|] == buf;
    assert b == buf[..n] + buf[n..n + 4] + payload;
    assert b[..|buf|] == buf;
  }

  /**
   * The decoder waits if and only if the bytes so far begin some encodable frame, or end inside a length field. So a
   * frame that cannot come any more is reported as soon as its tag or its length field is complete.
   */
  lemma WaitsIff(buf: seq<byte>)
    ensures DecodeFrame(buf).NeedMore? <==> InLengthField(buf) || exists f :: Continues(buf, f)
  {
    hide DecodeFrame, InLengthField, Continues;
    if InLengthField(buf) {
      WaitsInLengthField(buf);
    } else if DecodeFrame(buf).NeedMore? {
      var f := WaitsForAFrame(buf);
    }
    forall f | Continues(buf, f)
      ensures DecodeFrame(buf).NeedMore?
    {
      WaitsForTheRest(buf, f);
    }
  }

  /** Which error is reported, by the bytes: the tag, the length of the id, or the length of the payload. */
  lemma ReportsWhatIsWrong(buf: seq<byte>)
    requires DecodeFrame(buf).Malformed?
    ensures |buf| > 0
    ensures var e := DecodeFrame(buf).error;
      if buf[0] > 0x03 then e == UnknownRoleTag(buf[0])
      else if buf[0] == 0x02 && |buf| >= 3 && ReadBE16(buf, 1) > 256 then e == ParticipantIdTooLong(ReadBE16(buf, 1))
      else
        var n := if buf[0] == 0x02 && |buf| >= 3 then 3 + ReadBE16(buf, 1) else 1;
        && |buf| >= n + 4
        && e == (if ReadBE32(buf, n) > 0x10_0000 then PayloadTooLarge(ReadBE32(buf, n))
                 else PayloadOdd(ReadBE32(buf, n)))
        && (e.PayloadOdd? ==> e.length % 2 == 1)
  {
    hide ReadBE32, DecodeSamples;
  }

  /**
   * The encoder refuses a frame if and only if its id has more than 256 bytes or its payload needs more than 32 bits.
   */
  lemma EncodeFailsIff(f: Frame)
    ensures EncodeFrame(f) ==
      if f.role.RemoteParticipant? && |f.role.id| > 256 then Err(ParticipantIdTooLong(|f.role.id|))
      else if 2 * |f.samples| >= 0x1_0000_0000 then Err(LengthOutOfRange(2 * |f.samples|))
      else Ok(EncodeFrame(f).value)
  {
    hide EncodeSamples, BE32;
  }

  /** No byte is lost, invented or reordered: the decoded frames print back to what was consumed. */
  lemma {:induction false} DrainConserves(buf: seq<byte>)
    ensures var d := Drain(buf);
      && AllEncodable(d.frames)
      && EncodeAll(d.frames) + d.rest == buf
    decreases |buf|
  {
    DrainStep(buf);
    hide DecodeFrame, EncodeFrame, Encodable, AllEncodable, EncodeAll, Drain;
    var p := DecodeFrame(buf);
    if !p.Parsed? {
      NothingEncodes();
    } else {
      EncodeOfDecoded(buf);
      DrainConserves(buf[p.consumed..]);
      var d := Drain(buf[p.consumed..]);
      EncodeAllCons(p.value, d.frames);
      calc {
        EncodeAll([p.value] + d.frames) + d.rest;
        buf[..p.consumed] + EncodeAll(d.frames) + d.rest;
        buf[..p.consumed] + (EncodeAll(d.frames) + d.rest);
        buf;
      }
    }
  }
}

/** The capture sidecar's end of the pipe: the same frame, written with partial and interrupted writes. */
module SidecarWriter {
  import opened Optionals
  import opened Bytes
  import opened FrameCodec

  /** One return of write(2): some bytes taken, EINTR, or another error. */
  datatype WriteOutcome = Wrote(n: nat) | Interrupted | WriteError

  /** How write_full ended, or Pending if the given outcomes ran out while it was still looping. */
  datatype WriteStatus = Completed | Failed | Pending

  class Pipe {
    var written: seq<byte>

    constructor ()
      ensures written == []
    {
      written := [];
    }
  }

  method WriteFull(fd: Pipe, buf: seq<byte>, outcomes: seq<WriteOutcome>) returns (status: WriteStatus, used: nat)
    modifies fd
    ensures used <= |outcomes|
    ensures old(fd.written) <= fd.written && fd.written[|old(fd.written)|..] <= buf
    ensures status.Completed? ==> fd.written == old(fd.written) + buf
    ensures status.Failed? ==> used > 0 && outcomes[used - 1].WriteError?
    ensures WriteError !in outcomes ==> !status.Failed?
    ensures status.Pending? ==> used == |outcomes| && |fd.written| < |old(fd.written)| + |buf|
  {
    var off := 0;
    used := 0;
    while off < |buf|
      invariant 0 <= off <= |buf|
      invariant 0 <= used <= |outcomes|
      invariant fd.written == old(fd.written) + buf[..off]
      decreases |outcomes| - used
    {
      if used == |outcomes| {
        return Pending, used;
      }
      var w := outcomes[used];
      used := used + 1;
      match w
      case WriteError => return Failed, used;
      case Interrupted =>
      case Wrote(n) =>
        var taken := if n <= |buf| - off then n else |buf| - off;
        fd.written := fd.written + buf[off..off + taken];
        assert buf[..off] + buf[off..off + taken] == buf[..off + taken];
        off := off + taken;
    }
    assert buf[..off] == buf;
    status := Completed;
  }

  /** The bytes of one sidecar frame; the length field and the payload are cut to 32 bits. */
  function SidecarBytes(tag: byte, samples: seq<int16>): seq<byte> {
    var payloadBytes := 2 * |samples| % U32_LIMIT;
    [tag] + BE32(payloadBytes) + EncodeSamples(samples)[..payloadBytes]
  }

  method WriteFrame(fd: Pipe, tag: byte, samples: seq<int16>, outcomes: seq<WriteOutcome>) returns (status: WriteStatus)
    modifies fd
    ensures old(fd.written) <= fd.written
    ensures fd.written[|old(fd.written)|..] <= SidecarBytes(tag, samples)
    ensures status.Completed? ==> fd.written == old(fd.written) + SidecarBytes(tag, samples)
    ensures WriteError !in outcomes ==> !status.Failed?
  {
    hide EncodeSamples, SidecarBytes, BE32;
    var header := new byte[5](_ => 0);
    header[0] := tag;
    var payloadBytes := 2 * |samples| % U32_LIMIT;
    header[1] := payloadBytes / 0x100_0000 % 0x100;
    header[2] := payloadBytes / 0x1_0000 % 0x100;
    header[3] := payloadBytes / 0x100 % 0x100;
    header[4] := payloadBytes % 0x100;
    var payload := EncodeSamples(samples)[..payloadBytes];
    FrameParts(tag, samples, header[..]);
    var used;
    status, used := WriteFull(fd, header[..], outcomes);
    if !status.Completed? {
      return;
    }
    status, used := WriteFull(fd, payload, outcomes[used..]);
  }

  lemma FrameParts(tag: byte, samples: seq<int16>, header: seq<byte>)
    requires |header| == 5 && header[0] == tag
    requires var n := 2 * |samples| % U32_LIMIT;
      && header[1] == n / 0x100_0000 % 0x100 && header[2] == n / 0x1_0000 % 0x100
      && header[3] == n / 0x100 % 0x100 && header[4] == n % 0x100
    ensures SidecarBytes(tag, samples) == header + EncodeSamples(samples)[..2 * |samples| % U32_LIMIT]
  {
    hide EncodeSamples;
    assert header == [tag] + BE32(2 * |samples| % U32_LIMIT);
  }

  /** The sidecar writes the host's encoding of a local frame exactly while the payload length fits its 32-bit field. */
  lemma SidecarMatchesEncoder(role: Role, samples: seq<int16>)
    requires role.LocalSystem? || role.LocalMic?
    ensures var tag := if role.LocalSystem? then ROLE_LOCAL_SYSTEM else ROLE_LOCAL_MIC;
      EncodeFrame(Frame(role, samples)) == Ok(SidecarBytes(tag, samples)) <==> 2 * |samples| < U32_LIMIT
  {
    var payload := EncodeSamples(samples);
    assert payload[..|payload|] == payload;
  }

  /** Local frames written by the sidecar, cut anywhere by the pipe, are decoded as they were captured. */
  lemma SidecarToDecoder(role: Role, captures: seq<seq<int16>>, chunks: seq<seq<byte>>)
    requires role.LocalSystem? || role.LocalMic?
    requires forall i :: 0 <= i < |captures| ==> 2 * |captures[i]| <= MAX_PAYLOAD_BYTES
    requires Flatten(chunks) == WrittenBy(role, captures)
    ensures Feed([], chunks) == Fed(FramesOf(role, captures), [], [], None, |chunks|)
  {
    WrittenIsEncoded(role, captures);
    RoundTrip(FramesOf(role, captures), chunks);
  }

  function FramesOf(role: Role, captures: seq<seq<int16>>): (frames: seq<Frame>)
    ensures |frames| == |captures|
    ensures forall i :: 0 <= i < |frames| ==> frames[i] == Frame(role, captures[i])
  {
    seq(|captures|, i requires 0 <= i < |captures| => Frame(role, captures[i]))
  }

  function WrittenBy(role: Role, captures: seq<seq<int16>>): seq<byte>
    requires role.LocalSystem? || role.LocalMic?
  {
    if captures == [] then []
    else SidecarBytes(if role.LocalSystem? then ROLE_LOCAL_SYSTEM else ROLE_LOCAL_MIC, captures[0])
         + WrittenBy(role, captures[1..])
  }

  lemma {:induction false} WrittenIsEncoded(role: Role, captures: seq<seq<int16>>)
    requires role.LocalSystem? || role.LocalMic?
    requires forall i :: 0 <= i < |captures| ==> 2 * |captures[i]| <= MAX_PAYLOAD_BYTES
    ensures AllEncodable(FramesOf(role, captures))
    ensures WrittenBy(role, captures) == EncodeAll(FramesOf(role, captures))
  {
    if captures != [] {
      SidecarMatchesEncoder(role, captures[0]);
      WrittenIsEncoded(role, captures[1..]);
      assert FramesOf(role, captures)[1..] == FramesOf(role, captures[1..]);
    }
  }
}
