/**
 MQTT packets as bytes: the fixed header with its remaining length, PUBLISH and the acknowledgements, and
 the parse of a whole byte stream into packets.
 */
module Codec {
  import opened Messages

  const CONNECT := 1
  const CONNACK := 2
  const PUBLISH := 3
  const PUBACK := 4
  const PUBREC := 5
  const PUBREL := 6
  const PUBCOMP := 7
  const SUBACK := 9
  const UNSUBACK := 11
  const PINGREQ := 12
  const DISCONNECT := 14

  const MAX_REMAINING_LENGTH_BYTES := 4
  const REMAINING_LENGTH_LIMIT := 0x1000_0000
  const MAX_INT2 := 65535

  type Bytes = seq<Byte>

  // ---------- the header byte ----------

  datatype Header = Header(ptype: nat, dup: bool, qos: nat, retain: bool)

  function Bit(b: bool): nat { if b then 1 else 0 }

  /** The bit fields of the header byte, least significant first: retain, qos, dup, type. */
  function HeaderByte(h: Header): Byte
    requires h.ptype < 16 && h.qos < 4
  {
    Bit(h.retain) + 2 * h.qos + 8 * Bit(h.dup) + 16 * h.ptype
  }

  function HeaderOf(b: Byte): Header {
    Header(b / 16, b / 8 % 2 == 1, b / 2 % 4, b % 2 == 1)
  }

  lemma HeaderRoundTrip(h: Header)
    requires h.ptype < 16 && h.qos < 4
    ensures HeaderOf(HeaderByte(h)) == h
  {
    var b := HeaderByte(h);
    assert b / 2 == h.qos + 4 * Bit(h.dup) + 8 * h.ptype;
    assert b / 8 == Bit(h.dup) + 2 * h.ptype;
  }

  // ---------- the remaining length ----------

  /** The base-128 digits of the length, least significant first, with the top bit set on all but the last. */
  function Encoded(length: nat): Bytes {
    if length < 128 then [length] else [length % 128 + 128] + Encoded(length / 128)
  }

  lemma EncodedStep(n: nat)
    ensures Encoded(n) == if n / 128 > 0 then [n % 128 + 128] + Encoded(n / 128) else [n % 128]
    ensures n / 128 > 0 ==> n / 128 < n
  {
  }

  /** MQTTPacket_encode. */
  method Encode(length: nat) returns (buf: Bytes)
    ensures buf == Encoded(length)
  {
    hide Encoded;
    buf := [];
    var rest := length;
    var more := true;
    while more
      invariant Encoded(length) == buf + if more then Encoded(rest) else []
      decreases rest, more
    {
      EncodedStep(rest);
      var d: Byte := rest % 128;
      ghost var before := rest;
      rest := rest / 128;
      if rest > 0 {
        d := d + 128;
      }
      assert Encoded(before) == [d] + if rest > 0 then Encoded(rest) else [];
      buf := buf + [d];
      more := rest > 0;
    }
  }

  /** What the first bytes of a stream tell: nothing definite yet, a bad length, or where the data begins and
      how much there is. */
  datatype Start = Short | Bad | Start(begin: nat, remaining: nat)

  /** MQTTPacket_decode, on a stream of which `k` bytes may belong to the length. */
  function DecodeLength(s: Bytes, k: nat): Start {
    if k == 0 then Bad
    else if s == [] then Short
    else if s[0] < 128 then Start(1, s[0])
    else
      match DecodeLength(s[1..], k - 1)
      case Start(n, v) => Start(n + 1, s[0] - 128 + 128 * v)
      case other => other
  }

  function ReadStart(s: Bytes): Start {
    if s == [] then Short
    else
      match DecodeLength(s[1..], MAX_REMAINING_LENGTH_BYTES)
      case Start(n, v) => Start(n + 1, v)
      case other => other
  }

  function Pow128(k: nat): (r: nat)
    ensures r >= 1
  {
    if k == 0 then 1 else 128 * Pow128(k - 1)
  }

  lemma {:induction false} DecodeEncoded(n: nat, rest: Bytes, k: nat)
    ensures DecodeLength(Encoded(n) + rest, k) == if 0 < k && n < Pow128(k) then Start(|Encoded(n)|, n) else Bad
  {
    hide DecodeLength, Encoded;
    EncodedStep(n);
    if n < 128 || k == 0 {
      DecodeLast(n, rest, k);
    } else {
      assert Encoded(n) + rest == [n % 128 + 128] + (Encoded(n / 128) + rest);
      DecodeEncoded(n / 128, rest, k - 1);
      DecodeStep(n % 128, Encoded(n / 128) + rest, k);
      BelowTimes128(n, Pow128(k - 1));
    }
  }

  lemma DecodeLast(n: nat, rest: Bytes, k: nat)
    ensures n < 128 && k > 0 ==> DecodeLength([n] + rest, k) == Start(1, n)
    ensures k == 0 ==> DecodeLength(Encoded(n) + rest, k) == Bad
  {
  }

  lemma DecodeStep(d: nat, s: Bytes, k: nat)
    requires d < 128 && k > 0
    ensures DecodeLength([d + 128] + s, k) ==
              match DecodeLength(s, k - 1)
              case Start(n, v) => Start(n + 1, d + 128 * v)
              case other => other
  {
    assert ([d + 128] + s)[1..] == s;
  }

  lemma BelowTimes128(n: nat, p: nat)
    ensures n / 128 < p <==> n < 128 * p
  {
  }

  /** A length is read back exactly when it is below 2^28. */
  lemma StartRoundTrip(b: Byte, n: nat, rest: Bytes)
    ensures ReadStart([b] + Encoded(n) + rest) ==
              if n < REMAINING_LENGTH_LIMIT then Start(1 + |Encoded(n)|, n) else Bad
  {
    var s := [b] + Encoded(n) + rest;
    assert s[1..] == Encoded(n) + rest;
    DecodeEncoded(n, rest, MAX_REMAINING_LENGTH_BYTES);
    assert Pow128(4) == 128 * (128 * (128 * (128 * 1)));
  }

  /** More bytes do not change what has been decided. */
  lemma {:induction false} DecodeIsStable(s: Bytes, t: Bytes, k: nat)
    requires DecodeLength(s, k) != Short
    ensures DecodeLength(s + t, k) == DecodeLength(s, k)
    ensures DecodeLength(s, k).Start? ==> DecodeLength(s, k).begin <= |s|
  {
    if k != 0 && s[0] >= 128 {
      assert (s + t)[1..] == s[1..] + t;
      DecodeIsStable(s[1..], t, k - 1);
    }
  }

  lemma StartIsStable(s: Bytes, t: Bytes)
    requires ReadStart(s) != Short
    ensures ReadStart(s + t) == ReadStart(s)
    ensures ReadStart(s).Start? ==> 2 <= ReadStart(s).begin <= |s|
  {
    assert (s + t)[1..] == s[1..] + t;
    DecodeIsStable(s[1..], t, MAX_REMAINING_LENGTH_BYTES);
    BeginIsPositive(s[1..], MAX_REMAINING_LENGTH_BYTES);
  }

  lemma {:induction false} BeginIsPositive(s: Bytes, k: nat)
    ensures DecodeLength(s, k).Start? ==> 1 <= DecodeLength(s, k).begin <= k
  {
    if k != 0 && s != [] && s[0] >= 128 {
      BeginIsPositive(s[1..], k - 1);
    }
  }

  // ---------- a stream of packets ----------

  /** What belongs to a socket: nothing if there is no entry for it. */
  function At<T>(m: map<int, seq<T>>, socket: int): seq<T> {
    if socket in m then m[socket] else []
  }

  /** A packet as MQTTPacket_Factory reads it, before its data is looked into. */
  datatype Frame = Frame(header: Byte, data: Bytes)

  function Raw(f: Frame): Bytes {
    [f.header] + Encoded(|f.data|) + f.data
  }

  function Stream(fs: seq<Frame>): Bytes {
    if fs == [] then [] else Raw(fs[0]) + Stream(fs[1..])
  }

  /** The number of bytes of the first packet, or 0 if there is no whole packet. */
  function FrameLength(s: Bytes): (n: nat)
    ensures n <= |s|
  {
    match ReadStart(s)
    case Start(begin, remaining) =>
      StartIsStable(s, []);
      if begin + remaining <= |s| then begin + remaining else 0
    case _ => 0
  }

  function FirstFrame(s: Bytes): Frame
    requires FrameLength(s) > 0
  {
    StartIsStable(s, []);
    var begin := ReadStart(s).begin;
    Frame(s[0], s[begin..FrameLength(s)])
  }

  /** The packets of a stream, */
  function Frames(s: Bytes): seq<Frame>
    decreases |s|
  {
    if FrameLength(s) == 0 then [] else [FirstFrame(s)] + Frames(s[FrameLength(s)..])
  }

  /** and what is left after them. */
  function Rest(s: Bytes): Bytes
    decreases |s|
  {
    if FrameLength(s) == 0 then s else Rest(s[FrameLength(s)..])
  }

  lemma FirstIsStable(s: Bytes, t: Bytes)
    requires FrameLength(s) > 0
    ensures FrameLength(s + t) == FrameLength(s) && FirstFrame(s + t) == FirstFrame(s)
    ensures (s + t)[FrameLength(s)..] == s[FrameLength(s)..] + t
  {
    StartIsStable(s, t);
  }

  /** A stream can be parsed as it arrives: what is left is parsed together with what follows. */
  lemma {:induction false} ParseGoesOn(s: Bytes, t: Bytes)
    ensures Frames(s + t) == Frames(s) + Frames(Rest(s) + t)
    ensures Rest(s + t) == Rest(Rest(s) + t)
    decreases |s|
  {
    if FrameLength(s) > 0 {
      FirstIsStable(s, t);
      ParseGoesOn(s[FrameLength(s)..], t);
    }
  }

  /** Reading back what was written: the first packet is found, and nothing of what follows is taken. */
  lemma RawIsFrame(f: Frame, rest: Bytes)
    requires |f.data| < REMAINING_LENGTH_LIMIT
    ensures FrameLength(Raw(f) + rest) == |Raw(f)| && FirstFrame(Raw(f) + rest) == f
    ensures (Raw(f) + rest)[|Raw(f)|..] == rest
  {
    var s := Raw(f) + rest;
    assert s == [f.header] + Encoded(|f.data|) + (f.data + rest);
    StartRoundTrip(f.header, |f.data|, f.data + rest);
    var begin := 1 + |Encoded(|f.data|)|;
    assert s[begin..begin + |f.data|] == f.data;
  }

  /** A packet whose remaining length is 2^28 or more is never found. */
  lemma TooLongIsNoFrame(f: Frame, rest: Bytes)
    requires |f.data| >= REMAINING_LENGTH_LIMIT
    ensures ReadStart(Raw(f) + rest) == Bad && Frames(Raw(f) + rest) == []
  {
    var s := Raw(f) + rest;
    assert s == [f.header] + Encoded(|f.data|) + (f.data + rest);
    StartRoundTrip(f.header, |f.data|, f.data + rest);
  }

  /** The packets of a written stream are those that were written. */
  lemma {:induction false} StreamRoundTrip(fs: seq<Frame>)
    requires forall f :: f in fs ==> |f.data| < REMAINING_LENGTH_LIMIT
    ensures Frames(Stream(fs)) == fs && Rest(Stream(fs)) == []
  {
    if fs != [] {
      RawIsFrame(fs[0], Stream(fs[1..]));
      StreamRoundTrip(fs[1..]);
    }
  }

  lemma {:induction false} StreamAppend(fs: seq<Frame>, f: Frame)
    ensures Stream(fs + [f]) == Stream(fs) + Raw(f)
  {
    if fs == [] {
      assert [f][1..] == [] && Raw(f) + [] == Raw(f);
      assert fs + [f] == [f];
    } else {
      assert (fs + [f])[1..] == fs[1..] + [f];
      StreamAppend(fs[1..], f);
    }
  }

  /** Any part of a written stream that has arrived gives the first of the packets. */
  lemma PrefixOfStream(fs: seq<Frame>, arrived: Bytes)
    requires forall f :: f in fs ==> |f.data| < REMAINING_LENGTH_LIMIT
    requires arrived <= Stream(fs)
    ensures Frames(arrived) <= fs
    ensures arrived == Stream(fs) ==> Frames(arrived) == fs
  {
    StreamRoundTrip(fs);
    ParseGoesOn(arrived, Stream(fs)[|arrived|..]);
    assert arrived + Stream(fs)[|arrived|..] == Stream(fs);
  }

  // ---------- PUBLISH ----------

  function WriteInt(n: nat): Bytes {
    [n / 256 % 256, n % 256]
  }

  function ReadInt(s: Bytes): nat
    requires |s| >= 2
  {
    var high: int, low: int := s[0], s[1];
    256 * high + low
  }

  lemma IntRoundTrip(n: nat, rest: Bytes)
    ensures ReadInt(WriteInt(n) + rest) == n % (MAX_INT2 + 1)
  {
    assert n == 256 * (n / 256) + n % 256;
    assert n / 256 == 256 * (n / 256 / 256) + n / 256 % 256;
    assert n == 65536 * (n / 256 / 256) + (256 * (n / 256 % 256) + n % 256);
    RemainderOf(n, n / 256 / 256, 256 * (n / 256 % 256) + n % 256);
  }

  lemma IntLength(n: nat)
    ensures |WriteInt(n)| == 2
  {
  }

  lemma RemainderOf(n: nat, q: nat, r: nat)
    requires n == 65536 * q + r && r < 65536
    ensures n % 65536 == r
  {
  }

  /** What the bytes of a packet say. `Overread` is the result of reading beyond the end of the data, so that
      the bytes do not determine it; `Other` stands for the types this model does not look into. */
  datatype Parsed =
    | PublishPacket(dup: bool, qos: nat, retain: bool, msgId: nat, topic: Bytes, payload: Bytes)
    | AckPacket(header: Header, msgId: nat)
    | HeaderOnly(header: Header)
    | Other(header: Header)
    | Malformed
    | Overread
    | NotHandled

  /** The buffers of MQTTPacket_send_publish. */
  function PublishBuffers(qos: nat, msgId: nat, topic: Bytes, payload: Bytes): seq<Bytes> {
    if qos > 0 then [WriteInt(|topic|), topic, WriteInt(msgId), payload] else [WriteInt(|topic|), topic, payload]
  }

  function Concat(bufs: seq<Bytes>): Bytes {
    if bufs == [] then [] else bufs[0] + Concat(bufs[1..])
  }

  function PublishFrame(dup: bool, qos: nat, retain: bool, msgId: nat, topic: Bytes, payload: Bytes): Frame
    requires qos < 4
  {
    Frame(HeaderByte(Header(PUBLISH, dup, qos, retain)), Concat(PublishBuffers(qos, msgId, topic, payload)))
  }

  /** MQTTPacket_publish. */
  function ParsePublish(h: Header, data: Bytes): Parsed {
    if |data| < 2 then Malformed
    else
      var len := ReadInt(data);
      if 2 + len > |data| then Malformed
      else
        var topic, rest := data[2..2 + len], data[2 + len..];
        if h.qos == 0 then PublishPacket(h.dup, 0, h.retain, 0, topic, rest)
        else if |rest| < 2 then Overread
        else PublishPacket(h.dup, h.qos, h.retain, ReadInt(rest), topic, rest[2..])
  }

  /** MQTTPacket_ack. */
  function ParseAck(h: Header, data: Bytes): Parsed {
    if |data| < 2 then Overread else AckPacket(h, ReadInt(data))
  }

  /** The dispatch of MQTTPacket_Factory on the packet type. */
  function Parse(f: Frame): Parsed {
    var h := HeaderOf(f.header);
    if h.ptype == PUBLISH then ParsePublish(h, f.data)
    else if h.ptype in {PUBACK, PUBREC, PUBREL, PUBCOMP, UNSUBACK} then ParseAck(h, f.data)
    else if PINGREQ <= h.ptype <= DISCONNECT then HeaderOnly(h)
    else if h.ptype in {CONNACK, SUBACK} then Other(h)
    else NotHandled
  }

  lemma PublishData(qos: nat, msgId: nat, topic: Bytes, payload: Bytes)
    ensures Concat(PublishBuffers(qos, msgId, topic, payload)) ==
              WriteInt(|topic|) + (topic + ((if qos > 0 then WriteInt(msgId) else []) + payload))
  {
    hide Concat, WriteInt;
    var id, len := WriteInt(msgId), WriteInt(|topic|);
    ConcatCons(payload, []);
    ConcatCons(id, [payload]);
    var tail := if qos > 0 then [id] + [payload] else [payload];
    ConcatCons(topic, tail);
    ConcatCons(len, [topic] + tail);
    assert PublishBuffers(qos, msgId, topic, payload) == [len] + ([topic] + tail);
    assert payload + [] == payload && [] + payload == payload && id + payload + [] == id + payload;
    assert [payload] + [] == [payload];
    assert Concat(tail) == (if qos > 0 then id else []) + payload;
  }

  lemma ConcatCons(b: Bytes, rest: seq<Bytes>)
    ensures Concat([b] + rest) == b + Concat(rest)
    ensures Concat([]) == []
  {
    assert ([b] + rest)[1..] == rest;
  }

  /** A PUBLISH is read back as it was built exactly when its topic has at most 65535 bytes: a longer one
      loses the high bits of its length. */
  lemma PublishRoundTrip(dup: bool, qos: nat, retain: bool, msgId: nat, topic: Bytes, payload: Bytes)
    requires qos < 4 && msgId <= MAX_MSG_ID && (qos == 0 ==> msgId == 0)
    ensures Parse(PublishFrame(dup, qos, retain, msgId, topic, payload)) ==
              PublishPacket(dup, qos, retain, msgId, topic, payload)
            <==> |topic| <= MAX_INT2
  {
    hide HeaderByte, HeaderOf, ReadInt, WriteInt, PublishBuffers, Concat;
    var h := Header(PUBLISH, dup, qos, retain);
    HeaderRoundTrip(h);
    IntLength(|topic|);
    IntLength(msgId);
    PublishData(qos, msgId, topic, payload);
    var tail := (if qos > 0 then WriteInt(msgId) else []) + payload;
    var data := WriteInt(|topic|) + (topic + tail);
    IntRoundTrip(|topic|, topic + tail);
    IntRoundTrip(msgId, payload);
    if |topic| <= MAX_INT2 {
      assert data[2..2 + |topic|] == topic;
      assert data[2 + |topic|..] == tail;
      assert qos > 0 ==> tail[2..] == payload;
    }
  }

  // ---------- acknowledgements ----------

  /** MQTTPacket_send_ack: a PUBREL is sent with QoS 1. */
  function AckFrame(ptype: nat, msgId: nat, dup: bool): Frame
    requires ptype < 16
  {
    Frame(HeaderByte(Header(ptype, dup, if ptype == PUBREL then 1 else 0, false)), WriteInt(msgId))
  }

  lemma AckRoundTrip(ptype: nat, msgId: nat, dup: bool)
    requires ptype in {PUBACK, PUBREC, PUBREL, PUBCOMP}
    ensures Parse(AckFrame(ptype, msgId, dup)) ==
              AckPacket(Header(ptype, dup, if ptype == PUBREL then 1 else 0, false), msgId)
            <==> msgId <= MAX_INT2
  {
    hide HeaderByte, HeaderOf, ReadInt, WriteInt;
    HeaderRoundTrip(Header(ptype, dup, if ptype == PUBREL then 1 else 0, false));
    IntLength(msgId);
    IntRoundTrip(msgId, []);
    assert WriteInt(msgId) + [] == WriteInt(msgId);
  }
}
