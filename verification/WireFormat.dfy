/** The bytes of the packets, as sections 2.2 and 3.3 to 3.7 of MQTT 3.1.1 write them down. */
module WireFormat {
  import opened Messages
  import opened Codec

  lemma OneMoreByte(d: nat, n: nat)
    requires d < 128 && n > 0
    ensures Encoded(d + 128 * n) == [d + 128] + Encoded(n)
  {
    EncodedStep(d + 128 * n);
  }

  /** The remaining length takes one to four bytes of seven bits each, the lowest ones first. */
  lemma LengthBytes(a: nat, b: nat, c: nat, d: nat)
    requires a < 128 && b < 128 && c < 128 && d < 128
    ensures Encoded(a) == [a]
    ensures b > 0 ==> Encoded(a + 128 * b) == [a + 128, b]
    ensures c > 0 ==> Encoded(a + 128 * b + 16384 * c) == [a + 128, b + 128, c]
    ensures d > 0 ==> Encoded(a + 128 * b + 16384 * c + 2097152 * d) == [a + 128, b + 128, c + 128, d]
  {
    hide Encoded;
    EncodedStep(a);
    EncodedStep(b);
    EncodedStep(c);
    EncodedStep(d);
    if b > 0 {
      OneMoreByte(a, b);
    }
    if c > 0 {
      OneMoreByte(b, c);
      OneMoreByte(a, b + 128 * c);
    }
    if d > 0 {
      OneMoreByte(c, d);
      OneMoreByte(b, c + 128 * d);
      OneMoreByte(a, b + 128 * (c + 128 * d));
    }
  }

  lemma ReadOne(a: nat, rest: Bytes, k: nat)
    requires a < 128 && k > 0
    ensures DecodeLength([a] + rest, k) == Start(1, a)
  {
  }

  lemma HeaderThenLength(h: Byte, s: Bytes)
    ensures ReadStart([h] + s) == match DecodeLength(s, 4)
                                  case Start(n, v) => Start(n + 1, v)
                                  case other => other
  {
    assert ([h] + s)[1..] == s;
  }

  /** It is read up to the first byte without the top bit, but not beyond four bytes. */
  lemma LengthIsRead(h: Byte, a: nat, b: nat, c: nat, d: nat, rest: Bytes)
    requires a < 128 && b < 128 && c < 128 && d < 128
    ensures ReadStart([h] + ([a] + rest)) == Start(2, a)
    ensures ReadStart([h] + ([a + 128] + ([b] + rest))) == Start(3, a + 128 * b)
    ensures ReadStart([h] + ([a + 128] + ([b + 128] + ([c] + rest)))) == Start(4, a + 128 * b + 16384 * c)
    ensures ReadStart([h] + ([a + 128] + ([b + 128] + ([c + 128] + ([d] + rest)))))
         == Start(5, a + 128 * b + 16384 * c + 2097152 * d)
    ensures ReadStart([h] + ([a + 128] + ([b + 128] + ([c + 128] + ([d + 128] + rest))))) == Bad
  {
    hide ReadStart, DecodeLength;
    ReadOne(a, rest, 4);
    HeaderThenLength(h, [a] + rest);
    ReadOne(b, rest, 3);
    DecodeStep(a, [b] + rest, 4);
    HeaderThenLength(h, [a + 128] + ([b] + rest));
    ReadOne(c, rest, 2);
    DecodeStep(b, [c] + rest, 3);
    DecodeStep(a, [b + 128] + ([c] + rest), 4);
    HeaderThenLength(h, [a + 128] + ([b + 128] + ([c] + rest)));
    ReadOne(d, rest, 1);
    FourthIsLast(d, rest);
    var e, f := [d] + rest, [d + 128] + rest;
    FourDigits(h, a, b, c, e);
    FourDigits(h, a, b, c, f);
  }

  lemma FourthIsLast(d: nat, rest: Bytes)
    requires d < 128
    ensures DecodeLength([d + 128] + rest, 1) == Bad
  {
    assert ([d + 128] + rest)[1..] == rest;
  }

  lemma FourDigits(h: Byte, a: nat, b: nat, c: nat, s: Bytes)
    requires a < 128 && b < 128 && c < 128
    ensures ReadStart([h] + ([a + 128] + ([b + 128] + ([c + 128] + s)))) ==
              match DecodeLength(s, 1)
              case Start(n, v) => Start(n + 4, a + 128 * b + 16384 * c + 2097152 * v)
              case other => other
  {
    hide ReadStart, DecodeLength;
    DecodeStep(c, s, 2);
    DecodeStep(b, [c + 128] + s, 3);
    DecodeStep(a, [b + 128] + ([c + 128] + s), 4);
    HeaderThenLength(h, [a + 128] + ([b + 128] + ([c + 128] + s)));
  }

  /** The bytes of the four acknowledgements: the type, the length 2, and the id, high byte first. */
  lemma AckBytes(id: nat, dup: bool)
    requires id <= 65535
    ensures Raw(AckFrame(Codec.PUBACK, id, false)) == [0x40, 2, id / 256, id % 256]
    ensures Raw(AckFrame(Codec.PUBREC, id, dup)) == [if dup then 0x58 else 0x50, 2, id / 256, id % 256]
    ensures Raw(AckFrame(Codec.PUBREL, id, dup)) == [if dup then 0x6A else 0x62, 2, id / 256, id % 256]
    ensures Raw(AckFrame(Codec.PUBCOMP, id, dup)) == [if dup then 0x78 else 0x70, 2, id / 256, id % 256]
  {
    LengthBytes(2, 0, 0, 0);
  }

  /** High byte first. */
  function Two(n: nat): Bytes
    requires n <= 65535
  {
    [n / 256, n % 256]
  }

  /** The two bytes of a message id, which a PUBLISH has from QoS 1 on. */
  function IdBytes(qos: nat, id: nat): Bytes
    requires id <= 65535
  {
    if qos == 0 then [] else Two(id)
  }

  lemma FirstByte(dup: bool, qos: nat, retain: bool)
    requires qos <= 2
    ensures HeaderByte(Header(PUBLISH, dup, qos, retain))
         == 0x30 + (if dup then 8 else 0) + 2 * qos + (if retain then 1 else 0)
  {
  }

  lemma TwoBytes(n: nat)
    requires n <= 65535
    ensures WriteInt(n) == Two(n)
  {
  }

  lemma DataBytes(qos: nat, id: nat, topic: Bytes, payload: Bytes)
    requires qos <= 2 && id <= 65535 && |topic| <= 65535
    ensures var data := Concat(PublishBuffers(qos, id, topic, payload));
            && data == Two(|topic|) + topic + IdBytes(qos, id) + payload
            && |data| == 2 + |topic| + |IdBytes(qos, id)| + |payload|
  {
    hide Concat, PublishBuffers, WriteInt;
    PublishData(qos, id, topic, payload);
    TwoBytes(|topic|);
    TwoBytes(id);
    var length, mid := Two(|topic|), IdBytes(qos, id);
    assert length + topic + mid + payload == length + (topic + (mid + payload));
  }

  /** The bytes of a PUBLISH: type, DUP, QoS and RETAIN in the first one, the remaining length, the topic behind its
      own length, the id, and the payload. */
  lemma PublishBytes(dup: bool, qos: nat, retain: bool, id: nat, topic: Bytes, payload: Bytes)
    requires qos <= 2 && id <= 65535 && |topic| <= 65535
    ensures var first := 0x30 + (if dup then 8 else 0) + 2 * qos + (if retain then 1 else 0);
            Raw(PublishFrame(dup, qos, retain, id, topic, payload))
            == [first] + Encoded(2 + |topic| + |IdBytes(qos, id)| + |payload|)
               + (Two(|topic|) + topic + IdBytes(qos, id) + payload)
  {
    hide Encoded, Concat, PublishBuffers, HeaderByte;
    FirstByte(dup, qos, retain);
    DataBytes(qos, id, topic, payload);
  }

  /** What a packet says is read from these places, whatever wrote it: the type is the upper half of the first byte. */
  lemma BytesSay(b: Byte, data: Bytes)
    ensures var says, qos := Parse(Frame(b, data)), b / 2 % 4;
            match b / 16
            case 3 =>
              if |data| < 2 || |data| < 2 + (256 * data[0] as int + data[1]) then says == Malformed
              else
                var end := 2 + (256 * data[0] as int + data[1]);
                if qos == 0 then says == PublishPacket(b / 8 % 2 == 1, 0, b % 2 == 1, 0, data[2..end], data[end..])
                else if |data| < end + 2 then says == Overread
                else says == PublishPacket(b / 8 % 2 == 1, qos, b % 2 == 1, 256 * data[end] as int + data[end + 1],
                                           data[2..end], data[end + 2..])
            case 4 | 5 | 6 | 7 | 11 =>
              if |data| < 2 then says == Overread
              else says == AckPacket(Header(b / 16, b / 8 % 2 == 1, qos, b % 2 == 1), 256 * data[0] as int + data[1])
            case 12 | 13 | 14 => says == HeaderOnly(Header(b / 16, b / 8 % 2 == 1, qos, b % 2 == 1))
            case 2 | 9 => says == Other(Header(b / 16, b / 8 % 2 == 1, qos, b % 2 == 1))
            case _ => says == NotHandled
  {
    if b / 16 == 3 && |data| >= 2 {
      var end := 2 + (256 * data[0] as int + data[1]);
      if end + 2 <= |data| {
        assert data[end..][2..] == data[end + 2..];
      }
    }
  }

  lemma FourBytes(b: Byte, id: nat, rest: Bytes)
    requires id <= 65535
    ensures var s := [b, 2, id / 256, id % 256] + rest;
            FrameLength(s) == 4 && FirstFrame(s) == Frame(b, [id / 256, id % 256])
  {
    hide FrameLength, FirstFrame;
    var f := Frame(b, [id / 256, id % 256]);
    LengthBytes(2, 0, 0, 0);
    RawIsFrame(f, rest);
    assert Raw(f) == [b, 2, id / 256, id % 256];
  }

  /** An acknowledgement at the head of a stream, as bytes, is the first packet, and is taken for what it is. */
  lemma AckIsRead(id: nat, dup: bool, rest: Bytes)
    requires id <= 65535
    ensures var s := [0x40, 2, id / 256, id % 256] + rest;
            FrameLength(s) == 4 && Parse(FirstFrame(s)) == AckPacket(Header(4, false, 0, false), id)
    ensures var s := [if dup then 0x58 else 0x50, 2, id / 256, id % 256] + rest;
            FrameLength(s) == 4 && Parse(FirstFrame(s)) == AckPacket(Header(5, dup, 0, false), id)
    ensures var s := [if dup then 0x6A else 0x62, 2, id / 256, id % 256] + rest;
            FrameLength(s) == 4 && Parse(FirstFrame(s)) == AckPacket(Header(6, dup, 1, false), id)
    ensures var s := [if dup then 0x78 else 0x70, 2, id / 256, id % 256] + rest;
            FrameLength(s) == 4 && Parse(FirstFrame(s)) == AckPacket(Header(7, dup, 0, false), id)
  {
    hide FrameLength, FirstFrame, Parse;
    var data := [id / 256, id % 256];
    FourBytes(0x40, id, rest);
    BytesSay(0x40, data);
    FourBytes(if dup then 0x58 else 0x50, id, rest);
    BytesSay(if dup then 0x58 else 0x50, data);
    FourBytes(if dup then 0x6A else 0x62, id, rest);
    BytesSay(if dup then 0x6A else 0x62, data);
    FourBytes(if dup then 0x78 else 0x70, id, rest);
    BytesSay(if dup then 0x78 else 0x70, data);
  }

  lemma TwoSay(n: nat)
    requires n <= 65535
    ensures |Two(n)| == 2 && 256 * Two(n)[0] as int + Two(n)[1] == n
  {
  }

  lemma FirstSays(dup: bool, qos: nat, retain: bool)
    requires qos <= 2
    ensures var first := 0x30 + (if dup then 8 else 0) + 2 * qos + (if retain then 1 else 0);
            && first / 16 == 3 && first / 2 % 4 == qos
            && (first / 8 % 2 == 1 <==> dup) && (first % 2 == 1 <==> retain)
  {
  }

  lemma PublishSays(first: Byte, qos: nat, id: nat, topic: Bytes, payload: Bytes)
    requires first / 16 == 3 && first / 2 % 4 == qos
    requires id <= 65535 && (qos == 0 ==> id == 0) && |topic| <= 65535
    ensures Parse(Frame(first, Two(|topic|) + topic + IdBytes(qos, id) + payload))
         == PublishPacket(first / 8 % 2 == 1, qos, first % 2 == 1, id, topic, payload)
  {
    hide Parse, Two;
    TwoSay(|topic|);
    TwoSay(id);
    var data := Two(|topic|) + topic + IdBytes(qos, id) + payload;
    BytesSay(first, data);
    var end := 2 + |topic|;
    assert data[0] == Two(|topic|)[0] && data[1] == Two(|topic|)[1];
    assert qos != 0 ==> data[end] == Two(id)[0] && data[end + 1] == Two(id)[1];
    assert data[2..end] == topic;
    assert qos == 0 ==> data[end..] == payload;
    assert qos != 0 ==> data[end + 2..] == payload;
  }

  /** So is a PUBLISH. */
  lemma PublishIsRead(dup: bool, qos: nat, retain: bool, id: nat, topic: Bytes, payload: Bytes, rest: Bytes)
    requires qos <= 2 && id <= 65535 && (qos == 0 ==> id == 0)
    requires |topic| <= 65535 && 4 + |topic| + |payload| < 268435456
    ensures var first := 0x30 + (if dup then 8 else 0) + 2 * qos + (if retain then 1 else 0);
            var data := Two(|topic|) + topic + IdBytes(qos, id) + payload;
            var s := [first] + Encoded(|data|) + data + rest;
            && FrameLength(s) == 1 + |Encoded(|data|)| + |data|
            && Parse(FirstFrame(s)) == PublishPacket(dup, qos, retain, id, topic, payload)
  {
    hide FrameLength, FirstFrame, Parse, Encoded;
    var first := 0x30 + (if dup then 8 else 0) + 2 * qos + (if retain then 1 else 0);
    var data := Two(|topic|) + topic + IdBytes(qos, id) + payload;
    RawIsFrame(Frame(first, data), rest);
    FirstSays(dup, qos, retain);
    PublishSays(first, qos, id, topic, payload);
  }
}
