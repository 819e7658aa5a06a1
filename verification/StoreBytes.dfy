/**
 The persistent store in bytes: the strings that are its keys, the packets and the queue entries that are its
 records. The other modules use keys and records as values; here is why they may.
 */
module StoreBytes {
  import opened Messages
  import opened Codec

  const MESSAGE_FILENAME_LENGTH := 8
  const PERSISTENCE_MAX_KEY_LENGTH := 8

  // ---------- numbers in decimal ----------

  function Digit(d: nat): char
    requires d < 10
  {
    '0' + d as char
  }

  /** sprintf of %d. */
  function Decimal(n: nat): string {
    if n < 10 then [Digit(n)] else Decimal(n / 10) + [Digit(n % 10)]
  }

  /** atoi, on digits only. */
  function Atoi(s: string): int {
    if s == [] then 0 else 10 * Atoi(s[..|s| - 1]) + (s[|s| - 1] as int - '0' as int)
  }

  predicate IsDigit(c: char) {
    '0' <= c <= '9'
  }

  lemma {:induction false} DecimalIsDigits(n: nat)
    ensures |Decimal(n)| >= 1 && forall i :: 0 <= i < |Decimal(n)| ==> IsDigit(Decimal(n)[i])
  {
    if n >= 10 {
      DecimalIsDigits(n / 10);
    }
  }

  lemma {:induction false} AtoiOfDecimal(n: nat)
    ensures Atoi(Decimal(n)) == n
  {
    var s := Decimal(n);
    if n >= 10 {
      AtoiOfDecimal(n / 10);
      assert s[..|s| - 1] == Decimal(n / 10);
    } else {
      assert s[..0] == [];
    }
  }

  function Pow10(k: nat): (r: nat)
    ensures r >= 1
  {
    if k == 0 then 1 else 10 * Pow10(k - 1)
  }

  /** The number of digits: at most `k` exactly for numbers below 10^k. */
  lemma {:induction false} DecimalLength(n: nat, k: nat)
    requires k >= 1
    ensures |Decimal(n)| <= k <==> n < Pow10(k)
    decreases n
  {
    if n >= 10 {
      DecimalIsDigits(n / 10);
      if k >= 2 {
        DecimalLength(n / 10, k - 1);
        assert n / 10 < Pow10(k - 1) <==> n < Pow10(k);
      } else {
        assert Pow10(1) == 10 * Pow10(0);
      }
    } else {
      assert Pow10(k) == 10 * Pow10(k - 1);
    }
  }

  /** Writing a digit after a number takes ten times the number and adds the digit. */
  lemma DecimalGrows(n: nat, d: nat)
    requires d < 10
    ensures Decimal(d) == ['0' + d as char]
    ensures n > 0 ==> Decimal(10 * n + d) == Decimal(n) + ['0' + d as char]
  {
    assert (10 * n + d) / 10 == n && (10 * n + d) % 10 == d;
  }

  // ---------- keys ----------

  function Prefix(k: Key): string {
    match k
    case SentKey(_) => "s-"
    case RelKey(_) => "sc-"
    case RecvKey(_) => "r-"
    case QueueKey(_) => "q-"
  }

  function Number(k: Key): nat {
    match k
    case SentKey(id) => id
    case RelKey(id) => id
    case RecvKey(id) => id
    case QueueKey(seqno) => seqno
  }

  function KeyString(k: Key): (s: string)
    ensures match k
            case SentKey(id) => s == "s-" + Decimal(id)
            case RelKey(id) => s == "sc-" + Decimal(id)
            case RecvKey(id) => s == "r-" + Decimal(id)
            case QueueKey(seqno) => s == "q-" + Decimal(seqno)
  {
    Prefix(k) + Decimal(Number(k))
  }

  /** strstr: the second string occurs in the first. */
  predicate Contains(s: string, t: string) {
    t <= s || (s != [] && Contains(s[1..], t))
  }

  datatype Kind = Command | Queue | Received | Sent | Rel | Neither

  /** The tests that MQTTPersistence_restore makes on a key, in their order. */
  function KindOf(key: string): Kind {
    if "c-" <= key then Command
    else if "q-" <= key then Queue
    else if Contains(key, "r-") then Received
    else if Contains(key, "s-") then Sent
    else if Contains(key, "sc-") then Rel
    else Neither
  }

  lemma {:induction false} NotInDigits(p: string, d: string, t: string)
    requires t != [] && t[|t| - 1] == '-' && (forall i :: 0 <= i < |d| ==> IsDigit(d[i]))
    ensures Contains(p + d, t) <==> Contains(p, t)
  {
    if p != [] {
      assert (p + d)[1..] == p[1..] + d;
      NotInDigits(p[1..], d, t);
      assert t <= p + d ==> |t| <= |p| by {
        assert t <= p + d ==> (p + d)[|t| - 1] == '-';
      }
    } else {
      assert p + d == d;
      NoDash(d, t);
    }
  }

  lemma {:induction false} NoDash(d: string, t: string)
    requires t != [] && t[|t| - 1] == '-' && (forall i :: 0 <= i < |d| ==> IsDigit(d[i]))
    ensures !Contains(d, t)
  {
    if |t| <= |d| {
      assert IsDigit(d[|t| - 1]);
    }
    if d != [] {
      NoDash(d[1..], t);
    }
  }

  /** Every key of the store is recognised as what it is. */
  lemma KeysAreRecognised(k: Key)
    ensures KindOf(KeyString(k)) ==
              match k
              case SentKey(_) => Sent
              case RelKey(_) => Rel
              case RecvKey(_) => Received
              case QueueKey(_) => Queue
  {
    var p, d := Prefix(k), Decimal(Number(k));
    DecimalIsDigits(Number(k));
    NotInDigits(p, d, "r-");
    NotInDigits(p, d, "s-");
    NotInDigits(p, d, "sc-");
    assert (p + d)[0] == p[0] && (p + d)[1] == p[1];
    PrefixParts();
  }

  lemma PrefixParts()
    ensures Contains("r-", "r-") && Contains("s-", "s-") && Contains("sc-", "sc-")
    ensures !Contains("s-", "r-") && !Contains("sc-", "r-") && !Contains("sc-", "s-")
  {
    var e: string := [];
    assert !Contains(e, "r-") && !Contains(e, "s-");
    assert "-"[1..] == e && "s-"[1..] == "-" && "sc-"[1..] == "c-" && "c-"[1..] == "-";
    assert !Contains("-", "r-") && !Contains("-", "s-");
    assert "c-"[0] == 'c' && "r-"[0] == 'r' && "s-"[0] == 's';
    assert !("r-" <= "c-") && !("s-" <= "c-");
    assert !Contains("c-", "r-") && !Contains("c-", "s-");
  }

  /** Different keys have different strings. */
  lemma KeysDiffer(j: Key, k: Key)
    ensures KeyString(j) == KeyString(k) <==> j == k
  {
    if KeyString(j) == KeyString(k) {
      KeysAreRecognised(j);
      KeysAreRecognised(k);
      var s := KeyString(j);
      assert s[|Prefix(j)|..] == Decimal(Number(j)) && s[|Prefix(k)|..] == Decimal(Number(k));
      AtoiOfDecimal(Number(j));
      AtoiOfDecimal(Number(k));
    }
  }

  /** The sequence number of a queue entry is read back from its key. */
  lemma SeqnoOfKey(n: nat)
    ensures Atoi(KeyString(QueueKey(n))[2..]) == n
  {
    AtoiOfDecimal(n);
    assert KeyString(QueueKey(n))[2..] == Decimal(n);
  }

  /** The buffers for keys, with the terminating NUL, are long enough for all message ids, but for sequence
      numbers only up to 999999. */
  lemma KeysFit(k: Key)
    ensures !k.QueueKey? && Number(k) <= 65535 ==> |KeyString(k)| + 1 <= MESSAGE_FILENAME_LENGTH + 1 == 9
    ensures k.QueueKey? ==> (|KeyString(k)| + 1 <= PERSISTENCE_MAX_KEY_LENGTH + 1 <==> Number(k) <= 999999)
  {
    assert Pow10(6) == 1000000 && Pow10(5) == 100000;
    DecimalLength(Number(k), 6);
    DecimalLength(Number(k), 5);
  }

  // ---------- packets as records ----------

  /** MQTTPersistence_restorePacket. The length is decoded without a limit on its bytes; a record that ends
      before its length does is not a packet. */
  function RestorePacket(b: Bytes): Option<Parsed> {
    if b == [] then None
    else
      match DecodeLength(b[1..], |b|)
      case Start(n, remaining) =>
        DecodeIsStable(b[1..], [], |b|);
        if 1 + n + remaining != |b| then None
        else
          var pack := Parse(Frame(b[0], b[1 + n..]));
          if pack == NotHandled then None else Some(pack)
      case _ => None
  }

  lemma {:induction false} EncodedIsLongEnough(n: nat)
    ensures n < Pow128(|Encoded(n)|) && |Encoded(n)| >= 1
  {
    if n >= 128 {
      EncodedIsLongEnough(n / 128);
      assert n == 128 * (n / 128) + n % 128;
    }
  }

  lemma {:induction false} Pow128Grows(a: nat, b: nat)
    requires a <= b
    ensures Pow128(a) <= Pow128(b)
  {
    if a < b {
      Pow128Grows(a, b - 1);
    }
  }

  /** What is stored is the packet as it is sent, or as it was read; restoring it gives what it says. */
  lemma PacketRecordRoundTrip(f: Frame)
    ensures RestorePacket(Raw(f)) == if Parse(f) == NotHandled then None else Some(Parse(f))
  {
    hide Parse;
    var b := Raw(f);
    var n := |f.data|;
    assert b[1..] == Encoded(n) + f.data;
    EncodedIsLongEnough(n);
    Pow128Grows(|Encoded(n)|, |b|);
    DecodeEncoded(n, f.data, |b|);
    assert b[1 + |Encoded(n)|..] == f.data;
  }

  /** So a stored PUBLISH comes back as it was exactly when its topic has at most 65535 bytes, */
  lemma PublishRecordRoundTrip(dup: bool, qos: nat, retain: bool, msgId: nat, topic: Bytes, payload: Bytes)
    requires qos < 4 && msgId <= MAX_MSG_ID && (qos == 0 ==> msgId == 0)
    ensures RestorePacket(Raw(PublishFrame(dup, qos, retain, msgId, topic, payload))) ==
              Some(PublishPacket(dup, qos, retain, msgId, topic, payload))
            <==> |topic| <= MAX_INT2
  {
    hide Parse, RestorePacket, PublishFrame, Raw;
    PublishRoundTrip(dup, qos, retain, msgId, topic, payload);
    PacketRecordRoundTrip(PublishFrame(dup, qos, retain, msgId, topic, payload));
  }

  /** and a stored PUBREL always does. */
  lemma PubrelRecordRoundTrip(msgId: nat)
    requires msgId <= MAX_MSG_ID
    ensures RestorePacket(Raw(AckFrame(Codec.PUBREL, msgId, false))) ==
              Some(AckPacket(Header(Codec.PUBREL, false, 1, false), msgId))
  {
    hide Parse, RestorePacket, AckFrame, Raw;
    AckRoundTrip(Codec.PUBREL, msgId, false);
    PacketRecordRoundTrip(AckFrame(Codec.PUBREL, msgId, false));
  }

  // ---------- queue entries as records ----------

  const TWO31 := 0x8000_0000
  const TWO32 := 0x1_0000_0000

  predicate IsInt(n: int) {
    -TWO31 <= n < TWO31
  }

  /** The four bytes of an int, least significant first. */
  function IntBytes(n: int): (r: Bytes)
    requires IsInt(n)
    ensures |r| == 4
    ensures r[0] as int + 0x100 * r[1] as int + 0x1_0000 * r[2] as int + 0x100_0000 * r[3] as int
         == if n < 0 then n + 0x1_0000_0000 else n
  {
    var u := if n < 0 then n + TWO32 else n;
    [u % 256, u / 256 % 256, u / 256 / 256 % 256, u / 256 / 256 / 256]
  }

  function TakeInt(b: Bytes): Option<(int, Bytes)> {
    if |b| < 4 then None
    else
      var b0: int, b1: int, b2: int, b3: int := b[0], b[1], b[2], b[3];
      var u := b0 + 256 * (b1 + 256 * (b2 + 256 * b3));
      Some((if u >= TWO31 then u - TWO32 else u, b[4..]))
  }

  lemma IntBytesRoundTrip(n: int, rest: Bytes)
    requires IsInt(n)
    ensures TakeInt(IntBytes(n) + rest) == Some((n, rest))
  {
    var u := if n < 0 then n + TWO32 else n;
    assert u == 256 * (u / 256) + u % 256;
    assert u / 256 == 256 * (u / 256 / 256) + u / 256 % 256;
    assert u / 256 / 256 == 256 * (u / 256 / 256 / 256) + u / 256 / 256 % 256;
    assert (IntBytes(n) + rest)[4..] == rest;
  }

  function TakeBytes(b: Bytes, n: int): Option<(Bytes, Bytes)> {
    if 0 <= n <= |b| then Some((b[..n], b[n..])) else None
  }

  /** The part of some memory before the first NUL. */
  function CString(s: Bytes): Bytes {
    if s == [] || s[0] == 0 then [] else [s[0]] + CString(s[1..])
  }

  function TakeString(b: Bytes): Option<(Bytes, Bytes)> {
    var n := |CString(b)|;
    if n < |b| then Some((CString(b), b[n + 1..])) else None
  }

  lemma {:induction false} CStringIsShort(s: Bytes)
    ensures |CString(s)| <= |s|
  {
    if s != [] && s[0] != 0 {
      CStringIsShort(s[1..]);
    }
  }

  lemma {:induction false} CStringStops(s: Bytes, rest: Bytes)
    ensures CString(CString(s) + [0] + rest) == CString(s)
    ensures CString(s) == s <==> 0 !in s
  {
    if s != [] && s[0] != 0 {
      CStringStops(s[1..], rest);
      assert (CString(s) + [0] + rest)[1..] == CString(s[1..]) + [0] + rest;
      assert s == [s[0]] + s[1..];
    } else {
      assert CString(s) + [0] + rest == [0] + rest;
    }
  }

  lemma StringRoundTrip(s: Bytes, rest: Bytes)
    ensures TakeString(CString(s) + [0] + rest) == Some((CString(s), rest))
  {
    CStringStops(s, rest);
    var b := CString(s) + [0] + rest;
    assert b[|CString(s)| + 1..] == rest;
  }

  /** A queue entry in memory. `topic` are the bytes that `topicLen` counts; a NUL follows them. */
  datatype StoredEntry = StoredEntry(payload: Bytes, qos: int, retained: int, dup: int, msgid: int, topic: Bytes,
                                     topicLen: int)

  predicate EntryOk(e: StoredEntry) {
    |e.payload| < TWO31 && IsInt(e.qos) && IsInt(e.retained) && IsInt(e.dup) && IsInt(e.msgid) && IsInt(e.topicLen)
  }

  /** The buffers of MQTTPersistence_persistQueueEntry, one after the other. */
  function EntryBytes(e: StoredEntry): Bytes
    requires EntryOk(e)
  {
    IntBytes(|e.payload|) + (e.payload + (IntBytes(e.qos) + (IntBytes(e.retained) + (IntBytes(e.dup)
    + (IntBytes(e.msgid) + (CString(e.topic) + [0] + (IntBytes(e.topicLen) + [])))))))
  }

  /** Where the fields are: the payload behind its length, QoS, retained, dup and message id, then the topic up to its
      first NUL with a NUL after it, and the length of the topic. */
  lemma EntryLayout(e: StoredEntry)
    requires EntryOk(e)
    ensures var b, p, t := EntryBytes(e), 4 + |e.payload|, |CString(e.topic)|;
            && |b| == p + 16 + t + 1 + 4
            && b[..4] == IntBytes(|e.payload|) && b[4..p] == e.payload
            && b[p..p + 4] == IntBytes(e.qos) && b[p + 4..p + 8] == IntBytes(e.retained)
            && b[p + 8..p + 12] == IntBytes(e.dup) && b[p + 12..p + 16] == IntBytes(e.msgid)
            && b[p + 16..p + 16 + t] == CString(e.topic) && b[p + 16 + t] == 0
            && b[p + 17 + t..] == IntBytes(e.topicLen)
  {
    hide IntBytes, CString;
  }

  /** MQTTPersistence_restoreQueueEntry; None where it would read beyond the record. */
  function RestoreEntry(b: Bytes): Option<StoredEntry> {
    match TakeInt(b)
    case None => None
    case Some((payloadlen, b1)) =>
    match TakeBytes(b1, payloadlen)
    case None => None
    case Some((payload, b2)) =>
    match TakeInt(b2)
    case None => None
    case Some((qos, b3)) =>
    match TakeInt(b3)
    case None => None
    case Some((retained, b4)) =>
    match TakeInt(b4)
    case None => None
    case Some((dup, b5)) =>
    match TakeInt(b5)
    case None => None
    case Some((msgid, b6)) =>
    match TakeString(b6)
    case None => None
    case Some((topic, b7)) =>
    match TakeInt(b7)
    case None => None
    case Some((topicLen, _)) => Some(StoredEntry(payload, qos, retained, dup, msgid, topic, topicLen))
  }

  /** A restored entry is the one that was stored, up to the first NUL of its topic: it is the same exactly
      when its topic contains none. */
  lemma EntryRoundTrip(e: StoredEntry)
    requires EntryOk(e)
    ensures RestoreEntry(EntryBytes(e)) == Some(e.(topic := CString(e.topic)))
    ensures RestoreEntry(EntryBytes(e)) == Some(e) <==> 0 !in e.topic
  {
    hide TakeInt, IntBytes, TakeString, CString;
    var b7 := IntBytes(e.topicLen) + [];
    var b6 := CString(e.topic) + [0] + b7;
    var b5 := IntBytes(e.msgid) + b6;
    var b4 := IntBytes(e.dup) + b5;
    var b3 := IntBytes(e.retained) + b4;
    var b2 := IntBytes(e.qos) + b3;
    var b1 := e.payload + b2;
    IntBytesRoundTrip(|e.payload|, b1);
    assert TakeBytes(b1, |e.payload|) == Some((e.payload, b2));
    IntBytesRoundTrip(e.qos, b3);
    IntBytesRoundTrip(e.retained, b4);
    IntBytesRoundTrip(e.dup, b5);
    IntBytesRoundTrip(e.msgid, b6);
    StringRoundTrip(e.topic, b7);
    IntBytesRoundTrip(e.topicLen, []);
    CStringStops(e.topic, []);
  }
}
