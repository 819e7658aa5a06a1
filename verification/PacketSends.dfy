/** Sending packets, and what the other end reads: the building of packets in MQTTPacket.c, the copy that
    MQTTProtocolClient.c stores of a QoS 0 message, and the whole way from one client to another. */
module PacketSends {
  import opened Messages
  import opened Codec
  import W = SocketWrites
  import R = SocketBuffer

  /** The buffers of a packet, as memory. */
  function Vecs(bufs: seq<Bytes>): seq<W.IoVec> {
    if bufs == [] then [] else [W.IoVec(bufs[0], |bufs[0]|)] + Vecs(bufs[1..])
  }

  lemma {:induction false} VecsAreBuffers(bufs: seq<Bytes>)
    ensures |Vecs(bufs)| == |bufs| && W.VecsOk(Vecs(bufs)) && W.Flat(Vecs(bufs)) == Concat(bufs)
    ensures forall i :: 0 <= i < |bufs| ==> Vecs(bufs)[i] == W.IoVec(bufs[i], |bufs[i]|)
  {
    if bufs != [] {
      VecsAreBuffers(bufs[1..]);
      assert Vecs(bufs)[1..] == Vecs(bufs[1..]);
    }
  }

  /** MQTTPacket_sends: the fixed header in front of the buffers. */
  method Sends(w: W.SocketWriter, socket: int, header: Byte, bufs: seq<Bytes>)
    returns (rc: W.Completion, ghost buf0: W.IoVec)
    requires w.Valid() && |bufs| <= W.MAX_BUFFERS
    modifies w
    ensures w.Valid() && w.failed == old(w.failed) && w.stale == old(w.stale)
    ensures W.IsPut(socket in old(w.writePending), old(w.attempts), w.attempts, socket,
                    Raw(Frame(header, Concat(bufs))), rc)
    ensures w.packets == if rc == W.ERROR then old(w.packets) else
              old(w.packets)[socket := old(At(w.packets, socket)) + Raw(Frame(header, Concat(bufs)))]
    ensures rc == W.INTERRUPTED ==> var n := |old(w.writes)|;
              && |w.writes| == n + 1 && w.writes[..n] == old(w.writes) && socket !in old(w.writePending)
              && w.writes[n].socket == socket && w.writes[n].iovecs == [buf0] + Vecs(bufs)
  {
    var total := 0;
    var i := 0;
    while i < |bufs|
      invariant 0 <= i <= |bufs| && total == |Concat(bufs[..i])|
      invariant w.Valid() && unchanged(w)
    {
      ConcatOneMore(bufs, i);
      total := total + |bufs[i]|;
      i := i + 1;
    }
    assert bufs[..i] == bufs;
    var buf := Encode(total);
    var first := W.IoVec([header] + buf, 1 + |buf|);
    buf0 := first;
    VecsAreBuffers(bufs);
    HeaderThenData(header, bufs, first);
    rc := w.PutDatas(socket, first, Vecs(bufs));
  }

  lemma {:induction false} ConcatOneMore(bufs: seq<Bytes>, i: nat)
    requires i < |bufs|
    ensures Concat(bufs[..i + 1]) == Concat(bufs[..i]) + bufs[i]
  {
    if i == 0 {
      assert bufs[..1] == [bufs[0]] && bufs[..0] == [];
      ConcatCons(bufs[0], []);
    } else {
      assert bufs[..i + 1][1..] == bufs[1..][..i] && bufs[..i][1..] == bufs[1..][..i - 1];
      ConcatOneMore(bufs[1..], i - 1);
    }
  }

  lemma HeaderThenData(header: Byte, bufs: seq<Bytes>, first: W.IoVec)
    requires first == W.IoVec([header] + Encoded(|Concat(bufs)|), 1 + |Encoded(|Concat(bufs)|)|)
    ensures W.VecOk(first) && W.Flat([first] + Vecs(bufs)) == Raw(Frame(header, Concat(bufs)))
  {
    VecsAreBuffers(bufs);
    W.FlatAppend([first], Vecs(bufs));
    W.FlatOne(first);
    assert first.base[..first.len] == first.base;
  }

  /** MQTTPacket_send_publish, and for a QoS 0 message that is not sent at once MQTTProtocol_storeQoS0: the rest
      is sent from a copy, for the caller keeps its message. */
  method Publish(w: W.SocketWriter, socket: int, dup: bool, qos: nat, retain: bool, msgId: nat, topic: Bytes,
                 payload: Bytes)
    returns (rc: W.Completion)
    requires w.Valid() && qos < 4 && (qos == 0 ==> socket !in w.stale)
    modifies w
    ensures w.Valid() && w.failed == old(w.failed) && w.stale == old(w.stale)
    ensures W.IsPut(socket in old(w.writePending), old(w.attempts), w.attempts, socket,
                    Raw(PublishFrame(dup, qos, retain, msgId, topic, payload)), rc)
    ensures w.packets == if rc == W.ERROR then old(w.packets) else
              var frame := PublishFrame(dup, qos, retain, msgId, topic, payload);
              old(w.packets)[socket := old(At(w.packets, socket)) + Raw(frame)]
    ensures qos == 0 && rc == W.INTERRUPTED ==> var n := |old(w.writes)|;
              && |w.writes| == n + 1 && w.writes[n].socket == socket && |w.writes[n].iovecs| == W.MAX_BUFFERS
              && w.writes[n].iovecs[2].base == topic + [0] && w.writes[n].iovecs[3].base == payload
  {
    hide Raw, Concat, HeaderByte, WriteInt, W.Writes, W.Balanced, W.Find, Vecs, W.IsPut;
    var header := HeaderByte(Header(PUBLISH, dup, qos, retain));
    ghost var buf0;
    W.NotPending(w.writes, w.writePending, w.stale, socket);
    rc, buf0 := Sends(w, socket, header, PublishBuffers(qos, msgId, topic, payload));
    if qos == 0 && rc == W.INTERRUPTED {
      W.FindAppended(old(w.writes), w.writes[|w.writes| - 1], socket);
      assert w.writes == old(w.writes) + [w.writes[|w.writes| - 1]];
      StoreQoS0(w, socket, buf0, topic, payload);
    }
  }

  /** MQTTProtocol_storeQoS0: the pending write, which is the last one, goes on from the copy. */
  method StoreQoS0(w: W.SocketWriter, socket: int, ghost buf0: W.IoVec, topic: Bytes, payload: Bytes)
    requires w.Valid() && |w.writes| > 0 && W.Find(w.writes, socket) == |w.writes| - 1
    requires w.writes[|w.writes| - 1].socket == socket
    requires w.writes[|w.writes| - 1].iovecs == [buf0] + Vecs([WriteInt(|topic|), topic, payload])
    modifies w`writes
    ensures w.Valid() && |w.writes| == |old(w.writes)| > 0
    ensures var pw := w.writes[|w.writes| - 1];
            && pw.socket == socket && |pw.iovecs| == W.MAX_BUFFERS
            && pw.iovecs[2].base == topic + [0] && pw.iovecs[3].base == payload
  {
    hide WriteInt, W.Writes, W.Balanced, Vecs;
    PendingIs(w, socket, buf0, topic, payload);
    w.UpdateWrite(socket, topic + [0], payload);
  }

  lemma PendingIs(w: W.SocketWriter, socket: int, buf0: W.IoVec, topic: Bytes, payload: Bytes)
    requires |w.writes| > 0 && W.Find(w.writes, socket) == |w.writes| - 1
    requires var last := w.writes[|w.writes| - 1];
             last.socket == socket && last.iovecs == [buf0] + Vecs([WriteInt(|topic|), topic, payload])
    ensures var i := W.Find(w.writes, socket);
            |w.writes[i].iovecs| == W.MAX_BUFFERS && W.IsCopy(w.writes[i].iovecs, topic + [0], payload)
  {
    var bufs := [WriteInt(|topic|), topic, payload];
    VecsAreBuffers(bufs);
    var vs := [buf0] + Vecs(bufs);
    assert vs[2] == W.IoVec(topic, |topic|) && vs[3] == W.IoVec(payload, |payload|);
    assert (topic + [0])[..|topic|] == topic;
  }

  /** MQTTPacket_send_ack. */
  method SendAck(w: W.SocketWriter, socket: int, ptype: nat, msgId: nat, dup: bool) returns (rc: W.Completion)
    requires w.Valid() && ptype < 16
    modifies w
    ensures w.Valid() && w.failed == old(w.failed) && w.stale == old(w.stale)
    ensures W.IsPut(socket in old(w.writePending), old(w.attempts), w.attempts, socket,
                    Raw(AckFrame(ptype, msgId, dup)), rc)
    ensures w.packets == if rc == W.ERROR then old(w.packets) else
              old(w.packets)[socket := old(At(w.packets, socket)) + Raw(AckFrame(ptype, msgId, dup))]
  {
    var header := HeaderByte(Header(ptype, dup, if ptype == Codec.PUBREL then 1 else 0, false));
    ghost var buf0;
    rc, buf0 := Sends(w, socket, header, [WriteInt(msgId)]);
    ConcatCons(WriteInt(msgId), []);
    assert Concat([WriteInt(msgId)]) == WriteInt(msgId) by {
      assert [WriteInt(msgId)] + [] == [WriteInt(msgId)];
      assert WriteInt(msgId) + [] == WriteInt(msgId);
    }
  }

  // ---------- from one end to the other ----------

  /** What a PUBLISH says. */
  datatype PublishFields = PublishFields(dup: bool, qos: nat, retain: bool, msgId: nat, topic: Bytes, payload: Bytes)

  /** The length of the data of a PUBLISH. */
  function DataLength(m: PublishFields): nat {
    2 + |m.topic| + (if m.qos > 0 then 2 else 0) + |m.payload|
  }

  ghost predicate FitsFrame(m: PublishFields) {
    && m.qos < 4 && m.msgId <= MAX_MSG_ID && (m.qos == 0 ==> m.msgId == 0)
    && |m.topic| <= MAX_INT2 && DataLength(m) < REMAINING_LENGTH_LIMIT
  }

  function FrameOf(m: PublishFields): Frame
    requires m.qos < 4
  {
    PublishFrame(m.dup, m.qos, m.retain, m.msgId, m.topic, m.payload)
  }

  ghost predicate AllFit(ms: seq<PublishFields>) {
    forall i :: 0 <= i < |ms| ==> FitsFrame(ms[i])
  }

  ghost function FramesOf(ms: seq<PublishFields>): (fs: seq<Frame>)
    requires AllFit(ms)
    ensures |fs| == |ms| && forall i :: 0 <= i < |ms| ==> fs[i] == FrameOf(ms[i])
  {
    seq(|ms|, i requires 0 <= i < |ms| && ms[i].qos < 4 => FrameOf(ms[i]))
  }

  function PacketOf(m: PublishFields): Parsed {
    PublishPacket(m.dup, m.qos, m.retain, m.msgId, m.topic, m.payload)
  }

  lemma FrameIsShort(m: PublishFields)
    requires m.qos < 4
    ensures |FrameOf(m).data| == DataLength(m)
  {
    PublishData(m.qos, m.msgId, m.topic, m.payload);
  }

  lemma FramesAreShort(ms: seq<PublishFields>)
    requires AllFit(ms)
    ensures forall f :: f in FramesOf(ms) ==> |f.data| < REMAINING_LENGTH_LIMIT
  {
    var fs := FramesOf(ms);
    forall f | f in fs
      ensures |f.data| < REMAINING_LENGTH_LIMIT
    {
      var i :| 0 <= i < |fs| && fs[i] == f;
      FrameIsShort(ms[i]);
    }
  }

  lemma MessageRoundTrip(m: PublishFields)
    requires FitsFrame(m)
    ensures Parse(FrameOf(m)) == PacketOf(m)
  {
    hide Parse, PublishFrame;
    PublishRoundTrip(m.dup, m.qos, m.retain, m.msgId, m.topic, m.payload);
  }

  /** The part of the published stream that has arrived says the first of the messages. */
  lemma ArrivedMessages(ms: seq<PublishFields>, arrived: Bytes)
    requires AllFit(ms) && arrived <= Stream(FramesOf(ms))
    ensures |Frames(arrived)| <= |ms|
    ensures forall i :: 0 <= i < |Frames(arrived)| ==> Parse(Frames(arrived)[i]) == PacketOf(ms[i])
    ensures arrived == Stream(FramesOf(ms)) ==> |Frames(arrived)| == |ms|
  {
    hide Frames, Stream, Parse, PublishFrame;
    FramesAreShort(ms);
    var fs := FramesOf(ms);
    PrefixOfStream(fs, arrived);
    forall i | 0 <= i < |Frames(arrived)|
      ensures Parse(Frames(arrived)[i]) == PacketOf(ms[i])
    {
      assert Frames(arrived)[i] == fs[i];
      MessageRoundTrip(ms[i]);
    }
  }

  /** However the writes were cut up, and however the reads: the packets that the reader has handed on are the
      first of the messages that were published, each with its own fields; and they are all of them once the
      writer has nothing pending and everything has come through. */
  lemma EndToEnd(w: W.SocketWriter, r: R.SocketBuffer, s: int, t: int, ms: seq<PublishFields>, got: seq<Frame>)
    requires w.Valid() && s !in w.failed + w.stale && r.Valid() && t != 0
    requires AllFit(ms) && At(w.packets, s) == Stream(FramesOf(ms))
    requires At(r.received, t) <= At(w.taken, s) && got == At(r.taken, t)
    ensures |got| <= |ms| && forall i :: 0 <= i < |got| ==> Parse(got[i]) == PacketOf(ms[i])
    ensures s !in w.writePending && At(r.received, t) == At(w.taken, s) ==> |got| == |ms|
  {
    hide Frames, Stream, Parse, AllFit, PacketOf, W.Writes, W.Balanced;
    W.TakenIsPrefix(w, s);
    ArrivedMessages(ms, At(r.received, t));
    R.CleanSocket(r.defQueue, r.queues, r.received, r.taken, t);
  }
}
