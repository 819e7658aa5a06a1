/** What a run sends can be carried: every packet has its bytes, and they say what it does. */
module Carried {
  // The handlers work on packets as values. Here is why they may: whatever is published, stored or under way in a run
  // fits the formats of Codec and StoreBytes, so that each channel could as well be a stream of bytes.

  import opened Messages
  import opened MessageIds
  import opened Restore
  import opened Sessions
  import opened SessionProofs
  import opened Delivery
  import C = Codec
  import F = WireFormat

  // ---------- what fits ----------

  predicate FitsPub(p: Publication) {
    Sendable(p.topic, p.payload)
  }

  predicate FitsPacket(p: Packet) {
    p.msgId <= MAX_MSG_ID
    && (p.Publish? ==> p.qos <= 2 && (p.qos == 0 ==> p.msgId == 0) && FitsPub(p.pub))
  }

  predicate FitsMessage(m: Message) {
    m.msgid <= MAX_MSG_ID && m.qos in {1, 2} && FitsPub(m.pub)
  }

  predicate FitsEntry(e: QEntry) {
    e.msgid <= MAX_MSG_ID && e.qos <= 2 && FitsPub(e.pub)
  }

  /** The records of each kind of key. */
  predicate FitsRecord(k: Key, r: Record) {
    match k
    case SentKey(_) => r.PacketRecord? && r.packet.Publish? && r.packet.qos in {1, 2} && FitsPacket(r.packet)
    case RecvKey(_) => r.PacketRecord? && r.packet.Publish? && r.packet.qos in {1, 2} && FitsPacket(r.packet)
    case RelKey(_) => r.PacketRecord? && r.packet.Pubrel? && !r.packet.dup && FitsPacket(r.packet)
    case QueueKey(_) => r.QueueRecord? && FitsEntry(r.entry)
  }

  ghost predicate FitsList(ms: seq<Message>) {
    forall m :: m in ms ==> FitsMessage(m)
  }

  ghost predicate FitsStore(store: Store) {
    forall k :: k in store ==> FitsRecord(k, store[k])
  }

  ghost predicate FitsChannel(c: seq<Packet>) {
    forall p :: p in c ==> FitsPacket(p)
  }

  ghost predicate FitsSession(s: Session) {
    FitsList(s.outbound) && FitsList(s.inbound) && FitsStore(s.store)
  }

  ghost predicate FitsWorld(w: World) {
    && FitsSession(w.here.session) && FitsSession(w.there.session)
    && FitsChannel(w.fromHere) && FitsChannel(w.fromThere)
  }

  // ---------- the steps of a session ----------

  lemma RemovedFits(ms: seq<Message>, id: nat)
    requires FitsList(ms)
    ensures FitsList(Removed(ms, id))
  {
  }

  lemma ReplacedFits(ms: seq<Message>, m: Message)
    requires FitsList(ms) && FitsMessage(m)
    ensures FitsList(Replaced(ms, m))
  {
  }

  lemma StoreFits(store: Store, k: Key, r: Record)
    requires FitsStore(store) && FitsRecord(k, r)
    ensures FitsStore(store[k := r])
  {
  }

  lemma ProcessFits(s: Session, p: Packet)
    requires FitsSession(s) && p.Publish? && FitsPacket(p)
    ensures FitsSession(ProcessPublication(s, p).0)
  {
    var e := ProcessPublication(s, p).1;
    StoreFits(s.store, QueueKey(e.seqno), QueueRecord(e));
  }

  lemma HandlePublishFits(s: Session, p: Packet)
    requires FitsSession(s) && p.Publish? && FitsPacket(p)
    ensures FitsSession(HandlePublish(s, p).session) && FitsChannel(HandlePublish(s, p).sent)
  {
    hide Replaced, Ids;
    if p.qos == 2 {
      var m := Message(p.msgId, 2, p.retain, p.pub, PUBREL);
      ReplacedFits(s.inbound, m);
      StoreFits(s.store, RecvKey(p.msgId), PacketRecord(p));
    } else {
      ProcessFits(s, p);
    }
  }

  lemma HandlePubrelFits(s: Session, dup: bool, id: nat)
    requires FitsSession(s) && id <= MAX_MSG_ID
    ensures FitsSession(HandlePubrel(s, dup, id).session) && FitsChannel(HandlePubrel(s, dup, id).sent)
  {
    hide Removed, Ids;
    var i := IndexOf(s.inbound, id);
    if i < |s.inbound| {
      assert s.inbound[i] in s.inbound;
      ProcessFits(s, PublishOf(s.inbound[i], false));
      RemovedFits(s.inbound, id);
    }
  }

  lemma HandleFits(s: Session, p: Packet)
    requires FitsSession(s) && FitsPacket(p)
    ensures FitsSession(Handle(s, p).session) && FitsChannel(Handle(s, p).sent)
  {
    hide Removed, Replaced, Ids, HandlePublish, HandlePubrel;
    match p
    case Publish(_, _, _, _, _) => HandlePublishFits(s, p);
    case Pubrel(dup, id) => HandlePubrelFits(s, dup, id);
    case Puback(id) => RemovedFits(s.outbound, id);
    case Pubcomp(_, id) => RemovedFits(s.outbound, id);
    case Pubrec(_, id) =>
      var i := IndexOf(s.outbound, id);
      if i < |s.outbound| {
        var m := s.outbound[i];
        assert m in s.outbound;
        ReplacedFits(s.outbound, m.(nextMessageType := PUBCOMP));
        StoreFits(s.store, RelKey(id), PacketRecord(Pubrel(false, id)));
      }
  }

  lemma StartPublishFits(s: Session, qos: nat, retain: bool, pub: Publication)
    requires Valid(s) && FitsSession(s) && qos <= 2 && FitsPub(pub)
    ensures FitsSession(StartPublish(s, qos, retain, pub).session)
            && FitsChannel(StartPublish(s, qos, retain, pub).sent)
  {
    hide Ids, AssignedId;
    var id := AssignedId(Ids(s.outbound), s.msgID);
    AssignedIdIsFree(Ids(s.outbound), s.msgID);
    if qos != 0 && id != 0 {
      var m := Message(id, qos, retain, pub, if qos == 2 then PUBREC else Unset);
      StoreFits(s.store, SentKey(id), PacketRecord(PublishOf(m, false)));
    }
  }

  lemma RetryFits(s: Session, m: Message)
    requires FitsSession(s) && m in s.outbound
    ensures FitsSession(RetryOne(s, m).session) && FitsChannel(RetryOne(s, m).sent)
  {
    StoreFits(s.store, SentKey(m.msgid), PacketRecord(PublishOf(m, true)));
    StoreFits(s.store, RelKey(m.msgid), PacketRecord(Pubrel(false, m.msgid)));
  }

  lemma RestartFits(s: Session, keys: seq<Key>)
    requires Valid(s) && FitsSession(s) && Lists(keys, s.store)
    ensures FitsSession(Restart(s, keys))
  {
    hide Valid, FitsRecord, Restart, Lists;
    RestartRestoresLists(s, keys);
    var t := Restart(s, keys);
    ListsDistinct(s);
    SameMembersFit(s.outbound, t.outbound);
    SameMembersFit(s.inbound, t.inbound);
  }

  lemma ListsDistinct(s: Session)
    requires Valid(s)
    ensures DistinctIds(s.outbound) && DistinctIds(s.inbound)
  {
  }

  lemma SameMembersFit(ms: seq<Message>, ns: seq<Message>)
    requires DistinctIds(ms) && DistinctIds(ns) && ById(ns) == ById(ms) && FitsList(ms)
    ensures FitsList(ns)
  {
    hide FitsMessage;
    forall m | m in ns
      ensures FitsMessage(m)
    {
      MemberById(ns, m);
      MemberById(ms, m);
    }
  }

  // ---------- every run ----------

  lemma PushFits(c: seq<Packet>, ps: seq<Packet>, sent: bool)
    requires FitsChannel(c) && FitsChannel(ps)
    ensures FitsChannel(Push(c, ps, sent))
  {
  }

  lemma ActFits(h: Half, a: Action)
    requires Valid(h.end.session)
    requires FitsSession(h.end.session) && FitsChannel(h.from) && FitsChannel(h.to)
    ensures FitsSession(Act(h, a).end.session) && FitsChannel(Act(h, a).from) && FitsChannel(Act(h, a).to)
  {
    hide Valid, Handle, RetryOne, Restart, StartPublish, Lists, FitsPacket, FitsRecord, FitsMessage, AssignedId, Push;
    var s := h.end.session;
    match a
    case DoPublish(_, qos, retain, topic, payload, sent) =>
      if qos <= 2 && Sendable(topic, payload) {
        var pub := Publication(topic, payload, |h.end.log|);
        StartPublishFits(s, qos, retain, pub);
        PushFits(h.from, Publishes(h.end, qos, retain, topic, payload).1, sent);
      }
    case DoReceive(_, sent) =>
      if h.to != [] {
        HandleFits(s, h.to[0]);
        PushFits(h.from, Reply(h.end, h.to[0]), sent);
      }
    case DoRetry(_, i, sent) =>
      if i < |s.outbound| {
        RetryFits(s, s.outbound[i]);
        PushFits(h.from, RetryOne(s, s.outbound[i]).sent, sent);
      }
    case DoRestart(_, keys) =>
      if Lists(keys, s.store) {
        RestartFits(s, keys);
      }
    case DoSubscribe(_) =>
    case DoTake(_) =>
    case DoDisconnect =>
  }

  lemma SessionsValid(w: World, s: Side)
    requires Inv(w)
    ensures Valid(End(w, s).session)
  {
  }

  lemma {:induction false} RunFits(w: World, actions: seq<Action>)
    requires Inv(w) && FitsWorld(w)
    ensures FitsWorld(Run(w, actions))
    decreases |actions|
  {
    hide Act, Inv, FitsSession, FitsPacket;
    if actions != [] {
      var n := |actions| - 1;
      RunFits(w, actions[..n]);
      RunKeepsInv(w, actions[..n]);
      var v, a := Run(w, actions[..n]), actions[n];
      if a != DoDisconnect {
        SessionsValid(v, a.side);
        ActFits(Half(End(v, a.side), Chan(v, a.side), Chan(v, Other(a.side))), a);
      }
    }
  }

  /** In every run all that is stored and all that is under way fits. */
  lemma EveryRunFits(limitHere: nat, limitThere: nat, actions: seq<Action>, w: World)
    requires w == Run(Start(limitHere, limitThere), actions)
    ensures FitsWorld(w)
  {
    hide Inv, Step, Run;
    StartInv(limitHere, limitThere);
    NothingFits(limitHere, limitThere);
    RunFits(Start(limitHere, limitThere), actions);
  }

  lemma NothingFits(limitHere: nat, limitThere: nat)
    ensures FitsWorld(Start(limitHere, limitThere))
  {
  }

  // ---------- packets as bytes ----------

  /** The packet as it is written. */
  function WireFrame(p: Packet): C.Frame
    requires FitsPacket(p)
  {
    match p
    case Publish(dup, qos, retain, id, pub) => C.PublishFrame(dup, qos, retain, id, pub.topic, pub.payload)
    case Puback(id) => C.AckFrame(C.PUBACK, id, false)
    case Pubrec(dup, id) => C.AckFrame(C.PUBREC, id, dup)
    case Pubrel(dup, id) => C.AckFrame(C.PUBREL, id, dup)
    case Pubcomp(dup, id) => C.AckFrame(C.PUBCOMP, id, dup)
  }

  /** What the reader makes of it. */
  function ReadBack(p: Packet): C.Parsed {
    match p
    case Publish(dup, qos, retain, id, pub) => C.PublishPacket(dup, qos, retain, id, pub.topic, pub.payload)
    case Puback(id) => C.AckPacket(C.Header(C.PUBACK, false, 0, false), id)
    case Pubrec(dup, id) => C.AckPacket(C.Header(C.PUBREC, dup, 0, false), id)
    case Pubrel(dup, id) => C.AckPacket(C.Header(C.PUBREL, dup, 1, false), id)
    case Pubcomp(dup, id) => C.AckPacket(C.Header(C.PUBCOMP, dup, 0, false), id)
  }

  function BarePub(p: Publication): Publication {
    p.(serial := 0)
  }

  /** The packet without the history variable. */
  function BarePacket(p: Packet): Packet {
    if p.Publish? then p.(pub := BarePub(p.pub)) else p
  }

  lemma PacketIsCarried(p: Packet)
    requires FitsPacket(p)
    ensures |WireFrame(p).data| < C.REMAINING_LENGTH_LIMIT && C.Parse(WireFrame(p)) == ReadBack(p)
  {
    hide C.Parse, C.HeaderByte, C.Concat, C.WriteInt, C.PublishBuffers;
    C.IntLength(p.msgId);
    match p
    case Publish(dup, qos, retain, id, pub) =>
      C.PublishRoundTrip(dup, qos, retain, id, pub.topic, pub.payload);
      C.PublishData(qos, id, pub.topic, pub.payload);
      C.IntLength(|pub.topic|);
    case Puback(id) => C.AckRoundTrip(C.PUBACK, id, false);
    case Pubrec(dup, id) => C.AckRoundTrip(C.PUBREC, id, dup);
    case Pubrel(dup, id) => C.AckRoundTrip(C.PUBREL, id, dup);
    case Pubcomp(dup, id) => C.AckRoundTrip(C.PUBCOMP, id, dup);
  }

  /** The bytes of each packet, from sections 3.3 to 3.7 of MQTT 3.1.1. */
  lemma PacketBytes(p: Packet)
    requires FitsPacket(p)
    ensures var bytes, low := C.Raw(WireFrame(p)), [p.msgId / 256, p.msgId % 256];
            match p
            case Publish(dup, qos, retain, id, pub) =>
              var first := 0x30 + (if dup then 8 else 0) + 2 * qos + (if retain then 1 else 0);
              var data := F.Two(|pub.topic|) + pub.topic + (if qos == 0 then [] else low) + pub.payload;
              bytes == [first] + C.Encoded(|data|) + data
            case Puback(_) => bytes == [0x40, 2] + low
            case Pubrec(dup, _) => bytes == [if dup then 0x58 else 0x50, 2] + low
            case Pubrel(dup, _) => bytes == [if dup then 0x6A else 0x62, 2] + low
            case Pubcomp(dup, _) => bytes == [if dup then 0x78 else 0x70, 2] + low
  {
    hide C.Raw, C.PublishFrame, C.AckFrame, C.Encoded;
    F.AckBytes(p.msgId, if p.Publish? || p.Puback? then false else p.dup);
    if p.Publish? {
      F.PublishBytes(p.dup, p.qos, p.retain, p.msgId, p.pub.topic, p.pub.payload);
    }
  }

  /** What is read back tells packets apart, but for the history variable. */
  lemma ReadBackTells(p: Packet, q: Packet)
    ensures ReadBack(p) == ReadBack(q) <==> BarePacket(p) == BarePacket(q)
  {
  }

  ghost function WireFrames(c: seq<Packet>): (fs: seq<C.Frame>)
    requires FitsChannel(c)
    ensures |fs| == |c| && forall i :: 0 <= i < |c| ==> fs[i] == WireFrame(c[i])
  {
    seq(|c|, i requires 0 <= i < |c| => WireFrame(c[i]))
  }

  /** Whatever part of some packets has arrived as bytes, cut anywhere, is parsed to the first of these packets; and
      all of it to all of them. In every run this holds of both channels. */
  lemma ChannelIsCarried(c: seq<Packet>, arrived: C.Bytes)
    requires FitsChannel(c) && arrived <= C.Stream(WireFrames(c))
    ensures |C.Frames(arrived)| <= |c|
    ensures forall i :: 0 <= i < |C.Frames(arrived)| ==> C.Parse(C.Frames(arrived)[i]) == ReadBack(c[i])
    ensures arrived == C.Stream(WireFrames(c)) ==> |C.Frames(arrived)| == |c|
  {
    hide FitsPacket, C.Stream, C.Frames, C.Parse, WireFrame, ReadBack;
    var fs := WireFrames(c);
    forall i | 0 <= i < |c|
      ensures |fs[i].data| < C.REMAINING_LENGTH_LIMIT && C.Parse(fs[i]) == ReadBack(c[i])
    {
      PacketIsCarried(c[i]);
    }
    C.PrefixOfStream(fs, arrived);
  }
}
