/** The client as the program keeps it: lists and counters that the handlers update in place. Each method is
    shown to do what the function on sessions of the same purpose says. */
module Client {
  import opened Messages
  import opened MessageIds
  import opened Restore
  import opened Sessions
  import opened SessionProofs
  import opened SortedInsert

  /** ListFindItem with messageIDCompare: the place of the message with this id. */
  method FindMessage(list: seq<Message>, id: nat) returns (i: nat)
    ensures i == IndexOf(list, id)
  {
    i := 0;
    while i < |list| && list[i].msgid != id
      invariant i <= |list|
      invariant forall j :: 0 <= j < i ==> list[j].msgid != id
    {
      i := i + 1;
    }
  }

  /** The scan of MQTTProtocol_assignMsgId. */
  method ScanForId(outbound: seq<Message>, start: nat) returns (msgid: nat)
    requires start <= MAX_MSG_ID
    requires start == 0 ==> exists id :: 1 <= id <= MAX_MSG_ID && id !in Ids(outbound)
    ensures msgid == AssignedId(Ids(outbound), start)
  {
    ghost var inUse, k := Ids(outbound), 0;
    ScanBegins(inUse, start);
    msgid := if start == MAX_MSG_ID then 1 else start + 1;
    var i := FindMessage(outbound, msgid);
    while i < |outbound|
      invariant ScanAt(inUse, start, k, msgid)
      invariant i == IndexOf(outbound, msgid)
      decreases MAX_MSG_ID - k
    {
      ScanStep(inUse, start, k, msgid);
      k := k + 1;
      msgid := if msgid == MAX_MSG_ID then 1 else msgid + 1;
      if msgid == start {
        return 0;
      }
      i := FindMessage(outbound, msgid);
    }
    ScanEnds(inUse, start, k, msgid);
  }

  lemma GapIs(ms: seq<Message>, i: nat)
    requires Increasing(ms, BY_ID) && 1 <= i < |ms|
    ensures Gap(ms, i) == ms[i].msgid - ms[i - 1].msgid
  {
    assert BY_ID(ms[i - 1]) < BY_ID(ms[i]);
  }

  lemma ClosingGapIs(ms: seq<Message>)
    requires Increasing(ms, BY_ID) && ms != []
    ensures ClosingGap(ms) == MAX_MSG_ID - ms[|ms| - 1].msgid + ms[0].msgid
  {
    LastIsLargest(ms, 0);
  }

  lemma WrapIs(ms: seq<Message>, w: nat)
    requires Increasing(ms, BY_ID) && ms != [] && w == WrapPoint(ms, |ms|)
    ensures var closing := 65535 - ms[|ms| - 1].msgid + ms[0].msgid;
            w == 0 <==> forall i :: 0 < i < |ms| ==> ms[i].msgid - ms[i - 1].msgid <= closing
    ensures w != 0 ==>
              var gap := ms[w].msgid - ms[w - 1].msgid;
              && (forall i :: 0 < i < w ==> ms[i].msgid - ms[i - 1].msgid < gap)
              && (forall i :: w < i < |ms| ==> ms[i].msgid - ms[i - 1].msgid <= gap)
  {
    hide Gap, ClosingGap, Increasing, WrapPoint;
    WrapPointSpec(ms, w);
    ClosingGapIs(ms);
    forall i | 0 < i < |ms|
      ensures Gap(ms, i) == ms[i].msgid - ms[i - 1].msgid
    {
      GapIs(ms, i);
    }
    assert w != 0 ==> Gap(ms, w) == ms[w].msgid - ms[w - 1].msgid;
  }

  /** The loop of MQTTPersistence_wrapMsgID: the place of the element that becomes the first, or 0. */
  method FindWrap(ms: seq<Message>) returns (wrapel: nat)
    requires ms != [] && Increasing(ms, BY_ID)
    ensures wrapel == WrapPoint(ms, |ms|)
    ensures var closing := 65535 - ms[|ms| - 1].msgid + ms[0].msgid;
            wrapel == 0 <==> forall i :: 0 < i < |ms| ==> ms[i].msgid - ms[i - 1].msgid <= closing
    ensures wrapel != 0 ==>
              var gap := ms[wrapel].msgid - ms[wrapel - 1].msgid;
              && (forall i :: 0 < i < wrapel ==> ms[i].msgid - ms[i - 1].msgid < gap)
              && (forall i :: wrapel < i < |ms| ==> ms[i].msgid - ms[i - 1].msgid <= gap)
  {
    hide Cyc, Gap, ClosingGap, Increasing;
    wrapel := 0;
    var gap := MAX_MSG_ID - ms[|ms| - 1].msgid + ms[0].msgid;
    ClosingGapIs(ms);
    var i := 1;
    while i < |ms|
      invariant 1 <= i <= |ms|
      invariant wrapel == WrapPoint(ms, i)
      invariant gap == if wrapel == 0 then ClosingGap(ms) else Gap(ms, wrapel)
    {
      GapIs(ms, i);
      var curgap := ms[i].msgid - ms[i - 1].msgid;
      if curgap > gap {
        gap := curgap;
        wrapel := i;
      }
      i := i + 1;
    }
    WrapIs(ms, wrapel);
  }

  class Client {
    var outboundMsgs: seq<Message>
    var inboundMsgs: seq<Message>
    var messageQueue: seq<QEntry>
    var msgID: nat
    var qentrySeqno: nat
    var maxInflightMessages: nat
    var store: Store

    function State(): Session
      reads this
    {
      Session(outboundMsgs, inboundMsgs, messageQueue, msgID, qentrySeqno, maxInflightMessages, store)
    }

    constructor (limit: nat)
      ensures State() == NewSession(limit) && State() == Session([], [], [], 0, 0, limit, map[])
    {
      outboundMsgs, inboundMsgs, messageQueue := [], [], [];
      msgID, qentrySeqno, maxInflightMessages := 0, 0, limit;
      store := map[];
    }

    /** A scan from the initial value 0 ends only if some id is free. */
    method AssignMsgId() returns (msgid: nat)
      requires msgID <= MAX_MSG_ID
      requires msgID == 0 ==> exists id :: 1 <= id <= MAX_MSG_ID && id !in Ids(outboundMsgs)
      modifies this`msgID
      ensures msgid == AssignedId(Ids(outboundMsgs), old(msgID))
      ensures msgID == if msgid == 0 then old(msgID) else msgid
      ensures msgid == 0 <==> forall id :: 1 <= id <= 65535 && id != old(msgID) ==> id in Ids(outboundMsgs)
      ensures msgid != 0 ==> 1 <= msgid <= 65535 && msgid != old(msgID) && msgid !in Ids(outboundMsgs)
                             && forall id :: Between(old(msgID), id, msgid) ==> id in Ids(outboundMsgs)
    {
      AssignedIdIsFree(Ids(outboundMsgs), msgID);
      AssignedIdIsNext(Ids(outboundMsgs), msgID);
      msgid := ScanForId(outboundMsgs, msgID);
      if msgid != 0 {
        msgID := msgid;
      }
    }

    /** MQTTClient_publish, when outboundMsgs has room: the packets it hands to the network. */
    method Publish(qos: nat, retained: bool, pub: Publication) returns (sent: seq<Packet>)
      requires msgID <= MAX_MSG_ID && CanPublish(State())
      requires qos > 0 && msgID == 0 ==> exists id :: 1 <= id <= MAX_MSG_ID && id !in Ids(outboundMsgs)
      modifies `outboundMsgs, `msgID, `store
      ensures State() == StartPublish(old(State()), qos, retained, pub).session
      ensures sent == StartPublish(old(State()), qos, retained, pub).sent
      ensures old(Valid(State())) && qos <= 2 ==> Valid(State())
      ensures qos == 0 ==> sent == [Packet.Publish(false, 0, retained, 0, pub)]
      ensures qos != 0 ==> (sent == [] <==> forall id :: 1 <= id <= 65535 && id != old(msgID)
                                                         ==> id in Ids(old(outboundMsgs)))
      ensures qos == 0 || sent == [] ==> unchanged(this)
      ensures qos != 0 && sent != [] ==>
                && 1 <= msgID <= 65535 && msgID !in Ids(old(outboundMsgs))
                && (forall id :: Between(old(msgID), id, msgID) ==> id in Ids(old(outboundMsgs)))
                && sent == [Packet.Publish(false, qos, retained, msgID, pub)]
                && outboundMsgs == old(outboundMsgs)
                                   + [Message(msgID, qos, retained, pub, if qos == 2 then PUBREC else Unset)]
                && store == old(store)[SentKey(msgID) := PacketRecord(sent[0])]
    {
      ghost var s := State();
      if Valid(s) && qos <= 2 {
        StartPublishKeepsValid(s, qos, retained, pub);
      }
      if qos == 0 {
        return [Packet.Publish(false, 0, retained, 0, pub)];
      }
      var id := AssignMsgId();
      if id == 0 {
        return [];
      }
      var m := Message(id, qos, retained, pub, Unset);
      if qos == 2 {
        m := m.(nextMessageType := PUBREC);
      }
      outboundMsgs := outboundMsgs + [m];
      var p := Packet.Publish(false, qos, retained, id, pub);
      store := store[SentKey(id) := PacketRecord(p)];
      sent := [p];
    }

    /** MQTTProtocol_retries; `room` is the number of messages the pass gets to before the socket has
        pending output. */
    method Retries(due: set<nat>, room: nat) returns (sent: seq<Packet>)
      modifies this`store
      ensures var n := if room < |outboundMsgs| then room else |outboundMsgs|;
              && State() == RetryPass(old(State()), due, n).session
              && sent == RetryPass(old(State()), due, n).sent
      ensures old(Valid(State())) ==> Valid(State())
      ensures old(Valid(State())) ==>
                var ms := Due(outboundMsgs[..if room < |outboundMsgs| then room else |outboundMsgs|], due);
                && |sent| == |ms|
                && forall j :: 0 <= j < |ms| ==>
                     var m := ms[j];
                     if m.nextMessageType == PUBCOMP then
                       && sent[j] == Pubrel(false, m.msgid)
                       && RelKey(m.msgid) in store && store[RelKey(m.msgid)] == PacketRecord(sent[j])
                     else
                       && sent[j] == Packet.Publish(true, m.qos, m.retain, m.msgid, m.pub)
                       && SentKey(m.msgid) in store && store[SentKey(m.msgid)] == PacketRecord(sent[j])
    {
      hide Valid;
      ghost var s := State();
      if Valid(s) {
        RetryPassKeepsValid(s, due, if room < |outboundMsgs| then room else |outboundMsgs|);
        RetryPassSends(s, due, if room < |outboundMsgs| then room else |outboundMsgs|);
      }
      sent := [];
      var i := 0;
      while i < |outboundMsgs| && i < room
        invariant i <= |outboundMsgs| && i <= room
        invariant State() == RetryPass(old(State()), due, i).session
        invariant sent == RetryPass(old(State()), due, i).sent
        invariant outboundMsgs == old(outboundMsgs)
      {
        var m := outboundMsgs[i];
        if m.msgid in due {
          if m.qos == 1 || (m.qos == 2 && m.nextMessageType == PUBREC) {
            var p := Packet.Publish(true, m.qos, m.retain, m.msgid, m.pub);
            store := store[SentKey(m.msgid) := PacketRecord(p)];
            sent := sent + [p];
          } else if m.qos != 0 && m.nextMessageType == PUBCOMP {
            store := store[RelKey(m.msgid) := PacketRecord(Pubrel(false, m.msgid))];
            sent := sent + [Pubrel(false, m.msgid)];
          }
        }
        i := i + 1;
      }
    }

    method ProcessPublication(p: Packet)
      requires p.Publish?
      modifies `messageQueue, `qentrySeqno, `store
      ensures State() == Sessions.ProcessPublication(old(State()), p).0
      ensures qentrySeqno == old(qentrySeqno) + 1
      ensures var e := QEntry(p.pub, p.qos, p.retain, p.dup && p.qos != 2, p.msgId, qentrySeqno);
              messageQueue == old(messageQueue) + [e] && store == old(store)[QueueKey(qentrySeqno) := QueueRecord(e)]
    {
      qentrySeqno := qentrySeqno + 1;
      var dup := p.dup;
      if p.qos == 2 {
        dup := false;
      }
      var e := QEntry(p.pub, p.qos, p.retain, dup, p.msgId, qentrySeqno);
      messageQueue := messageQueue + [e];
      store := store[QueueKey(qentrySeqno) := QueueRecord(e)];
    }

    method HandlePublishes(p: Packet) returns (sent: seq<Packet>)
      requires p.Publish?
      modifies `inboundMsgs, `messageQueue, `qentrySeqno, `store
      ensures State() == HandlePublish(old(State()), p).session
      ensures sent == HandlePublish(old(State()), p).sent
      ensures old(Valid(State())) ==> Valid(State())
      ensures sent == if p.qos == 1 then [Puback(p.msgId)] else if p.qos == 2 then [Pubrec(false, p.msgId)] else []
      ensures p.qos < 2 ==>
                var e := QEntry(p.pub, p.qos, p.retain, p.dup, p.msgId, old(qentrySeqno) + 1);
                && messageQueue == old(messageQueue) + [e] && qentrySeqno == e.seqno
                && store == old(store)[QueueKey(e.seqno) := QueueRecord(e)] && unchanged(`inboundMsgs)
      ensures p.qos < 2 && old(Valid(State())) ==> forall e :: e in old(messageQueue) ==> e.seqno < qentrySeqno
      ensures p.qos == 2 ==>
                var m, i := Message(p.msgId, 2, p.retain, p.pub, PUBREL), IndexOf(old(inboundMsgs), p.msgId);
                && inboundMsgs == (if i < |old(inboundMsgs)| then old(inboundMsgs)[i := m] else old(inboundMsgs) + [m])
                && store == old(store)[RecvKey(p.msgId) := PacketRecord(p)]
                && unchanged(`messageQueue, `qentrySeqno)
      ensures p.qos > 2 ==> unchanged(this)
    {
      hide Valid;
      ghost var s := State();
      if Valid(s) {
        HandlePublishKeepsValid(s, p);
        QueueIsBelow(s);
      }
      sent := [];
      if p.qos == 0 {
        ProcessPublication(p);
      } else if p.qos == 1 {
        sent := [Puback(p.msgId)];
        ProcessPublication(p);
      } else if p.qos == 2 {
        store := store[RecvKey(p.msgId) := PacketRecord(p)];
        var m := Message(p.msgId, p.qos, p.retain, p.pub, PUBREL);
        var i := FindMessage(inboundMsgs, m.msgid);
        if i < |inboundMsgs| {
          inboundMsgs := inboundMsgs[i := m];
        } else {
          inboundMsgs := inboundMsgs + [m];
        }
        sent := [Pubrec(false, p.msgId)];
      }
    }

    method HandlePubacks(id: nat)
      modifies `outboundMsgs, `store
      ensures State() == HandlePuback(old(State()), id).session
      ensures old(Valid(State())) ==> Valid(State())
      ensures var ms, i := old(outboundMsgs), IndexOf(old(outboundMsgs), id);
              if i < |ms| && ms[i].qos == 1 then
                outboundMsgs == ms[..i] + ms[i + 1..] && store == old(store) - {SentKey(id)}
              else unchanged(this)
    {
      hide Valid;
      ghost var s := State();
      if Valid(s) {
        HandlePubackKeepsValid(s, id);
      }
      var i := FindMessage(outboundMsgs, id);
      if i < |outboundMsgs| && outboundMsgs[i].qos == 1 {
        store := store - {SentKey(id)};
        outboundMsgs := outboundMsgs[..i] + outboundMsgs[i + 1..];
      }
    }

    method HandlePubrecs(id: nat) returns (sent: seq<Packet>)
      modifies `outboundMsgs, `store
      ensures State() == HandlePubrec(old(State()), id).session
      ensures sent == HandlePubrec(old(State()), id).sent
      ensures old(Valid(State())) ==> Valid(State())
      ensures var ms, i := old(outboundMsgs), IndexOf(old(outboundMsgs), id);
              if i < |ms| && ms[i].qos == 2 && ms[i].nextMessageType == PUBREC then
                && sent == [Pubrel(false, id)]
                && outboundMsgs == ms[i := Message(id, 2, ms[i].retain, ms[i].pub, PUBCOMP)]
                && store == old(store)[RelKey(id) := PacketRecord(Pubrel(false, id))]
              else sent == [] && unchanged(this)
    {
      hide Valid;
      ghost var s := State();
      if Valid(s) {
        HandlePubrecKeepsValid(s, id);
      }
      sent := [];
      var i := FindMessage(outboundMsgs, id);
      if i < |outboundMsgs| && outboundMsgs[i].qos == 2 && outboundMsgs[i].nextMessageType == PUBREC {
        store := store[RelKey(id) := PacketRecord(Pubrel(false, id))];
        sent := [Pubrel(false, id)];
        outboundMsgs := outboundMsgs[i := outboundMsgs[i].(nextMessageType := PUBCOMP)];
      }
    }

    method HandlePubrels(dup: bool, id: nat) returns (sent: seq<Packet>)
      modifies `inboundMsgs, `messageQueue, `qentrySeqno, `store
      ensures State() == HandlePubrel(old(State()), dup, id).session
      ensures sent == HandlePubrel(old(State()), dup, id).sent
      ensures old(Valid(State())) ==> Valid(State())
      ensures var ms, i := old(inboundMsgs), IndexOf(old(inboundMsgs), id);
              if i == |ms| then
                sent == (if dup then [Pubcomp(false, id)] else []) && unchanged(this)
              else if ms[i].qos == 2 && ms[i].nextMessageType == PUBREL then
                && sent == [Pubcomp(false, id)] && inboundMsgs == ms[..i] + ms[i + 1..]
                && qentrySeqno == old(qentrySeqno) + 1
                && var e := QEntry(ms[i].pub, 2, ms[i].retain, false, id, qentrySeqno);
                   && messageQueue == old(messageQueue) + [e]
                   && store == old(store)[QueueKey(qentrySeqno) := QueueRecord(e)] - {RecvKey(id)}
              else sent == [] && unchanged(this)
    {
      hide Valid;
      ghost var s := State();
      if Valid(s) {
        HandlePubrelKeepsValid(s, dup, id);
      }
      sent := [];
      var i := FindMessage(inboundMsgs, id);
      if i == |inboundMsgs| {
        if dup {
          sent := [Pubcomp(false, id)];
        }
      } else {
        var m := inboundMsgs[i];
        if m.qos == 2 && m.nextMessageType == PUBREL {
          sent := [Pubcomp(false, id)];
          ProcessPublication(Packet.Publish(false, m.qos, m.retain, m.msgid, m.pub));
          store := store - {RecvKey(id)};
          inboundMsgs := inboundMsgs[..i] + inboundMsgs[i + 1..];
        }
      }
    }

    method HandlePubcomps(id: nat)
      modifies `outboundMsgs, `store
      ensures State() == HandlePubcomp(old(State()), id).session
      ensures old(Valid(State())) ==> Valid(State())
      ensures var ms, i := old(outboundMsgs), IndexOf(old(outboundMsgs), id);
              if i < |ms| && ms[i].qos == 2 && ms[i].nextMessageType == PUBCOMP then
                outboundMsgs == ms[..i] + ms[i + 1..] && store == old(store) - {SentKey(id), RelKey(id)}
              else unchanged(this)
    {
      hide Valid;
      ghost var s := State();
      if Valid(s) {
        HandlePubcompKeepsValid(s, id);
      }
      var i := FindMessage(outboundMsgs, id);
      if i < |outboundMsgs| && outboundMsgs[i].qos == 2 && outboundMsgs[i].nextMessageType == PUBCOMP {
        store := store - {SentKey(id)};
        store := store - {RelKey(id)};
        outboundMsgs := outboundMsgs[..i] + outboundMsgs[i + 1..];
        assert store == old(store) - {SentKey(id), RelKey(id)};
      }
    }

    /** MQTTClient_deliverMessage. */
    method DeliverMessage() returns (e: QEntry)
      requires messageQueue != []
      modifies `messageQueue, `store
      ensures e == old(messageQueue)[0]
      ensures messageQueue == old(messageQueue)[1..] && store == old(store) - {QueueKey(e.seqno)}
      ensures State() == Deliver(old(State()))
      ensures old(Valid(State())) ==> Valid(State())
    {
      ghost var s := State();
      if Valid(s) {
        DeliverKeepsValid(s);
      }
      e := messageQueue[0];
      store := store - {QueueKey(e.seqno)};
      messageQueue := messageQueue[1..];
    }

    // ---------- restoring ----------

    /** MQTTPersistence_insertInOrder. */
    method InsertOutbound(m: Message)
      modifies this`outboundMsgs
      ensures outboundMsgs == InsertInOrder(old(outboundMsgs), m, BY_ID)
    {
      var i := 0;
      while i < |outboundMsgs| && !(m.msgid < outboundMsgs[i].msgid)
        invariant i <= |outboundMsgs|
        invariant forall j :: 0 <= j < i ==> outboundMsgs[j].msgid <= m.msgid
      {
        i := i + 1;
      }
      InsertPointIs(outboundMsgs, m, BY_ID, i);
      outboundMsgs := outboundMsgs[..i] + [m] + outboundMsgs[i..];
    }

    /** MQTTPersistence_wrapMsgID. */
    method WrapMessageIds()
      requires Increasing(outboundMsgs, BY_ID)
      modifies this`outboundMsgs
      ensures outboundMsgs == WrapMsgID(old(outboundMsgs))
    {
      if |outboundMsgs| > 0 {
        var wrapel := FindWrap(outboundMsgs);
        if wrapel != 0 {
          outboundMsgs := outboundMsgs[wrapel..] + outboundMsgs[..wrapel];
        } else {
          assert Rotated(outboundMsgs, 0) == outboundMsgs;
        }
      }
    }

    /** The loop of MQTTPersistence_restore over the keys of the store. */
    method RestoreFromKeys(keys: seq<Key>)
      requires outboundMsgs == [] && inboundMsgs == []
      requires forall k :: k in keys ==> k in store
      modifies `outboundMsgs, `inboundMsgs, `store
      ensures store == RestoreKeys(old(store), keys).store
      ensures outboundMsgs == RestoreKeys(old(store), keys).outbound
      ensures inboundMsgs == RestoreKeys(old(store), keys).inbound
    {
      var i := 0;
      while i < |keys|
        invariant i <= |keys|
        invariant InFlight(store, outboundMsgs, inboundMsgs) == RestoreKeys(old(store), keys[..i])
      {
        assert keys[..i + 1][..i] == keys[..i];
        var k := keys[i];
        if k in store && store[k].PacketRecord? {
          var p := store[k].packet;
          match k
          case RecvKey(_) =>
            if p.Publish? {
              var m := CreateMessage(p);
              inboundMsgs := inboundMsgs + [m.(nextMessageType := PUBREL)];
            }
          case SentKey(_) =>
            if p.Publish? {
              var m := CreateMessage(p);
              if RelKey(p.msgId) in store {
                m := m.(nextMessageType := PUBCOMP);
              }
              InsertOutbound(m);
            }
          case RelKey(_) =>
            if p.Pubrel? && SentKey(p.msgId) !in store {
              store := store - {k};
            }
          case QueueKey(_) =>
        }
        i := i + 1;
      }
      assert keys[..i] == keys;
    }

    /** MQTTPersistence_insertInSeqOrder. */
    method InsertQueued(e: QEntry)
      modifies this`messageQueue
      ensures messageQueue == InsertInOrder(old(messageQueue), e, BY_SEQNO)
    {
      var i := 0;
      while i < |messageQueue| && !(e.seqno < messageQueue[i].seqno)
        invariant i <= |messageQueue|
        invariant forall j :: 0 <= j < i ==> messageQueue[j].seqno <= e.seqno
      {
        i := i + 1;
      }
      InsertPointIs(messageQueue, e, BY_SEQNO, i);
      messageQueue := messageQueue[..i] + [e] + messageQueue[i..];
    }

    /** MQTTPersistence_restoreMessageQueue, for a client whose queue is empty. */
    method RestoreMessageQueue(keys: seq<Key>)
      requires messageQueue == [] && qentrySeqno == 0
      modifies this`messageQueue, this`qentrySeqno
      ensures messageQueue == RestoreQueueKeys(store, keys)
      ensures qentrySeqno == MaxSeqno(messageQueue)
    {
      var i := 0;
      while i < |keys|
        invariant i <= |keys|
        invariant messageQueue == RestoreQueueKeys(store, keys[..i])
        invariant qentrySeqno == MaxSeqno(messageQueue)
      {
        assert keys[..i + 1][..i] == keys[..i];
        var k := keys[i];
        if k.QueueKey? && k in store && store[k].QueueRecord? {
          var e := store[k].entry.(seqno := k.seqno);
          MaxAfterInsert(messageQueue, e);
          InsertQueued(e);
          if qentrySeqno < e.seqno {
            qentrySeqno := e.seqno;
          }
        }
        i := i + 1;
      }
      assert keys[..i] == keys;
    }

    /** MQTTClient_create over the store of an earlier client: the in-flight lists, then the queue. */
    method Reopen(keys: seq<Key>)
      requires Valid(State()) && Lists(keys, store)
      modifies `outboundMsgs, `inboundMsgs, `messageQueue, `msgID, `qentrySeqno, `store
      ensures State() == Restart(old(State()), keys) && Valid(State())
      ensures ById(outboundMsgs) == old(ById(outboundMsgs)) && ById(inboundMsgs) == old(ById(inboundMsgs))
      ensures messageQueue == old(messageQueue) && store == old(store)
      ensures msgID == 0 && (forall e :: e in messageQueue ==> e.seqno <= qentrySeqno)
      ensures qentrySeqno == 0 || exists e :: e in messageQueue && e.seqno == qentrySeqno
    {
      hide Valid, Lists, RestoreKeys, RestoreQueueKeys, WrapMsgID, Increasing, ById, MaxSeqno, DistinctIds;
      RestartGivesBack(State(), keys);
      RestoredIsIncreasing(State(), keys);
      outboundMsgs, inboundMsgs, messageQueue, msgID, qentrySeqno := [], [], [], 0, 0;
      RestoreFromKeys(keys);
      WrapMessageIds();
      RestoreMessageQueue(keys);
    }
  }

  lemma RestartGivesBack(s: Session, keys: seq<Key>)
    requires Valid(s) && Lists(keys, s.store)
    ensures var t := Restart(s, keys);
            && Valid(t) && ById(t.outbound) == ById(s.outbound) && ById(t.inbound) == ById(s.inbound)
            && t.queue == s.queue && t.store == s.store && t.msgID == 0 && t.maxInflight == s.maxInflight
            && (forall e :: e in t.queue ==> e.seqno <= t.qentrySeqno)
            && (t.qentrySeqno == 0 || exists e :: e in t.queue && e.seqno == t.qentrySeqno)
  {
    hide Valid, Lists, RestoreKeys, RestoreQueueKeys, WrapMsgID, ById;
    RestartKeepsValid(s, keys);
    RestartRestoresLists(s, keys);
    RestartRestoresQueue(s, keys);
  }

  lemma RestoredIsIncreasing(s: Session, keys: seq<Key>)
    requires Valid(s) && Lists(keys, s.store)
    ensures Increasing(RestoreKeys(s.store, keys).outbound, BY_ID) && RestoreKeys(s.store, keys).store == s.store
    ensures forall k :: k in keys ==> k in s.store
  {
    RestoresOutbound(s.store, keys, ById(s.outbound));
  }

  lemma MaxAfterInsert(q: seq<QEntry>, e: QEntry)
    ensures MaxSeqno(InsertInOrder(q, e, BY_SEQNO)) == if MaxSeqno(q) < e.seqno then e.seqno else MaxSeqno(q)
  {
    var r := InsertInOrder(q, e, BY_SEQNO);
    forall x
      ensures x in r <==> x in q || x == e
    {
      InsertAddsElement(q, e, BY_SEQNO, x);
    }
  }

  // ---------- the id scan ----------

  /** The scan has passed `k` ids in use and looks at `msgid`; what it gives out is still ahead. */
  ghost predicate ScanAt(inUse: set<nat>, start: nat, k: nat, msgid: nat) {
    && start <= MAX_MSG_ID && k < Candidates(start) <= MAX_MSG_ID
    && msgid == Candidate(NextId(start), k)
    && AssignedId(inUse, start) == FirstFree(inUse, msgid, Candidates(start) - k)
    && (start == 0 ==> AssignedId(inUse, start) != 0)
  }

  lemma ScanBegins(inUse: set<nat>, start: nat)
    requires start <= MAX_MSG_ID
    requires start == 0 ==> exists id :: 1 <= id <= MAX_MSG_ID && id !in inUse
    ensures ScanAt(inUse, start, 0, NextId(start))
  {
    AssignedIdIsFree(inUse, start);
  }

  /** One step past an id that is in use is back at the start exactly after the last candidate. */
  lemma ScanStep(inUse: set<nat>, start: nat, k: nat, msgid: nat)
    requires ScanAt(inUse, start, k, msgid) && msgid in inUse
    ensures if NextId(msgid) == start then AssignedId(inUse, start) == 0
            else ScanAt(inUse, start, k + 1, NextId(msgid))
  {
    CandidateNext(NextId(start), k);
    assert k + 1 == Candidates(start) ==> FirstFree(inUse, NextId(msgid), Candidates(start) - k - 1) == 0;
  }

  lemma ScanEnds(inUse: set<nat>, start: nat, k: nat, msgid: nat)
    requires ScanAt(inUse, start, k, msgid) && msgid !in inUse
    ensures AssignedId(inUse, start) == msgid
  {
  }

  lemma InsertPointIs<T>(xs: seq<T>, x: T, key: T -> int, i: nat)
    requires i <= |xs|
    requires forall j :: 0 <= j < i ==> key(xs[j]) <= key(x)
    requires i < |xs| ==> key(x) < key(xs[i])
    ensures InsertPoint(xs, x, key) == i
  {
  }
}
