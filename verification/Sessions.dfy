/**
 The session of one MQTT client with its persistent store, and what each protocol handler does to it.
 A handler yields the new session, the packets it hands to the network and the messages it puts on the
 message queue.
 */
module Sessions {
  import opened Messages
  import opened MessageIds
  import opened Restore

  datatype Session = Session(
    outbound: seq<Message>,
    inbound: seq<Message>,
    queue: seq<QEntry>,
    msgID: nat,
    qentrySeqno: nat,
    maxInflight: nat,
    store: Store)

  datatype Effect = Effect(session: Session, sent: seq<Packet>, arrived: seq<QEntry>)

  function NewSession(maxInflight: nat): Session {
    Session([], [], [], 0, 0, maxInflight, map[])
  }

  // ---------- sending ----------

  /** The PUBLISH of an in-flight message; sending it stores it. */
  function PublishOf(m: Message, dup: bool): Packet {
    Publish(dup, m.qos, m.retain, m.msgid, m.pub)
  }

  function PutSent(store: Store, p: Packet): Store {
    store[SentKey(p.msgId) := PacketRecord(p)]
  }

  function PutRel(store: Store, id: nat): Store {
    store[RelKey(id) := PacketRecord(Pubrel(false, id))]
  }

  predicate CanPublish(s: Session) {
    |s.outbound| < s.maxInflight
  }

  /** MQTTClient_publish once there is room. A QoS 0 message leaves no trace in the session. */
  function StartPublish(s: Session, qos: nat, retain: bool, pub: Publication): Effect {
    if qos == 0 then Effect(s, [Publish(false, 0, retain, 0, pub)], [])
    else
      var id := AssignedId(Ids(s.outbound), s.msgID);
      if id == 0 then Effect(s, [], [])
      else
        var m := Message(id, qos, retain, pub, if qos == 2 then PUBREC else Unset);
        var p := PublishOf(m, false);
        Effect(s.(outbound := s.outbound + [m], msgID := id, store := PutSent(s.store, p)), [p], [])
  }

  /** SUBSCRIBE and UNSUBSCRIBE take an id without keeping a message. */
  function TakeId(s: Session): Session {
    var id := AssignedId(Ids(s.outbound), s.msgID);
    if id == 0 then s else s.(msgID := id)
  }

  /** The retry of one outbound message that is due. */
  function RetryOne(s: Session, m: Message): Effect {
    if m.qos == 1 || (m.qos == 2 && m.nextMessageType == PUBREC) then
      var p := PublishOf(m, true);
      Effect(s.(store := PutSent(s.store, p)), [p], [])
    else if m.qos != 0 && m.nextMessageType == PUBCOMP then
      Effect(s.(store := PutRel(s.store, m.msgid)), [Pubrel(false, m.msgid)], [])
    else
      Effect(s, [], [])
  }

  /** One pass of MQTTProtocol_retries over the first `n` outbound messages, where `due` are the messages
      whose retry is due. The pass stops early when the socket no longer takes packets. */
  function RetryPass(s: Session, due: set<nat>, n: nat): Effect
    requires n <= |s.outbound|
  {
    if n == 0 then Effect(s, [], [])
    else
      var f := RetryPass(s, due, n - 1);
      var m := s.outbound[n - 1];
      if m.msgid in due then
        var g := RetryOne(f.session, m);
        Effect(g.session, f.sent + g.sent, [])
      else f
  }

  /** Those of the messages whose retry is due, in the order of the list. */
  function Due(ms: seq<Message>, due: set<nat>): (r: seq<Message>)
    ensures forall m :: m in r <==> m in ms && m.msgid in due
  {
    if ms == [] then []
    else
      var n := |ms| - 1;
      assert ms == ms[..n] + [ms[n]];
      Due(ms[..n], due) + if ms[n].msgid in due then [ms[n]] else []
  }

  // ---------- receiving ----------

  /** Protocol_processPublication. */
  function ProcessPublication(s: Session, p: Packet): (Session, QEntry)
    requires p.Publish?
  {
    var n := s.qentrySeqno + 1;
    var e := QEntry(p.pub, p.qos, p.retain, if p.qos == 2 then false else p.dup, p.msgId, n);
    (s.(queue := s.queue + [e], qentrySeqno := n, store := s.store[QueueKey(n) := QueueRecord(e)]), e)
  }

  /** MQTTProtocol_handlePublishes, after MQTTPacket_Factory has stored a QoS 2 message. */
  function HandlePublish(s: Session, p: Packet): Effect
    requires p.Publish?
  {
    if p.qos == 0 then
      var (t, e) := ProcessPublication(s, p);
      Effect(t, [], [e])
    else if p.qos == 1 then
      var (t, e) := ProcessPublication(s, p);
      Effect(t, [Puback(p.msgId)], [e])
    else if p.qos == 2 then
      var m := Message(p.msgId, 2, p.retain, p.pub, PUBREL);
      var inbound := if m.msgid in Ids(s.inbound) then Replaced(s.inbound, m) else s.inbound + [m];
      Effect(s.(inbound := inbound, store := s.store[RecvKey(p.msgId) := PacketRecord(p)]),
             [Pubrec(false, p.msgId)], [])
    else
      Effect(s, [], [])
  }

  function RemoveSent(store: Store, qos: nat, id: nat): Store {
    if qos == 2 then store - {SentKey(id), RelKey(id)} else store - {SentKey(id)}
  }

  /** MQTTProtocol_handlePubacks. */
  function HandlePuback(s: Session, id: nat): Effect {
    var i := IndexOf(s.outbound, id);
    if i < |s.outbound| && s.outbound[i].qos == 1 then
      Effect(s.(outbound := Removed(s.outbound, id), store := RemoveSent(s.store, 1, id)), [], [])
    else
      Effect(s, [], [])
  }

  /** MQTTProtocol_handlePubrecs. */
  function HandlePubrec(s: Session, id: nat): Effect {
    var i := IndexOf(s.outbound, id);
    if i < |s.outbound| && s.outbound[i].qos == 2 && s.outbound[i].nextMessageType == PUBREC then
      Effect(s.(outbound := Replaced(s.outbound, s.outbound[i].(nextMessageType := PUBCOMP)),
                store := PutRel(s.store, id)),
             [Pubrel(false, id)], [])
    else
      Effect(s, [], [])
  }

  /** MQTTProtocol_handlePubrels. */
  function HandlePubrel(s: Session, dup: bool, id: nat): Effect {
    var i := IndexOf(s.inbound, id);
    if i == |s.inbound| then
      Effect(s, if dup then [Pubcomp(false, id)] else [], [])
    else
      var m := s.inbound[i];
      if m.qos == 2 && m.nextMessageType == PUBREL then
        var (t, e) := ProcessPublication(s, PublishOf(m, false));
        Effect(t.(inbound := Removed(t.inbound, id), store := t.store - {RecvKey(id)}),
               [Pubcomp(false, id)], [e])
      else
        Effect(s, [], [])
  }

  /** MQTTProtocol_handlePubcomps. */
  function HandlePubcomp(s: Session, id: nat): Effect {
    var i := IndexOf(s.outbound, id);
    if i < |s.outbound| && s.outbound[i].qos == 2 && s.outbound[i].nextMessageType == PUBCOMP then
      Effect(s.(outbound := Removed(s.outbound, id), store := RemoveSent(s.store, 2, id)), [], [])
    else
      Effect(s, [], [])
  }

  /** The dispatch of MQTTClient_cycle. */
  function Handle(s: Session, p: Packet): Effect {
    match p
    case Publish(_, _, _, _, _) => HandlePublish(s, p)
    case Puback(id) => HandlePuback(s, id)
    case Pubrec(_, id) => HandlePubrec(s, id)
    case Pubrel(dup, id) => HandlePubrel(s, dup, id)
    case Pubcomp(_, id) => HandlePubcomp(s, id)
  }

  // ---------- the application, and a restart ----------

  /** MQTTClient_deliverMessage: the application takes the first queued message. */
  function Deliver(s: Session): Session
    requires s.queue != []
  {
    s.(queue := s.queue[1..], store := s.store - {QueueKey(s.queue[0].seqno)})
  }

  /** The client is created again over its store: MQTTPersistence_restore and
      MQTTPersistence_restoreMessageQueue, with the keys in the order in which the store lists them. */
  function Restart(s: Session, keys: seq<Key>): Session {
    var queue := RestoreQueueKeys(s.store, keys);
    var r := RestoreKeys(s.store, keys);
    Session(WrapMsgID(r.outbound), r.inbound, queue, 0, MaxSeqno(queue), s.maxInflight, r.store)
  }

  // ---------- what every session keeps ----------

  ghost predicate ValidLists(s: Session) {
    && DistinctIds(s.outbound) && DistinctIds(s.inbound)
    && |s.outbound| <= s.maxInflight
    && s.msgID <= MAX_MSG_ID
    && (forall m :: m in s.outbound ==> 1 <= m.msgid <= MAX_MSG_ID && m.qos in {1, 2})
    && (forall m :: m in s.inbound ==> m.qos == 2)
    && (forall e :: e in s.queue ==> e.seqno <= s.qentrySeqno)
  }

  ghost predicate Mirrored(s: Session) {
    && SentMirrored(ById(s.outbound), s.store)
    && RecvMirrored(ById(s.inbound), s.store)
    && QueueMirrored(s.queue, s.store)
  }

  /** The in-flight lists have distinct ids, the limit on outbound messages holds, and the store is a
      mirror of the session. */
  ghost predicate Valid(s: Session) {
    ValidLists(s) && Mirrored(s)
  }
}
