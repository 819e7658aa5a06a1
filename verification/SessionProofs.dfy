/** Every handler keeps a session valid, and a restart gives the session back. */
module SessionProofs {
  import opened Messages
  import opened MessageIds
  import opened Restore
  import opened SortedInsert
  import opened Sessions

  // ---------- the queue ----------

  lemma QueueGrows(s: Session, p: Packet)
    requires p.Publish? && QueueMirrored(s.queue, s.store)
    requires forall e :: e in s.queue ==> e.seqno <= s.qentrySeqno
    ensures var (t, e) := ProcessPublication(s, p);
            && QueueMirrored(t.queue, t.store)
            && (forall x :: x in t.queue ==> x.seqno <= t.qentrySeqno)
  {
    var (t, e) := ProcessPublication(s, p);
    forall i | 0 <= i < |s.queue|
      ensures BY_SEQNO(s.queue[i]) < e.seqno
    {
      assert s.queue[i] in s.queue;
    }
    assert e in t.queue;
    forall n | QueueKey(n) in t.store
      ensures exists x :: x in t.queue && x.seqno == n
    {
      if n != e.seqno {
        var x :| x in s.queue && x.seqno == n;
        assert x in t.queue;
      }
    }
  }

  ghost predicate SameSent(store: Store, store': Store) {
    forall k: Key :: k.SentKey? || k.RelKey? ==> (k in store' <==> k in store) && (k in store ==> store'[k] == store[k])
  }

  ghost predicate SameRecv(store: Store, store': Store) {
    forall k: Key :: k.RecvKey? ==> (k in store' <==> k in store) && (k in store ==> store'[k] == store[k])
  }

  ghost predicate SameQueue(store: Store, store': Store) {
    forall k: Key :: k.QueueKey? ==> (k in store' <==> k in store) && (k in store ==> store'[k] == store[k])
  }

  /** Records of the other kinds do not matter to a part of the mirror. */
  lemma SentUntouched(out: map<nat, Message>, store: Store, store': Store)
    requires SentMirrored(out, store) && SameSent(store, store')
    ensures SentMirrored(out, store')
  {
  }

  lemma RecvUntouched(inb: map<nat, Message>, store: Store, store': Store)
    requires RecvMirrored(inb, store) && SameRecv(store, store')
    ensures RecvMirrored(inb, store')
  {
  }

  lemma QueueUntouched(queue: seq<QEntry>, store: Store, store': Store)
    requires QueueMirrored(queue, store) && SameQueue(store, store')
    ensures QueueMirrored(queue, store')
  {
  }

  lemma SentAdded(out: map<nat, Message>, store: Store, m: Message)
    requires SentMirrored(out, store) && m.msgid !in out
    requires m.nextMessageType == if m.qos == 2 then PUBREC else Unset
    ensures SentMirrored(out[m.msgid := m], PutSent(store, PublishOf(m, false)))
  {
  }

  lemma SentAgain(out: map<nat, Message>, store: Store, m: Message)
    requires SentMirrored(out, store) && Listed(out, m)
    ensures SentMirrored(out, PutSent(store, PublishOf(m, true)))
    ensures m.nextMessageType == PUBCOMP ==> SentMirrored(out, PutRel(store, m.msgid))
  {
  }

  lemma SentAdvanced(out: map<nat, Message>, store: Store, m: Message)
    requires SentMirrored(out, store) && Listed(out, m) && m.qos == 2
    ensures SentMirrored(out[m.msgid := m.(nextMessageType := PUBCOMP)], PutRel(store, m.msgid))
  {
  }

  lemma SentRemoved(out: map<nat, Message>, store: Store, m: Message)
    requires SentMirrored(out, store) && Listed(out, m)
    ensures SentMirrored(out - {m.msgid}, RemoveSent(store, m.qos, m.msgid))
  {
  }

  lemma RecvStored(inb: map<nat, Message>, store: Store, m: Message, p: Packet)
    requires RecvMirrored(inb, store) && m.nextMessageType == PUBREL && StoredPublish(PacketRecord(p), m)
    ensures RecvMirrored(inb[m.msgid := m], store[RecvKey(m.msgid) := PacketRecord(p)])
  {
  }

  lemma RecvRemoved(inb: map<nat, Message>, store: Store, id: nat)
    requires RecvMirrored(inb, store)
    ensures RecvMirrored(inb - {id}, store - {RecvKey(id)})
  {
  }

  lemma RestIncreases(queue: seq<QEntry>)
    requires Increasing(queue, BY_SEQNO) && queue != []
    ensures Increasing(queue[1..], BY_SEQNO)
    ensures forall e :: e in queue[1..] ==> e in queue && e.seqno != queue[0].seqno
  {
    var rest := queue[1..];
    forall i | 0 <= i < |rest|
      ensures rest[i] in queue && rest[i].seqno != queue[0].seqno
    {
      assert rest[i] == queue[i + 1];
      assert BY_SEQNO(queue[0]) < BY_SEQNO(queue[i + 1]);
    }
  }

  lemma DeliverKeepsQueue(queue: seq<QEntry>, store: Store)
    requires QueueMirrored(queue, store) && queue != []
    ensures QueueMirrored(queue[1..], store - {QueueKey(queue[0].seqno)})
  {
    hide Increasing;
    var rest := queue[1..];
    assert queue == [queue[0]] + rest;
    RestIncreases(queue);
    forall n | QueueKey(n) in store && n != queue[0].seqno
      ensures exists e :: e in rest && e.seqno == n
    {
      var e :| e in queue && e.seqno == n;
      assert e in rest;
    }
  }

  lemma DeliverKeepsValid(s: Session)
    requires Valid(s) && s.queue != []
    ensures Valid(Deliver(s))
  {
    var t := Deliver(s);
    SentUntouched(ById(s.outbound), s.store, t.store);
    RecvUntouched(ById(s.inbound), s.store, t.store);
    DeliverKeepsQueue(s.queue, s.store);
  }

  // ---------- sending ----------

  lemma {:induction false} DistinctSize(ms: seq<Message>)
    requires DistinctIds(ms)
    ensures |Ids(ms)| == |ms|
  {
    if ms != [] {
      var n := |ms| - 1;
      DistinctSize(ms[..n]);
      assert ms == ms[..n] + [ms[n]];
      assert Ids(ms) == Ids(ms[..n]) + {ms[n].msgid} by {
        assert forall m :: m in ms <==> m in ms[..n] || m == ms[n];
      }
      assert ms[n].msgid !in Ids(ms[..n]);
    }
  }

  /** While there is room for a message there is also an id for it, as long as the limit is below 65535. */
  lemma RoomMeansId(s: Session)
    requires Valid(s) && CanPublish(s) && s.maxInflight < MAX_MSG_ID
    ensures var id := AssignedId(Ids(s.outbound), s.msgID);
            1 <= id <= MAX_MSG_ID && id !in Ids(s.outbound)
  {
    DistinctSize(s.outbound);
    FewInFlightSucceeds(Ids(s.outbound), s.msgID);
    AssignedIdIsFree(Ids(s.outbound), s.msgID);
  }

  lemma AddOutboundKeepsValid(s: Session, m: Message)
    requires Valid(s) && CanPublish(s)
    requires m.msgid !in Ids(s.outbound) && 1 <= m.msgid <= MAX_MSG_ID
    requires m.qos in {1, 2} && m.nextMessageType == if m.qos == 2 then PUBREC else Unset
    ensures Valid(s.(outbound := s.outbound + [m], msgID := m.msgid,
                     store := PutSent(s.store, PublishOf(m, false))))
  {
    var store := PutSent(s.store, PublishOf(m, false));
    Appended(s.outbound, m);
    SentAdded(ById(s.outbound), s.store, m);
    RecvUntouched(ById(s.inbound), s.store, store);
    QueueUntouched(s.queue, s.store, store);
  }

  lemma StartPublishKeepsValid(s: Session, qos: nat, retain: bool, pub: Publication)
    requires Valid(s) && CanPublish(s) && qos <= 2
    ensures Valid(StartPublish(s, qos, retain, pub).session)
  {
    var id := AssignedId(Ids(s.outbound), s.msgID);
    AssignedIdIsFree(Ids(s.outbound), s.msgID);
    if qos != 0 && id != 0 {
      AddOutboundKeepsValid(s, Message(id, qos, retain, pub, if qos == 2 then PUBREC else Unset));
    }
  }

  lemma TakeIdKeepsValid(s: Session)
    requires Valid(s)
    ensures Valid(TakeId(s))
  {
    AssignedIdIsFree(Ids(s.outbound), s.msgID);
  }

  /** An id given to a SUBSCRIBE or UNSUBSCRIBE is the next free one, and used up. */
  lemma TakenIdIsUsedUp(s: Session)
    requires ValidLists(s)
    requires exists id :: 1 <= id <= 65535 && id != s.msgID && id !in Ids(s.outbound)
    ensures var t := TakeId(s);
            && 1 <= t.msgID <= 65535 && t.msgID != s.msgID && t.msgID !in Ids(s.outbound)
            && (forall id :: Between(s.msgID, id, t.msgID) ==> id in Ids(s.outbound))
            && t == s.(msgID := t.msgID)
  {
    AssignedIdIsFree(Ids(s.outbound), s.msgID);
    AssignedIdIsNext(Ids(s.outbound), s.msgID);
  }

  lemma RetryKeepsValid(s: Session, m: Message)
    requires Valid(s) && m in s.outbound
    ensures Valid(RetryOne(s, m).session)
  {
    var t := RetryOne(s, m).session;
    MemberById(s.outbound, m);
    SentAgain(ById(s.outbound), s.store, m);
    RecvUntouched(ById(s.inbound), s.store, t.store);
    QueueUntouched(s.queue, s.store, t.store);
  }

  lemma {:induction false} RetryPassKeepsValid(s: Session, due: set<nat>, n: nat)
    requires Valid(s) && n <= |s.outbound|
    ensures Valid(RetryPass(s, due, n).session) && RetryPass(s, due, n).session.outbound == s.outbound
  {
    hide Valid, PutSent, PutRel;
    if n != 0 {
      RetryPassKeepsValid(s, due, n - 1);
      RetryKeepsValid(RetryPass(s, due, n - 1).session, s.outbound[n - 1]);
    }
  }

  /** `p` is what is sent again for `m`, and its record is what the store holds. */
  predicate SentAgainAs(m: Message, p: Packet, store: Store) {
    if m.nextMessageType == PUBCOMP then
      p == Pubrel(false, m.msgid) && RelKey(m.msgid) in store && store[RelKey(m.msgid)] == PacketRecord(p)
    else
      && p == Publish(true, m.qos, m.retain, m.msgid, m.pub)
      && SentKey(m.msgid) in store && store[SentKey(m.msgid)] == PacketRecord(p)
  }

  /** A pass sends one packet for each message that is due and that it gets to: PUBREL for one that waits for PUBCOMP,
      and for the others a PUBLISH with the DUP flag. */
  lemma {:induction false} RetryPassSends(s: Session, due: set<nat>, n: nat)
    requires Valid(s) && n <= |s.outbound|
    ensures var f, ms := RetryPass(s, due, n), Due(s.outbound[..n], due);
            && |f.sent| == |ms|
            && (forall j :: 0 <= j < |ms| ==> SentAgainAs(ms[j], f.sent[j], f.session.store))
            && f.session == s.(store := f.session.store)
  {
    hide Valid, RetryOne, SentAgainAs, Waiting, SameBut;
    if n != 0 {
      RetryPassSends(s, due, n - 1);
      var m, ms := s.outbound[n - 1], Due(s.outbound[..n - 1], due);
      assert s.outbound[..n][..n - 1] == s.outbound[..n - 1];
      var f := RetryPass(s, due, n - 1);
      OthersBefore(s, n - 1);
      if m.msgid in due {
        OutboundWaits(s, m);
        RetrySends(f.session, m);
        var g := RetryOne(f.session, m);
        forall j | 0 <= j < |ms|
          ensures SentAgainAs(ms[j], f.sent[j], g.session.store)
        {
          assert ms[j] in ms;
          StaysSent(ms[j], f.sent[j], f.session.store, g.session.store, m.msgid);
        }
      }
    }
  }

  lemma OthersBefore(s: Session, i: nat)
    requires Valid(s) && i < |s.outbound|
    ensures forall m :: m in s.outbound[..i] ==> m.msgid != s.outbound[i].msgid
  {
  }

  ghost predicate SameBut(store: Store, store': Store, id: nat) {
    forall k: Key :: k != SentKey(id) && k != RelKey(id) ==>
      (k in store' <==> k in store) && (k in store ==> store'[k] == store[k])
  }

  lemma StaysSent(m: Message, p: Packet, store: Store, store': Store, id: nat)
    requires SentAgainAs(m, p, store) && SameBut(store, store', id) && m.msgid != id
    ensures SentAgainAs(m, p, store')
  {
  }

  /** What an outbound message can wait for. */
  predicate Waiting(m: Message) {
    (m.qos == 1 && m.nextMessageType == Unset) || (m.qos == 2 && m.nextMessageType in {PUBREC, PUBCOMP})
  }

  lemma OutboundWaits(s: Session, m: Message)
    requires Valid(s) && m in s.outbound
    ensures Waiting(m)
  {
    MemberById(s.outbound, m);
  }

  lemma RetrySends(t: Session, m: Message)
    requires Waiting(m)
    ensures var g := RetryOne(t, m);
            && |g.sent| == 1 && SentAgainAs(m, g.sent[0], g.session.store)
            && g.session == t.(store := g.session.store)
            && SameBut(t.store, g.session.store, m.msgid)
  {
  }

  // ---------- receiving ----------

  lemma HandlePublishKeepsValid(s: Session, p: Packet)
    requires Valid(s) && p.Publish?
    ensures Valid(HandlePublish(s, p).session)
  {
    var t := HandlePublish(s, p).session;
    if p.qos == 2 {
      var m := Message(p.msgId, 2, p.retain, p.pub, PUBREL);
      StoreInbound(s.inbound, m);
      assert Mirrored(t) by {
        SentUntouched(ById(s.outbound), s.store, t.store);
        RecvStored(ById(s.inbound), s.store, m, p);
        QueueUntouched(s.queue, s.store, t.store);
      }
    } else if p.qos < 2 {
      ProcessKeepsValid(s, p);
    }
  }

  lemma QueueIsBelow(s: Session)
    requires Valid(s)
    ensures forall e :: e in s.queue ==> e.seqno <= s.qentrySeqno
  {
  }

  lemma ProcessKeepsValid(s: Session, p: Packet)
    requires Valid(s) && p.Publish?
    ensures Valid(ProcessPublication(s, p).0)
  {
    var t := ProcessPublication(s, p).0;
    SentUntouched(ById(s.outbound), s.store, t.store);
    RecvUntouched(ById(s.inbound), s.store, t.store);
    QueueGrows(s, p);
  }

  lemma StoreInbound(ms: seq<Message>, m: Message)
    requires DistinctIds(ms)
    ensures var r := if m.msgid in Ids(ms) then Replaced(ms, m) else ms + [m];
            && DistinctIds(r)
            && ById(r) == ById(ms)[m.msgid := m]
            && forall x :: x in r ==> x in ms || x == m
  {
    if m.msgid in Ids(ms) {
      ReplacedById(ms, m);
    } else {
      Appended(ms, m);
    }
  }

  lemma RemovedMembers(ms: seq<Message>, id: nat)
    ensures |Removed(ms, id)| <= |ms|
    ensures forall m :: m in Removed(ms, id) ==> m in ms
  {
  }

  lemma RemoveSentOnly(store: Store, qos: nat, id: nat)
    ensures SameRecv(store, RemoveSent(store, qos, id)) && SameQueue(store, RemoveSent(store, qos, id))
  {
  }

  lemma RemoveSentKeepsValid(s: Session, i: nat)
    requires Valid(s) && i < |s.outbound|
    ensures var m := s.outbound[i];
            Valid(s.(outbound := Removed(s.outbound, m.msgid), store := RemoveSent(s.store, m.qos, m.msgid)))
  {
    hide Removed, RemoveSent, SentMirrored, RecvMirrored, QueueMirrored;
    var m := s.outbound[i];
    var store := RemoveSent(s.store, m.qos, m.msgid);
    RemoveSentOnly(s.store, m.qos, m.msgid);
    ByIdAt(s.outbound, i);
    RemovedById(s.outbound, m.msgid);
    RemovedMembers(s.outbound, m.msgid);
    SentRemoved(ById(s.outbound), s.store, m);
    RecvUntouched(ById(s.inbound), s.store, store);
    QueueUntouched(s.queue, s.store, store);
  }

  lemma HandlePubackKeepsValid(s: Session, id: nat)
    requires Valid(s)
    ensures Valid(HandlePuback(s, id).session)
  {
    var i := IndexOf(s.outbound, id);
    if i < |s.outbound| && s.outbound[i].qos == 1 {
      RemoveSentKeepsValid(s, i);
    }
  }

  lemma HandlePubcompKeepsValid(s: Session, id: nat)
    requires Valid(s)
    ensures Valid(HandlePubcomp(s, id).session)
  {
    var i := IndexOf(s.outbound, id);
    if i < |s.outbound| && s.outbound[i].qos == 2 {
      RemoveSentKeepsValid(s, i);
    }
  }

  lemma ReplacedMembers(ms: seq<Message>, m: Message)
    ensures |Replaced(ms, m)| == |ms|
    ensures forall x :: x in Replaced(ms, m) ==> x in ms || x == m
  {
  }

  lemma HandlePubrecKeepsValid(s: Session, id: nat)
    requires Valid(s)
    ensures Valid(HandlePubrec(s, id).session)
  {
    var i := IndexOf(s.outbound, id);
    if i < |s.outbound| && s.outbound[i].qos == 2 {
      var m := s.outbound[i];
      var store := PutRel(s.store, id);
      ByIdAt(s.outbound, i);
      ReplacedById(s.outbound, m.(nextMessageType := PUBCOMP));
      ReplacedMembers(s.outbound, m.(nextMessageType := PUBCOMP));
      SentAdvanced(ById(s.outbound), s.store, m);
      RecvUntouched(ById(s.inbound), s.store, store);
      QueueUntouched(s.queue, s.store, store);
    }
  }

  lemma DropInboundKeepsValid(s: Session, id: nat)
    requires Valid(s)
    ensures Valid(s.(inbound := Removed(s.inbound, id), store := s.store - {RecvKey(id)}))
  {
    var store := s.store - {RecvKey(id)};
    RemovedById(s.inbound, id);
    RemovedMembers(s.inbound, id);
    SentUntouched(ById(s.outbound), s.store, store);
    RecvRemoved(ById(s.inbound), s.store, id);
    QueueUntouched(s.queue, s.store, store);
  }

  lemma HandlePubrelKeepsValid(s: Session, dup: bool, id: nat)
    requires Valid(s)
    ensures Valid(HandlePubrel(s, dup, id).session)
  {
    var i := IndexOf(s.inbound, id);
    if i < |s.inbound| && s.inbound[i].qos == 2 && s.inbound[i].nextMessageType == PUBREL {
      var p := PublishOf(s.inbound[i], false);
      ProcessKeepsValid(s, p);
      DropInboundKeepsValid(ProcessPublication(s, p).0, id);
    }
  }

  /** Whatever packet arrives, the session stays valid and its store stays its mirror. */
  lemma HandleKeepsValid(s: Session, p: Packet)
    requires Valid(s)
    ensures Valid(Handle(s, p).session)
  {
    match p
    case Publish(_, _, _, _, _) => HandlePublishKeepsValid(s, p);
    case Puback(id) => HandlePubackKeepsValid(s, id);
    case Pubrec(_, id) => HandlePubrecKeepsValid(s, id);
    case Pubrel(dup, id) => HandlePubrelKeepsValid(s, dup, id);
    case Pubcomp(_, id) => HandlePubcompKeepsValid(s, id);
  }

  // ---------- restart ----------

  lemma MemberById(ms: seq<Message>, m: Message)
    requires DistinctIds(ms)
    ensures m in ms <==> Listed(ById(ms), m)
  {
    if m in ms {
      var i :| 0 <= i < |ms| && ms[i] == m;
      ByIdAt(ms, i);
    }
  }

  lemma SameEntries(xs: seq<Message>, ys: seq<Message>)
    requires DistinctIds(xs) && DistinctIds(ys)
    requires forall m :: m in xs <==> Listed(ById(ys), m)
    ensures ById(xs) == ById(ys)
  {
    forall id
      ensures id in ById(xs) ==> id in ById(ys) && ById(xs)[id] == ById(ys)[id]
      ensures id in ById(ys) ==> id in ById(xs)
    {
      if id in ById(ys) {
        assert Listed(ById(ys), ById(ys)[id]);
      }
    }
  }

  lemma SameMap(xs: seq<Message>, ys: seq<Message>)
    requires DistinctIds(xs) && DistinctIds(ys)
    requires forall m :: m in xs <==> Listed(ById(ys), m)
    ensures ById(xs) == ById(ys)
    ensures |xs| == |ys|
  {
    hide ById, DistinctIds, Listed;
    SameEntries(xs, ys);
    DistinctSize(xs);
    DistinctSize(ys);
  }

  lemma WrapKeepsMessages(ms: seq<Message>)
    requires Increasing(ms, BY_ID)
    ensures DistinctIds(WrapMsgID(ms))
    ensures forall m :: m in WrapMsgID(ms) <==> m in ms
  {
    if ms != [] {
      var w := WrapPoint(ms, |ms|);
      assert ms == ms[..w] + ms[w..];
      assert forall i, j :: 0 <= i < j < |ms| ==> BY_ID(ms[i]) != BY_ID(ms[j]);
      forall i, j | 0 <= i < j < |ms|
        ensures WrapMsgID(ms)[i].msgid != WrapMsgID(ms)[j].msgid
      {
        RotatedAt(ms, w, i);
        RotatedAt(ms, w, j);
      }
    }
  }

  lemma RotatedAt(ms: seq<Message>, w: nat, i: nat)
    requires w <= |ms| && i < |ms|
    ensures |Rotated(ms, w)| == |ms|
    ensures Rotated(ms, w)[i] == if i < |ms| - w then ms[w + i] else ms[i - (|ms| - w)]
  {
  }

  /** The in-flight lists come back with the same messages, whatever the order of the keys. */
  lemma RestartRestoresLists(s: Session, keys: seq<Key>)
    requires Valid(s) && Lists(keys, s.store)
    ensures var t := Restart(s, keys);
            && t.store == s.store
            && DistinctIds(t.outbound) && DistinctIds(t.inbound)
            && ById(t.outbound) == ById(s.outbound) && |t.outbound| == |s.outbound|
            && ById(t.inbound) == ById(s.inbound)
  {
    var t := Restart(s, keys);
    var r := RestoreKeys(s.store, keys);
    RestoresOutbound(s.store, keys, ById(s.outbound));
    forall ks | ks <= keys
      ensures RestoreKeys(s.store, ks).store == s.store
    {
      RestoresOutbound(s.store, ks, ById(s.outbound));
    }
    RestoresInbound(s.store, keys, ById(s.inbound));
    WrapKeepsMessages(r.outbound);
    SameMap(t.outbound, s.outbound);
    SameMap(t.inbound, s.inbound);
  }

  /** The message queue comes back in its order, and its sequence number is the largest one in it. */
  lemma RestartRestoresQueue(s: Session, keys: seq<Key>)
    requires Valid(s) && Lists(keys, s.store)
    ensures Restart(s, keys).queue == s.queue
    ensures Restart(s, keys).qentrySeqno == MaxSeqno(s.queue)
  {
    RestoresQueue(s.store, keys, s.queue);
    var q := RestoreQueueKeys(s.store, keys);
    IncreasingIsUnique(q, s.queue, BY_SEQNO);
  }

  /** A restart from the store gives back the session the store mirrors. */
  lemma RestartKeepsValid(s: Session, keys: seq<Key>)
    requires Valid(s) && Lists(keys, s.store)
    ensures Valid(Restart(s, keys))
  {
    var t := Restart(s, keys);
    RestartRestoresLists(s, keys);
    RestartRestoresQueue(s, keys);
    forall m | m in t.outbound
      ensures m in s.outbound
    {
      MemberById(t.outbound, m);
      MemberById(s.outbound, m);
    }
    forall m | m in t.inbound
      ensures m in s.inbound
    {
      MemberById(t.inbound, m);
      MemberById(s.inbound, m);
    }
  }

  /** Section 4.6 of MQTT 3.1.1, across a restart: the messages come back in the order in which they were
      sent exactly when their ids ran forward once round the cycle with no gap above the closing one. */
  lemma RestartRestoresOrder(s: Session, keys: seq<Key>)
    requires Valid(s) && Lists(keys, s.store) && s.outbound != []
    ensures Restart(s, keys).outbound == s.outbound <==> exists d :: KeepsOrder(s.outbound, d)
  {
    RestoresOutbound(s.store, keys, ById(s.outbound));
    var sorted := RestoreKeys(s.store, keys).outbound;
    forall m
      ensures m in sorted <==> m in s.outbound
    {
      MemberById(s.outbound, m);
    }
    SendOrderRestored(s.outbound, sorted);
  }
}
