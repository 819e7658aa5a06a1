/** QoS 0 and QoS 1 over runs: sections 4.3.1 and 4.3.2 of MQTT 3.1.1. */
module LowDelivery {
  // A QoS 0 message arrives at most once, and the messages arrive in the order in which they were published. A QoS 1
  // message arrives at least once before its sender lets go of it, as long as nothing of an earlier exchange is under
  // way when its id is given out again.

  import opened Messages
  import opened MessageIds
  import opened Restore
  import opened Sessions
  import opened SessionProofs
  import opened Delivery
  import opened LowQos
  import opened LinkSteps
  import opened Completion
  import L = Link

  // ---------- what a session does with a packet ----------

  lemma EntryTaken(ms: seq<Message>, i: nat, p: Packet)
    requires DistinctIds(ms) && i < |ms|
    requires if p.Puback? then p.msgId == ms[i].msgid else ms[i].qos == 2
    ensures AnswerTaken(ById(ms), ById(Removed(ms, ms[i].msgid)), p)
  {
    hide ById, Removed;
    ByIdAt(ms, i);
    RemovedById(ms, ms[i].msgid);
  }

  lemma EntryMoved(ms: seq<Message>, i: nat, p: Packet)
    requires DistinctIds(ms) && i < |ms| && ms[i].qos == 2 && !p.Puback?
    ensures AnswerTaken(ById(ms), ById(Replaced(ms, ms[i].(nextMessageType := PUBCOMP))), p)
  {
    hide ById, Replaced;
    ByIdAt(ms, i);
    assert ms[i] in ms;
    ReplacedById(ms, ms[i].(nextMessageType := PUBCOMP));
  }

  lemma SenderAnswered(s: Session, p: Packet)
    requires DistinctIds(s.outbound)
    ensures AnswerTaken(ById(s.outbound), ById(Handle(s, p).session.outbound), p)
  {
    hide ById, Removed, Replaced, PutRel, RemoveSent, Ids, DistinctIds, AnswerTaken;
    var i := IndexOf(s.outbound, p.msgId);
    if p.Puback? && i < |s.outbound| && s.outbound[i].qos == 1 {
      EntryTaken(s.outbound, i, p);
    } else if p.Pubrec? && i < |s.outbound| && s.outbound[i].qos == 2 && s.outbound[i].nextMessageType == PUBREC {
      EntryMoved(s.outbound, i, p);
    } else if p.Pubcomp? && i < |s.outbound| && s.outbound[i].qos == 2 && s.outbound[i].nextMessageType == PUBCOMP {
      EntryTaken(s.outbound, i, p);
    } else {
      NothingTaken(s.outbound, p);
    }
  }

  lemma NothingTaken(ms: seq<Message>, p: Packet)
    requires DistinctIds(ms)
    requires p.Puback? ==> var i := IndexOf(ms, p.msgId); i < |ms| ==> ms[i].qos != 1
    ensures AnswerTaken(ById(ms), ById(ms), p)
  {
    if p.Puback? && IndexOf(ms, p.msgId) < |ms| {
      ByIdAt(ms, IndexOf(ms, p.msgId));
    }
  }

  /** A PUBLISH of QoS 0 or 1 arrives as one entry that says what it says; it is answered for QoS 1 only, and nothing
      else is answered with PUBACK or arrives with a QoS below 2. */
  lemma WhatArrives(s: Session, p: Packet)
    ensures var f := Handle(s, p);
            && NoPublish(f.sent) && |f.arrived| <= 1
            && (if p.Publish? && p.qos < 2 then
                  && f.sent == (if p.qos == 1 then [Puback(p.msgId)] else [])
                  && f.arrived == [QEntry(p.pub, p.qos, p.retain, p.dup, p.msgId, s.qentrySeqno + 1)]
                else
                  NoPuback(f.sent) && forall k :: 0 <= k < |f.arrived| ==> p.Pubrel? && f.arrived[k].qos == 2)
  {
    hide Removed, Replaced, PutRel, RemoveSent, Ids;
  }

  // ---------- the invariants of both directions ----------

  ghost predicate PairSound(e: Endpoint, o: Endpoint, from: seq<Packet>, to: seq<Packet>) {
    Sound(View(e, o, from, to)) && Sound(View(o, e, to, from))
  }

  ghost predicate PairInv1(e: Endpoint, o: Endpoint, from: seq<Packet>, to: seq<Packet>) {
    Inv1(View(e, o, from, to)) && Inv1(View(o, e, to, from))
  }

  ghost predicate Sound0(w: World) {
    PairSound(w.here, w.there, w.fromHere, w.fromThere)
  }

  ghost predicate InvQos1(w: World) {
    PairInv1(w.here, w.there, w.fromHere, w.fromThere)
  }

  function Pushed(ps: seq<Packet>, sent: bool): seq<Packet> {
    if sent then ps else []
  }

  lemma PushIs(c: seq<Packet>, ps: seq<Packet>, sent: bool)
    ensures Push(c, ps, sent) == c + Pushed(ps, sent) && c[0..] == c && c + [] == c
  {
  }

  lemma ReceiveSound(e: Endpoint, o: Endpoint, from: seq<Packet>, to: seq<Packet>, sent: bool)
    requires PairSound(e, o, from, to) && to != []
    ensures PairSound(Received(e, to[0]), o, Push(from, Reply(e, to[0]), sent), to[1..])
  {
    hide Handle, Sound, ById;
    var p := to[0];
    WhatArrives(e.session, p);
    PushIs(from, Reply(e, p), sent);
    PushIs(to[1..], [], sent);
    var e', from' := Received(e, p), Push(from, Reply(e, p), sent);
    SoundPlain(View(e, o, from, to), View(e', o, from', to[1..]), 0, Pushed(Reply(e, p), sent));
    var arrived := Handle(e.session, p).arrived;
    if arrived == [] {
      SoundPlain(View(o, e, to, from), View(o, e', to[1..], from'), 1, []);
    } else {
      assert arrived == [arrived[0]];
      SoundArrived(View(o, e, to, from), View(o, e', to[1..], from'), arrived[0]);
    }
  }

  lemma ReceiveKeeps1(e: Endpoint, o: Endpoint, from: seq<Packet>, to: seq<Packet>, sent: bool)
    requires PairInv(e, o, from, to) && PairInv1(e, o, from, to) && to != []
    ensures PairInv1(Received(e, to[0]), o, Push(from, Reply(e, to[0]), sent), to[1..])
  {
    hide Handle, Inv1, ById, L.Inv, Valid, AnswerTaken;
    var p := to[0];
    ReceiveFacts(e, o, from, to);
    WhatArrives(e.session, p);
    SenderAnswered(e.session, p);
    PushIs(from, Reply(e, p), sent);
    PushIs(to[1..], [], sent);
    var e', from', ps := Received(e, p), Push(from, Reply(e, p), sent), Pushed(Reply(e, p), sent);
    AnsweredKeeps1(View(e, o, from, to), View(e', o, from', to[1..]), p, ps);
    var arrived := Handle(e.session, p).arrived;
    if arrived == [] {
      PlainKeeps1(View(o, e, to, from), View(o, e', to[1..], from'), 1, 0, [], ps);
    } else {
      assert arrived == [arrived[0]];
      ArrivedKeeps1(View(o, e, to, from), View(o, e', to[1..], from'), arrived[0], ps);
    }
  }

  lemma ReceiveFacts(e: Endpoint, o: Endpoint, from: seq<Packet>, to: seq<Packet>)
    requires PairInv(e, o, from, to)
    ensures ValidLists(e.session) && L.OutLogged(View(e, o, from, to)) && DistinctIds(e.session.outbound)
  {
  }

  // ---------- publishing ----------

  /** The id that the next message gets. */
  function NextGiven(s: Session): nat {
    AssignedId(Ids(s.outbound), s.msgID)
  }

  /** What a publish sends and keeps; nothing if there is no id for the message. */
  lemma PublishIs(e: Endpoint, qos: nat, retain: bool, topic: seq<Byte>, payload: seq<Byte>) returns (m: Message)
    requires ValidLists(e.session)
    ensures var (e', ps) := Publishes(e, qos, retain, topic, payload);
            && m.qos == qos && m.retain == retain && m.pub == Publication(topic, payload, |e.log|)
            && e'.arrived == e.arrived && ById(e'.session.inbound) == ById(e.session.inbound)
            && (if qos != 0 && NextGiven(e.session) == 0 then ps == [] && e' == e
                else
                  && m.msgid == (if qos == 0 then 0 else NextGiven(e.session))
                  && ps == [Publish(false, qos, retain, m.msgid, m.pub)]
                  && e'.log == e.log + [L.LogEntry(qos, retain, m.pub)])
            && (qos == 0 ==> e'.session == e.session)
            && (qos != 0 && ps != [] ==> m.msgid !in ById(e.session.outbound)
                                         && ById(e'.session.outbound) == ById(e.session.outbound)[m.msgid := m])
  {
    hide ById, PutSent;
    var pub := Publication(topic, payload, |e.log|);
    var id := NextGiven(e.session);
    if qos == 0 {
      m := Message(0, 0, retain, pub, Unset);
    } else {
      AssignedIdIsFree(Ids(e.session.outbound), e.session.msgID);
      m := Message(id, qos, retain, pub, if qos == 2 then PUBREC else Unset);
      if id != 0 {
        Messages.Appended(e.session.outbound, m);
      }
    }
  }

  lemma PublishSound(e: Endpoint, o: Endpoint, from: seq<Packet>, to: seq<Packet>,
                     qos: nat, retain: bool, topic: seq<Byte>, payload: seq<Byte>, sent: bool)
    requires ValidLists(e.session) && PairSound(e, o, from, to)
    ensures var (e', ps) := Publishes(e, qos, retain, topic, payload);
            PairSound(e', o, Push(from, ps, sent), to)
  {
    hide Sound, ById, Publishes, ValidLists;
    var m := PublishIs(e, qos, retain, topic, payload);
    var (e', ps) := Publishes(e, qos, retain, topic, payload);
    PushIs(from, ps, sent);
    PushIs(to, [], sent);
    if ps != [] {
      SoundPublished(View(e, o, from, to), View(e', o, Push(from, ps, sent), to), ps[0], sent);
      SoundPlain(View(o, e, to, from), View(o, e', to, Push(from, ps, sent)), 0, []);
    }
  }

  /** The id of a new QoS 1 message is one of which nothing is under way. */
  ghost predicate Fresh(e: Endpoint, o: Endpoint, from: seq<Packet>, to: seq<Packet>) {
    NextGiven(e.session) != 0 ==> Clear(View(e, o, from, to), NextGiven(e.session))
  }

  lemma PublishKeeps1(e: Endpoint, o: Endpoint, from: seq<Packet>, to: seq<Packet>,
                      qos: nat, retain: bool, topic: seq<Byte>, payload: seq<Byte>, sent: bool)
    requires ValidLists(e.session) && PairInv1(e, o, from, to) && (qos == 1 ==> Fresh(e, o, from, to))
    ensures var (e', ps) := Publishes(e, qos, retain, topic, payload);
            PairInv1(e', o, Push(from, ps, sent), to)
  {
    hide Inv1, ById, Publishes, ValidLists, Clear;
    var m := PublishIs(e, qos, retain, topic, payload);
    var (e', ps) := Publishes(e, qos, retain, topic, payload);
    PushIs(from, ps, sent);
    PushIs(to, [], sent);
    if ps != [] {
      if qos == 0 {
        Published0Keeps1(View(e, o, from, to), View(e', o, Push(from, ps, sent), to), ps[0], sent);
      } else {
        PublishedKeeps1(View(e, o, from, to), View(e', o, Push(from, ps, sent), to), m, ps[0], sent);
      }
      PlainKeeps1(View(o, e, to, from), View(o, e', to, Push(from, ps, sent)), 0, 0, [], Pushed(ps, sent));
    }
  }

  // ---------- retries ----------

  lemma RetryIs(e: Endpoint, i: nat)
    requires ValidLists(e.session) && i < |e.session.outbound|
    ensures var s, m := e.session, e.session.outbound[i];
            var f := RetryOne(s, m);
            && f.session.outbound == s.outbound && f.session.inbound == s.inbound
            && m.msgid in ById(s.outbound) && ById(s.outbound)[m.msgid] == m && m.qos in {1, 2}
            && (f.sent == [Publish(true, m.qos, m.retain, m.msgid, m.pub)]
                || (NoPublish(f.sent) && NoPuback(f.sent)))
  {
    hide RetryOne, ById;
    ByIdAt(e.session.outbound, i);
    assert e.session.outbound[i] in e.session.outbound;
    RetryKeepsLists(e.session, e.session.outbound[i]);
    WhatIsRetried(e.session, e.session.outbound[i]);
  }

  lemma WhatIsRetried(s: Session, m: Message)
    ensures var f := RetryOne(s, m);
            f.sent == [Publish(true, m.qos, m.retain, m.msgid, m.pub)] || (NoPublish(f.sent) && NoPuback(f.sent))
  {
  }

  lemma RetrySound(e: Endpoint, o: Endpoint, from: seq<Packet>, to: seq<Packet>, i: nat, sent: bool)
    requires PairInv(e, o, from, to) && PairSound(e, o, from, to) && i < |e.session.outbound|
    ensures var f := RetryOne(e.session, e.session.outbound[i]);
            PairSound(e.(session := f.session), o, Push(from, f.sent, sent), to)
  {
    hide Sound, RetryOne, ById, ValidLists, Valid, L.Inv;
    ReceiveFacts(e, o, from, to);
    RetryIs(e, i);
    var f, m := RetryOne(e.session, e.session.outbound[i]), e.session.outbound[i];
    var e', from' := e.(session := f.session), Push(from, f.sent, sent);
    PushIs(from, f.sent, sent);
    PushIs(to, [], sent);
    if NoPublish(f.sent) {
      SoundPlain(View(e, o, from, to), View(e', o, from', to), 0, Pushed(f.sent, sent));
    } else {
      SoundAgain(View(e, o, from, to), View(e', o, from', to), f.sent[0], sent);
    }
    SoundPlain(View(o, e, to, from), View(o, e', to, from'), 0, []);
  }

  lemma RetryKeeps1(e: Endpoint, o: Endpoint, from: seq<Packet>, to: seq<Packet>, i: nat, sent: bool)
    requires ValidLists(e.session) && PairInv1(e, o, from, to) && i < |e.session.outbound|
    ensures var f := RetryOne(e.session, e.session.outbound[i]);
            PairInv1(e.(session := f.session), o, Push(from, f.sent, sent), to)
  {
    hide Inv1, RetryOne, ById, ValidLists;
    RetryIs(e, i);
    var f, m := RetryOne(e.session, e.session.outbound[i]), e.session.outbound[i];
    var e', from' := e.(session := f.session), Push(from, f.sent, sent);
    PushIs(from, f.sent, sent);
    PushIs(to, [], sent);
    if NoPublish(f.sent) {
      PlainKeeps1(View(e, o, from, to), View(e', o, from', to), 0, 0, Pushed(f.sent, sent), []);
    } else {
      AgainKeeps1(View(e, o, from, to), View(e', o, from', to), m, f.sent[0], sent);
    }
    PlainKeeps1(View(o, e, to, from), View(o, e', to, from'), 0, 0, [], Pushed(f.sent, sent));
  }

  // ---------- every step ----------

  /** Losing what is under way, with lists, as maps, and logs as they were. */
  lemma QuietSound(e: Endpoint, e': Endpoint, o: Endpoint, from: seq<Packet>, to: seq<Packet>, lost: bool)
    requires PairSound(e, o, from, to) && e'.log == e.log && e'.arrived == e.arrived
    ensures PairSound(e', o, if lost then [] else from, if lost then [] else to)
  {
    hide Sound;
    var from', to' := if lost then [] else from, if lost then [] else to;
    PushIs(from, [], lost);
    PushIs(to, [], lost);
    SoundPlain(View(e, o, from, to), View(e', o, from', to'), if lost then |from| else 0, []);
    SoundPlain(View(o, e, to, from), View(o, e', to', from'), if lost then |to| else 0, []);
  }

  lemma QuietKeeps1(e: Endpoint, e': Endpoint, o: Endpoint, from: seq<Packet>, to: seq<Packet>, lost: bool)
    requires PairInv1(e, o, from, to) && e'.log == e.log && e'.arrived == e.arrived
    requires ById(e'.session.outbound) == ById(e.session.outbound)
    ensures PairInv1(e', o, if lost then [] else from, if lost then [] else to)
  {
    hide Inv1, ById;
    var from', to' := if lost then [] else from, if lost then [] else to;
    PushIs(from, [], lost);
    PushIs(to, [], lost);
    var i, j := if lost then |from| else 0, if lost then |to| else 0;
    PlainKeeps1(View(e, o, from, to), View(e', o, from', to'), i, j, [], []);
    PlainKeeps1(View(o, e, to, from), View(o, e', to', from'), j, i, [], []);
  }

  lemma ActSound(h: Half, o: Endpoint, a: Action)
    requires PairInv(h.end, o, h.from, h.to) && PairSound(h.end, o, h.from, h.to)
    ensures PairSound(Act(h, a).end, o, Act(h, a).from, Act(h, a).to)
  {
    hide PairInv, PairSound, Lists, RetryOne, Restart, Publishes, Received, Reply, Deliver, TakeId, Push, CanPublish,
         Sendable;
    var e, from, to := h.end, h.from, h.to;
    ReceiveFacts(e, o, from, to);
    match a
    case DoPublish(_, qos, retain, topic, payload, sent) =>
      PublishSound(e, o, from, to, qos, retain, topic, payload, sent);
    case DoSubscribe(_) =>
      QuietSound(e, e.(session := TakeId(e.session)), o, from, to, false);
    case DoRetry(_, i, sent) =>
      if i < |e.session.outbound| {
        RetrySound(e, o, from, to, i, sent);
      }
    case DoReceive(_, sent) =>
      if to != [] {
        ReceiveSound(e, o, from, to, sent);
      }
    case DoTake(_) =>
      QuietSound(e, Act(h, a).end, o, from, to, false);
    case DoRestart(_, keys) =>
      QuietSound(e, Act(h, a).end, o, from, to, Lists(keys, e.session.store));
    case DoDisconnect =>
  }

  lemma ActKeeps1(h: Half, o: Endpoint, a: Action)
    requires PairInv(h.end, o, h.from, h.to) && PairInv1(h.end, o, h.from, h.to)
    requires a.DoPublish? && a.qos == 1 && CanPublish(h.end.session) && Sendable(a.topic, a.payload) ==>
               Fresh(h.end, o, h.from, h.to)
    ensures PairInv1(Act(h, a).end, o, Act(h, a).from, Act(h, a).to)
  {
    hide PairInv, PairInv1, Lists, RetryOne, Restart, Publishes, Received, Reply, Deliver, TakeId, Push, CanPublish,
         Sendable, Fresh, ValidLists;
    var e, from, to := h.end, h.from, h.to;
    ReceiveFacts(e, o, from, to);
    match a
    case DoPublish(_, qos, retain, topic, payload, sent) =>
      if qos <= 2 && CanPublish(e.session) && Sendable(topic, payload) {
        PublishKeeps1(e, o, from, to, qos, retain, topic, payload, sent);
      }
    case DoSubscribe(_) =>
      TakeIdKeepsLists(e.session);
      QuietKeeps1(e, e.(session := TakeId(e.session)), o, from, to, false);
    case DoRetry(_, i, sent) =>
      if i < |e.session.outbound| {
        RetryKeeps1(e, o, from, to, i, sent);
      }
    case DoReceive(_, sent) =>
      if to != [] {
        ReceiveKeeps1(e, o, from, to, sent);
      }
    case DoTake(_) =>
      if e.session.queue != [] {
        DeliverKeepsLists(e.session);
        QuietKeeps1(e, Act(h, a).end, o, from, to, false);
      }
    case DoRestart(_, keys) =>
      if Lists(keys, e.session.store) {
        PairFacts(e, o, from, to);
        RestartRestoresLists(e.session, keys);
        QuietKeeps1(e, Act(h, a).end, o, from, to, true);
      }
    case DoDisconnect =>
  }

  // ---------- every run, QoS 0 ----------

  lemma StepSound(w: World, a: Action)
    requires Inv(w) && Sound0(w)
    ensures Sound0(Step(w, a))
  {
    hide Act, Valid, L.Inv, Sound;
    if a == DoDisconnect {
      QuietSound(w.here, w.here, w.there, w.fromHere, w.fromThere, true);
    } else {
      var s := a.side;
      ActSound(Half(End(w, s), Chan(w, s), Chan(w, Other(s))), End(w, Other(s)), a);
    }
  }

  lemma {:induction false} RunSound(w: World, actions: seq<Action>)
    requires Inv(w) && Sound0(w)
    ensures Sound0(Run(w, actions))
    decreases |actions|
  {
    hide Step, Inv, Sound0;
    if actions != [] {
      var n := |actions| - 1;
      RunSound(w, actions[..n]);
      RunKeepsInv(w, actions[..n]);
      StepSound(Run(w, actions[..n]), actions[n]);
    }
  }

  lemma StartSound(limitHere: nat, limitThere: nat)
    ensures Inv(Start(limitHere, limitThere)) && Sound0(Start(limitHere, limitThere))
    ensures InvQos1(Start(limitHere, limitThere))
  {
    StartInv(limitHere, limitThere);
  }

  /** What arrives with QoS 0 or 1 was published with this QoS, topic and payload, and the QoS 0 messages arrive at most
      once each and in the order in which they were published. */
  ghost predicate AtMostOnce(from: Endpoint, to: Endpoint) {
    && (forall j: nat :: j < |to.arrived| && to.arrived[j].qos < 2 ==>
          var e := to.arrived[j];
          e.pub.serial < |from.log| && from.log[e.pub.serial] == L.LogEntry(e.qos, e.retain, e.pub))
    && (forall j: nat, k: nat :: j < k < |to.arrived| && to.arrived[j].qos == 0 && to.arrived[k].qos == 0 ==>
          to.arrived[j].pub.serial < to.arrived[k].pub.serial)
  }

  lemma EveryRunIsAtMostOnce(limitHere: nat, limitThere: nat, actions: seq<Action>, w: World)
    requires w == Run(Start(limitHere, limitThere), actions)
    ensures forall s :: AtMostOnce(End(w, s), End(w, Other(s)))
  {
    hide Step, Run, Inv, Sound0;
    StartSound(limitHere, limitThere);
    RunSound(Start(limitHere, limitThere), actions);
    SoundIsAtMostOnce(w, Here);
    SoundIsAtMostOnce(w, There);
  }

  lemma SoundIsAtMostOnce(w: World, s: Side)
    requires Sound0(w)
    ensures AtMostOnce(End(w, s), End(w, Other(s)))
  {
  }

  // ---------- every run, QoS 1 ----------

  /** A QoS 1 message that can be published now gets an id of which nothing is under way. */
  ghost predicate FreshAction(w: World, a: Action) {
    a.DoPublish? && a.qos == 1 && CanPublish(End(w, a.side).session) && Sendable(a.topic, a.payload) ==>
      Fresh(End(w, a.side), End(w, Other(a.side)), Chan(w, a.side), Chan(w, Other(a.side)))
  }

  ghost predicate FreshRun(w: World, actions: seq<Action>) {
    forall i :: 0 <= i < |actions| ==> FreshAction(Run(w, actions[..i]), actions[i])
  }

  lemma StepKeeps1(w: World, a: Action)
    requires Inv(w) && InvQos1(w) && FreshAction(w, a)
    ensures InvQos1(Step(w, a))
  {
    hide Act, Valid, L.Inv, Inv1, Fresh;
    if a == DoDisconnect {
      QuietKeeps1(w.here, w.here, w.there, w.fromHere, w.fromThere, true);
    } else {
      var s := a.side;
      ActKeeps1(Half(End(w, s), Chan(w, s), Chan(w, Other(s))), End(w, Other(s)), a);
    }
  }

  lemma {:induction false} RunKeeps1(w: World, actions: seq<Action>)
    requires Inv(w) && InvQos1(w) && FreshRun(w, actions)
    ensures InvQos1(Run(w, actions))
    decreases |actions|
  {
    hide Step, Inv, InvQos1, FreshAction;
    if actions != [] {
      var n := |actions| - 1;
      assert forall i :: 0 <= i < n ==> actions[..n][..i] == actions[..i] && actions[..n][i] == actions[i];
      RunKeeps1(w, actions[..n]);
      RunKeepsInv(w, actions[..n]);
      StepKeeps1(Run(w, actions[..n]), actions[n]);
    }
  }

  /** Every QoS 1 message that its publisher has let go of has arrived, with this topic and payload. */
  ghost predicate AtLeastOnce(from: Endpoint, to: Endpoint) {
    forall n: nat :: n < |from.log| && from.log[n].qos == 1 && !Holds(from, n) ==>
      exists j :: 0 <= j < |to.arrived| && to.arrived[j].qos == 1 && to.arrived[j].retain == from.log[n].retain
                  && to.arrived[j].pub == from.log[n].pub
  }

  lemma LinkIsAtLeastOnce(from: Endpoint, to: Endpoint, fwd: seq<Packet>, back: seq<Packet>)
    requires AllLogged(View(from, to, fwd, back)) && NoneLost1(View(from, to, fwd, back))
    ensures AtLeastOnce(from, to)
  {
    var l := View(from, to, fwd, back);
    forall n: nat | n < |from.log| && from.log[n].qos == 1 && !Holds(from, n)
      ensures exists j :: 0 <= j < |to.arrived| && to.arrived[j].qos == 1 && to.arrived[j].retain == from.log[n].retain
                          && to.arrived[j].pub == from.log[n].pub
    {
      assert !L.InFlight(l, n);
      var j :| 0 <= j < |l.arrived| && l.arrived[j].qos == 1 && l.arrived[j].pub.serial == n;
      assert L.Logged(l.log, 1, l.arrived[j].retain, l.arrived[j].pub);
    }
  }

  lemma WorldIsAtLeastOnce(w: World, s: Side)
    requires Sound0(w) && InvQos1(w)
    ensures AtLeastOnce(End(w, s), End(w, Other(s)))
  {
    LinkIsAtLeastOnce(End(w, s), End(w, Other(s)), Chan(w, s), Chan(w, Other(s)));
  }

  /** Section 4.3.2 of MQTT 3.1.1, for every run in which QoS 1 messages get ids of which nothing is under way. */
  lemma EveryFreshRunIsAtLeastOnce(limitHere: nat, limitThere: nat, actions: seq<Action>, w: World)
    requires w == Run(Start(limitHere, limitThere), actions) && FreshRun(Start(limitHere, limitThere), actions)
    ensures forall s :: AtLeastOnce(End(w, s), End(w, Other(s)))
  {
    hide Step, Run, Inv, FreshRun, Sound0, InvQos1, AtLeastOnce;
    StartSound(limitHere, limitThere);
    RunSound(Start(limitHere, limitThere), actions);
    RunKeeps1(Start(limitHere, limitThere), actions);
    WorldIsAtLeastOnce(w, Here);
    WorldIsAtLeastOnce(w, There);
  }

  // ---------- runs without losses ----------

  /** A step that loses nothing of what `s` sends with QoS 0. */
  predicate Lossless(a: Action, s: Side) {
    && a != DoDisconnect && !a.DoRestart?
    && (a.DoPublish? && a.side == s && a.qos == 0 ==> a.sent)
  }

  lemma SenderLosesNone(h: Half, o: Endpoint, a: Action)
    requires PairInv(h.end, o, h.from, h.to) && NoneLost0(View(h.end, o, h.from, h.to))
    requires a != DoDisconnect && !a.DoRestart? && (a.DoPublish? && a.qos == 0 ==> a.sent)
    ensures NoneLost0(View(Act(h, a).end, o, Act(h, a).from, Act(h, a).to))
  {
    hide PairInv, NoneLost0, RetryOne, Publishes, Handle, Deliver, TakeId, ById, ValidLists;
    var e, l := h.end, View(h.end, o, h.from, h.to);
    var r := View(Act(h, a).end, o, Act(h, a).from, Act(h, a).to);
    ReceiveFacts(e, o, h.from, h.to);
    PushIs(h.from, [], true);
    match a
    case DoPublish(_, qos, retain, topic, payload, sent) =>
      if qos <= 2 && CanPublish(e.session) && Sendable(topic, payload) {
        var m := PublishIs(e, qos, retain, topic, payload);
        var ps := Publishes(e, qos, retain, topic, payload).1;
        if ps != [] {
          PublishedAndSent(l, r, ps[0], sent);
        } else {
          PushIs(h.from, [], sent);
          MoreSent(l, r, []);
        }
      } else {
        MoreSent(l, r, []);
      }
    case DoRetry(_, i, sent) =>
      if i < |e.session.outbound| {
        var ps := RetryOne(e.session, e.session.outbound[i]).sent;
        PushIs(h.from, ps, sent);
        MoreSent(l, r, Pushed(ps, sent));
      } else {
        MoreSent(l, r, []);
      }
    case DoReceive(_, sent) =>
      if h.to != [] {
        PushIs(h.from, Reply(e, h.to[0]), sent);
        MoreSent(l, r, Pushed(Reply(e, h.to[0]), sent));
      } else {
        MoreSent(l, r, []);
      }
    case _ =>
      MoreSent(l, r, []);
  }

  /** What the peer does cannot lose anything either. */
  lemma PeerLosesNone(h: Half, e: Endpoint, a: Action)
    requires NoneLost0(View(e, h.end, h.to, h.from)) && a != DoDisconnect && !a.DoRestart?
    ensures NoneLost0(View(e, Act(h, a).end, Act(h, a).to, Act(h, a).from))
  {
    hide NoneLost0, RetryOne, StartPublish, Handle, Deliver, TakeId, ById, CanPublish, Sendable;
    var l, r := View(e, h.end, h.to, h.from), View(e, Act(h, a).end, Act(h, a).to, Act(h, a).from);
    PushIs(h.to, [], true);
    if a.DoReceive? && h.to != [] {
      WhatArrives(h.end.session, h.to[0]);
      TakenIn(l, r, Handle(h.end.session, h.to[0]).arrived);
    } else {
      MoreSent(l, r, []);
    }
  }

  lemma StepLosesNone(w: World, a: Action, s: Side)
    requires Inv(w) && NoneLost0(LinkFrom(w, s)) && Lossless(a, s)
    ensures NoneLost0(LinkFrom(Step(w, a), s))
  {
    hide Act, Valid, L.Inv, NoneLost0, ById;
    var h := Half(End(w, a.side), Chan(w, a.side), Chan(w, Other(a.side)));
    if a.side == s {
      SenderLosesNone(h, End(w, Other(s)), a);
    } else {
      PeerLosesNone(h, End(w, s), a);
    }
  }

  lemma {:induction false} RunLosesNone(w: World, actions: seq<Action>, s: Side)
    requires Inv(w) && NoneLost0(LinkFrom(w, s)) && forall a :: a in actions ==> Lossless(a, s)
    ensures NoneLost0(LinkFrom(Run(w, actions), s))
    decreases |actions|
  {
    hide Step, Inv, NoneLost0;
    if actions != [] {
      var n := |actions| - 1;
      RunLosesNone(w, actions[..n], s);
      RunKeepsInv(w, actions[..n]);
      StepLosesNone(Run(w, actions[..n]), actions[n], s);
    }
  }

  /** If nothing is lost, every QoS 0 message arrives: what has not arrived yet is still under way. */
  lemma EveryLosslessRunArrives(limitHere: nat, limitThere: nat, actions: seq<Action>, w: World, s: Side)
    requires w == Run(Start(limitHere, limitThere), actions) && forall a :: a in actions ==> Lossless(a, s)
    ensures var from, to, c := End(w, s), End(w, Other(s)), Chan(w, s);
            forall n: nat :: n < |from.log| && from.log[n].qos == 0 ==>
              || (exists j :: 0 <= j < |to.arrived| && to.arrived[j].qos == 0 && to.arrived[j].pub.serial == n)
              || (exists k :: 0 <= k < |c| && IsPub0(c[k]) && c[k].pub.serial == n)
  {
    hide Step, Run, Inv, NoneLost0, Lossless;
    StartInv(limitHere, limitThere);
    NothingToLose(limitHere, limitThere, s);
    RunLosesNone(Start(limitHere, limitThere), actions, s);
    NoneIsLost(End(w, s), End(w, Other(s)), Chan(w, s), Chan(w, Other(s)));
  }

  lemma NothingToLose(limitHere: nat, limitThere: nat, s: Side)
    ensures NoneLost0(LinkFrom(Start(limitHere, limitThere), s))
  {
  }

  lemma NoneIsLost(from: Endpoint, to: Endpoint, c: seq<Packet>, back: seq<Packet>)
    requires NoneLost0(View(from, to, c, back))
    ensures forall n: nat :: n < |from.log| && from.log[n].qos == 0 ==>
              || (exists j :: 0 <= j < |to.arrived| && to.arrived[j].qos == 0 && to.arrived[j].pub.serial == n)
              || (exists k :: 0 <= k < |c| && IsPub0(c[k]) && c[k].pub.serial == n)
  {
    forall n: nat | n < |from.log| && from.log[n].qos == 0 && !UnderWay(c, n)
      ensures Arrived(to.arrived, 0, n)
    {
    }
  }

  // ---------- one publish ----------

  /** A publish that there is room and an id for is logged, and its packet is the last one under way: without the DUP
      flag, with the id that is given out for QoS 1 and 2 and none for QoS 0. */
  lemma PublishIsSent(w: World, s: Side, qos: nat, retain: bool, topic: seq<Byte>, payload: seq<Byte>)
    requires Inv(w) && qos <= 2 && CanPublish(End(w, s).session) && Sendable(topic, payload)
    requires qos == 0 || NextGiven(End(w, s).session) != 0
    ensures var v := Step(w, DoPublish(s, qos, retain, topic, payload, true));
            var pub := Publication(topic, payload, |End(w, s).log|);
            var id := if qos == 0 then 0 else NextGiven(End(w, s).session);
            && End(v, s).log == End(w, s).log + [L.LogEntry(qos, retain, pub)]
            && Chan(v, s) == Chan(w, s) + [Publish(false, qos, retain, id, pub)]
            && Chan(v, Other(s)) == Chan(w, Other(s)) && End(v, Other(s)) == End(w, Other(s))
            && (qos == 0 ==> End(v, s).session == End(w, s).session)
  {
    hide Inv, Publishes, ValidLists, L.Inv, ById, Sendable, CanPublish;
    WorldFacts(w, s);
    var m := PublishIs(End(w, s), qos, retain, topic, payload);
  }

  /** A PUBLISH of QoS 0 or 1 that comes next is put on the queue once, with its own fields and under a sequence number
      above all others, and it is acknowledged for QoS 1 only. */
  lemma PublishIsReceived(w: World, s: Side, sent: bool)
    requires Inv(w) && Chan(w, Other(s)) != [] && Chan(w, Other(s))[0].Publish? && Chan(w, Other(s))[0].qos < 2
    ensures var v, p := Step(w, DoReceive(s, sent)), Chan(w, Other(s))[0];
            var e := QEntry(p.pub, p.qos, p.retain, p.dup, p.msgId, End(v, s).session.qentrySeqno);
            && End(v, s).arrived == End(w, s).arrived + [e]
            && End(v, s).session.queue == End(w, s).session.queue + [e]
            && (forall x :: x in End(w, s).session.queue ==> x.seqno < e.seqno)
            && QueueKey(e.seqno) in End(v, s).session.store
            && End(v, s).session.store[QueueKey(e.seqno)] == QueueRecord(e)
            && Chan(v, s) == Chan(w, s) + (if sent && p.qos == 1 then [Puback(p.msgId)] else [])
            && Chan(v, Other(s)) == Chan(w, Other(s))[1..] && End(v, Other(s)) == End(w, Other(s))
  {
    hide Handle, Inv;
    var t, p := End(w, s).session, Chan(w, Other(s))[0];
    SessionsBelow(w, s);
    WhatArrives(t, p);
    WhatIsQueued(t, p);
    PushIs(Chan(w, s), Reply(End(w, s), p), sent);
  }

  lemma WhatIsQueued(s: Session, p: Packet)
    requires p.Publish? && p.qos < 2
    ensures var t := Handle(s, p).session;
            var e := QEntry(p.pub, p.qos, p.retain, p.dup, p.msgId, t.qentrySeqno);
            && t.qentrySeqno == s.qentrySeqno + 1 && t.queue == s.queue + [e]
            && t.store == s.store[QueueKey(e.seqno) := QueueRecord(e)]
  {
  }

  lemma SessionsBelow(w: World, s: Side)
    requires Inv(w)
    ensures forall x :: x in End(w, s).session.queue ==> x.seqno <= End(w, s).session.qentrySeqno
  {
    hide L.Inv;
    QueueIsBelow(w.here.session);
    QueueIsBelow(w.there.session);
  }

  /** A PUBACK is sent only for a QoS 1 message that arrives in the same step. */
  lemma PubackMeansArrival(w: World, s: Side, id: nat)
    requires Chan(w, Other(s)) != [] && Puback(id) in Reply(End(w, s), Chan(w, Other(s))[0])
    ensures var v, p, n := Step(w, DoReceive(s, true)), Chan(w, Other(s))[0], |End(w, s).arrived|;
            && IsPub1(p, id) && |End(v, s).arrived| == n + 1 && End(v, s).arrived[..n] == End(w, s).arrived
            && End(v, s).arrived[n].pub == p.pub && End(v, s).arrived[n].qos == 1 && End(v, s).arrived[n].msgid == id
            && Chan(v, s) == Chan(w, s) + [Puback(id)]
  {
    hide Handle;
    WhatArrives(End(w, s).session, Chan(w, Other(s))[0]);
  }

  /** From end to end: with nothing else under way, a QoS 0 or QoS 1 message that is published, and received next,
      arrives exactly once and as it was published. */
  lemma PublishArrives(w: World, s: Side, qos: nat, retain: bool, topic: seq<Byte>, payload: seq<Byte>, sent: bool)
    requires Inv(w) && qos < 2 && CanPublish(End(w, s).session) && Sendable(topic, payload)
    requires qos == 0 || NextGiven(End(w, s).session) != 0
    requires Chan(w, s) == []
    ensures var v := Step(Step(w, DoPublish(s, qos, retain, topic, payload, true)), DoReceive(Other(s), sent));
            var from, to, n := End(v, s), End(v, Other(s)), |End(w, Other(s)).arrived|;
            && from.log == End(w, s).log + [L.LogEntry(qos, retain, Publication(topic, payload, |End(w, s).log|))]
            && |to.arrived| == n + 1 && to.arrived[..n] == End(w, Other(s)).arrived
            && to.arrived[n].pub == from.log[|End(w, s).log|].pub && to.arrived[n].qos == qos
            && to.arrived[n].retain == retain && !to.arrived[n].dup
  {
    hide Inv, Step, Sendable, CanPublish;
    var a := DoPublish(s, qos, retain, topic, payload, true);
    PublishIsSent(w, s, qos, retain, topic, payload);
    StepKeepsInv(w, a);
    PublishIsReceived(Step(w, a), Other(s), sent);
  }
}
