/** When an exchange of QoS 2 can still be completed. */
module Completion {
  // The client sends PUBREL without the DUP flag also when it sends it again, and only logs a PUBREL without that
  // flag for an id it does not know. So once a PUBCOMP is lost, the message stays in the outbound list of its
  // sender for ever.

  import opened Messages
  import opened Sessions
  import opened Restore
  import opened SessionProofs
  import opened Delivery
  import opened MessageIds
  import L = Link

  /** The message with this id waits for PUBCOMP. */
  ghost predicate Waits(out: map<nat, Message>, id: nat) {
    id in out && out[id].qos == 2 && out[id].nextMessageType == PUBCOMP
  }

  /** It waits, but its peer does not know the id any more, and no PUBCOMP is under way. */
  ghost predicate Stuck(l: L.Link, id: nat) {
    Waits(l.out, id) && id !in l.inb && L.NoComp(l.back, id)
  }

  lemma StuckHasNoPublish(l: L.Link, id: nat)
    requires L.Inv(l) && Stuck(l, id)
    ensures L.NoPub(l.fwd, id)
  {
    assert L.Exchange(l, id);
  }

  lemma NoCompPushed(c: seq<Packet>, ps: seq<Packet>, sent: bool, id: nat)
    requires L.NoComp(c, id) && forall p :: p in ps ==> !L.IsComp(p, id)
    ensures L.NoComp(Push(c, ps, sent), id)
  {
    var d := Push(c, ps, sent);
    forall j | 0 <= j < |d|
      ensures !L.IsComp(d[j], id)
    {
      assert j >= |c| ==> d[j] in ps;
    }
  }

  // ---------- what the sender does ----------

  lemma WaitsWithout(ms: seq<Message>, x: nat, id: nat)
    requires DistinctIds(ms) && Waits(ById(ms), id) && x != id
    ensures Waits(ById(Removed(ms, x)), id)
  {
    RemovedById(ms, x);
  }

  lemma WaitsAfterHandle(s: Session, p: Packet, id: nat)
    requires ValidLists(s) && Waits(ById(s.outbound), id) && !L.IsComp(p, id)
    ensures Waits(ById(Handle(s, p).session.outbound), id)
  {
    hide ById, Removed, Replaced, Valid, PutRel, RemoveSent, PublishOf;
    match p
    case Puback(x) =>
      var i := IndexOf(s.outbound, x);
      if i < |s.outbound| && s.outbound[i].qos == 1 {
        ByIdAt(s.outbound, i);
        WaitsWithout(s.outbound, x, id);
      }
    case Pubrec(_, x) =>
      var i := IndexOf(s.outbound, x);
      if i < |s.outbound| && s.outbound[i].qos == 2 && s.outbound[i].nextMessageType == PUBREC {
        ByIdAt(s.outbound, i);
        ReplacedById(s.outbound, s.outbound[i].(nextMessageType := PUBCOMP));
      }
    case Pubcomp(_, x) =>
      if x in Ids(s.outbound) {
        WaitsWithout(s.outbound, x, id);
      }
    case Publish(_, _, _, _, _) =>
    case Pubrel(_, _) =>
  }

  lemma WaitsAfterPublish(e: Endpoint, qos: nat, retain: bool, topic: seq<Byte>, payload: seq<Byte>, id: nat)
    requires ValidLists(e.session) && qos <= 2 && Waits(ById(e.session.outbound), id)
    ensures Waits(ById(Publishes(e, qos, retain, topic, payload).0.session.outbound), id)
  {
    var pub := Publication(topic, payload, |e.log|);
    var free := AssignedId(Ids(e.session.outbound), e.session.msgID);
    if qos != 0 && free != 0 {
      AssignedIdIsFree(Ids(e.session.outbound), e.session.msgID);
      Messages.Appended(e.session.outbound, Message(free, qos, retain, pub, if qos == 2 then PUBREC else Unset));
    }
  }

  lemma PairFacts(e: Endpoint, o: Endpoint, from: seq<Packet>, to: seq<Packet>)
    requires PairInv(e, o, from, to)
    ensures Valid(e.session) && ValidLists(e.session) && L.Inv(View(e, o, from, to)) && L.Inv(View(o, e, to, from))
  {
  }

  lemma NoCompLater(c: seq<Packet>, id: nat)
    requires L.NoComp(c, id)
    ensures c != [] ==> !L.IsComp(c[0], id) && L.NoComp(c[1..], id)
    ensures L.NoComp([], id)
  {
  }

  lemma SenderActs(h: Half, o: Endpoint, a: Action, id: nat)
    requires PairInv(h.end, o, h.from, h.to) && Stuck(View(h.end, o, h.from, h.to), id)
    ensures Stuck(View(Act(h, a).end, o, Act(h, a).from, Act(h, a).to), id)
  {
    hide PairInv, L.Inv, L.NoComp, Valid, ValidLists, Handle, RetryOne, Restart, Publishes, ById, Deliver, TakeId,
         Waits;
    var e := h.end;
    PairFacts(e, o, h.from, h.to);
    NoCompLater(h.to, id);
    TakeIdKeepsLists(e.session);
    match a
    case DoPublish(_, qos, retain, topic, payload, sent) =>
      if qos <= 2 {
        WaitsAfterPublish(e, qos, retain, topic, payload, id);
      }
    case DoReceive(_, _) =>
      if h.to != [] {
        WaitsAfterHandle(e.session, h.to[0], id);
      }
    case DoRestart(_, keys) =>
      if Lists(keys, e.session.store) {
        RestartRestoresLists(e.session, keys);
      }
    case DoRetry(_, i, _) =>
      if i < |e.session.outbound| {
        RetryKeepsLists(e.session, e.session.outbound[i]);
      }
    case DoSubscribe(_) =>
    case DoTake(_) =>
      if e.session.queue != [] {
        DeliverKeepsLists(e.session);
      }
    case DoDisconnect =>
  }

  lemma RetryKeepsLists(s: Session, m: Message)
    ensures RetryOne(s, m).session.outbound == s.outbound && RetryOne(s, m).session.inbound == s.inbound
    ensures forall p, id: nat :: p in RetryOne(s, m).sent ==> !L.IsComp(p, id)
  {
  }

  // ---------- what the peer does ----------

  lemma PeerHandles(s: Session, p: Packet, id: nat)
    requires ValidLists(s) && id !in ById(s.inbound) && !L.IsPub(p, id) && (p.Pubrel? ==> !p.dup)
    ensures id !in ById(Handle(s, p).session.inbound)
    ensures forall q :: q in Handle(s, p).sent ==> !L.IsComp(q, id)
  {
    hide ById, Removed, Replaced, Valid, PutRel, RemoveSent, ProcessPublication, PublishOf;
    match p
    case Publish(_, qos, retain, x, pub) =>
      PeerHandlesPublish(s, p, id);
    case Pubrel(_, x) =>
      PeerHandlesPubrel(s, x, id);
    case Puback(_) =>
    case Pubrec(_, _) =>
    case Pubcomp(_, _) =>
  }

  lemma PeerHandlesPublish(s: Session, p: Packet, id: nat)
    requires ValidLists(s) && id !in ById(s.inbound) && p.Publish? && !L.IsPub(p, id)
    ensures id !in ById(HandlePublish(s, p).session.inbound)
    ensures forall q :: q in HandlePublish(s, p).sent ==> !L.IsComp(q, id)
  {
    hide ById, Ids, Replaced;
    if p.qos == 2 {
      StoreInbound(s.inbound, Message(p.msgId, 2, p.retain, p.pub, PUBREL));
    }
  }

  lemma PeerHandlesPubrel(s: Session, x: nat, id: nat)
    requires ValidLists(s) && id !in ById(s.inbound)
    ensures id !in ById(HandlePubrel(s, false, x).session.inbound)
    ensures forall q :: q in HandlePubrel(s, false, x).sent ==> !L.IsComp(q, id)
  {
    hide ById, Removed, PublishOf;
    if x in Ids(s.inbound) {
      RemovedById(s.inbound, x);
    }
  }

  lemma PublishSendsNoComp(e: Endpoint, qos: nat, retain: bool, topic: seq<Byte>, payload: seq<Byte>, id: nat)
    ensures Publishes(e, qos, retain, topic, payload).0.session.inbound == e.session.inbound
    ensures forall p :: p in Publishes(e, qos, retain, topic, payload).1 ==> !L.IsComp(p, id)
  {
  }

  lemma NextForPeer(l: L.Link, id: nat)
    requires L.Inv(l) && Stuck(l, id) && l.fwd != []
    ensures !L.IsPub(l.fwd[0], id) && (l.fwd[0].Pubrel? ==> !l.fwd[0].dup)
  {
    StuckHasNoPublish(l, id);
  }

  lemma PeerActs(h: Half, e: Endpoint, a: Action, id: nat)
    requires PairInv(h.end, e, h.from, h.to) && Stuck(View(e, h.end, h.to, h.from), id)
    ensures Stuck(View(e, Act(h, a).end, Act(h, a).to, Act(h, a).from), id)
  {
    hide PairInv, L.Inv, L.NoComp, Valid, ValidLists, Handle, RetryOne, Restart, Publishes, ById, Deliver, TakeId,
         Waits, Push;
    var o := h.end;
    PairFacts(o, e, h.from, h.to);
    NoCompLater(h.from, id);
    TakeIdKeepsLists(o.session);
    match a
    case DoPublish(_, qos, retain, topic, payload, sent) =>
      PublishSendsNoComp(o, qos, retain, topic, payload, id);
      NoCompPushed(h.from, Publishes(o, qos, retain, topic, payload).1, sent, id);
    case DoReceive(_, sent) =>
      if h.to != [] {
        NextForPeer(View(e, o, h.to, h.from), id);
        PeerHandles(o.session, h.to[0], id);
        NoCompPushed(h.from, Reply(o, h.to[0]), sent, id);
      }
    case DoRetry(_, i, sent) =>
      if i < |o.session.outbound| {
        RetryKeepsLists(o.session, o.session.outbound[i]);
        NoCompPushed(h.from, RetryOne(o.session, o.session.outbound[i]).sent, sent, id);
      }
    case DoRestart(_, keys) =>
      if Lists(keys, o.session.store) {
        RestartRestoresLists(o.session, keys);
      }
    case DoSubscribe(_) =>
    case DoTake(_) =>
      if o.session.queue != [] {
        DeliverKeepsLists(o.session);
      }
    case DoDisconnect =>
  }

  // ---------- for ever ----------

  function LinkFrom(w: World, s: Side): L.Link {
    View(End(w, s), End(w, Other(s)), Chan(w, s), Chan(w, Other(s)))
  }

  lemma NoneInNothing(id: nat)
    ensures L.NoComp([], id)
  {
  }

  lemma StepStaysStuck(w: World, a: Action, s: Side, id: nat)
    requires Inv(w) && Stuck(LinkFrom(w, s), id)
    ensures Stuck(LinkFrom(Step(w, a), s), id)
  {
    hide L.Inv, Act, Valid, ById, L.NoComp, Waits;
    NoneInNothing(id);
    if a != DoDisconnect {
      var h := Half(End(w, a.side), Chan(w, a.side), Chan(w, Other(a.side)));
      if a.side == s {
        SenderActs(h, End(w, Other(s)), a, id);
      } else {
        PeerActs(h, End(w, s), a, id);
      }
    }
  }

  /** A stuck message stays stuck whatever happens: no retry, reconnection or restart completes it. */
  lemma {:induction false} StuckForEver(w: World, actions: seq<Action>, s: Side, id: nat)
    requires Inv(w) && Stuck(LinkFrom(w, s), id)
    ensures Stuck(LinkFrom(Run(w, actions), s), id)
    decreases |actions|
  {
    if actions != [] {
      var n := |actions| - 1;
      StuckForEver(w, actions[..n], s, id);
      RunKeepsInv(w, actions[..n]);
      StepStaysStuck(Run(w, actions[..n]), actions[n], s, id);
    }
  }

  // ---------- and otherwise it can be completed ----------

  lemma WorldFacts(w: World, s: Side)
    requires Inv(w)
    ensures ValidLists(End(w, s).session) && ValidLists(End(w, Other(s)).session) && L.Inv(LinkFrom(w, s))
    ensures DistinctIds(End(w, s).session.outbound) && DistinctIds(End(w, Other(s)).session.inbound)
  {
    PairFacts(w.here, w.there, w.fromHere, w.fromThere);
    PairFacts(w.there, w.here, w.fromThere, w.fromHere);
  }

  lemma WaitsAt(ms: seq<Message>, id: nat)
    requires DistinctIds(ms) && Waits(ById(ms), id)
    ensures var i := IndexOf(ms, id);
            i < |ms| && ms[i].msgid == id && ms[i].qos == 2 && ms[i].nextMessageType == PUBCOMP
  {
    ByIdAt(ms, IndexOf(ms, id));
  }

  lemma CompHandled(s: Session, p: Packet, id: nat)
    requires DistinctIds(s.outbound) && Waits(ById(s.outbound), id) && L.IsComp(p, id)
    ensures id !in ById(Handle(s, p).session.outbound)
  {
    hide ById, Waits, Removed;
    WaitsAt(s.outbound, id);
    RemovedById(s.outbound, id);
  }

  /** The PUBCOMP comes first on the way back: receiving it completes the exchange. */
  lemma ReceiveComp(w: World, s: Side, id: nat)
    requires Inv(w) && Waits(LinkFrom(w, s).out, id)
    requires Chan(w, Other(s)) != [] && L.IsComp(Chan(w, Other(s))[0], id)
    ensures id !in LinkFrom(Step(w, DoReceive(s, false)), s).out
  {
    hide Inv, Waits, ById, Handle, ValidLists, L.Inv;
    WorldFacts(w, s);
    CompHandled(End(w, s).session, Chan(w, Other(s))[0], id);
  }

  /** Another packet comes first: the message still waits after it. */
  lemma ReceiveOther(w: World, s: Side, id: nat)
    requires Inv(w) && Waits(LinkFrom(w, s).out, id)
    requires Chan(w, Other(s)) != [] && !L.IsComp(Chan(w, Other(s))[0], id)
    ensures var v := Step(w, DoReceive(s, false));
            Waits(LinkFrom(v, s).out, id) && Chan(v, Other(s)) == Chan(w, Other(s))[1..]
  {
    hide Inv, Waits, ById, Handle, ValidLists, L.Inv;
    WorldFacts(w, s);
    WaitsAfterHandle(End(w, s).session, Chan(w, Other(s))[0], id);
  }

  /** A PUBCOMP under way completes the exchange once the packets before it have been received. */
  lemma {:induction false} CompletesByReceiving(w: World, s: Side, id: nat, j: nat) returns (actions: seq<Action>)
    requires Inv(w) && Waits(LinkFrom(w, s).out, id)
    requires j < |Chan(w, Other(s))| && L.IsComp(Chan(w, Other(s))[j], id)
    ensures id !in LinkFrom(Run(w, actions), s).out
    decreases j
  {
    hide Waits, Inv, View;
    var c := Chan(w, Other(s));
    var a := DoReceive(s, false);
    RunOne(w, a);
    if L.IsComp(c[0], id) {
      ReceiveComp(w, s, id);
      actions := [a];
    } else {
      ReceiveOther(w, s, id);
      StepKeepsInv(w, a);
      var rest := CompletesByReceiving(Step(w, a), s, id, j - 1);
      actions := [a] + rest;
      RunOn(w, [a], rest);
    }
  }

  /** After a reconnection, the retry sends PUBREL. */
  lemma RetrySendsRelease(w: World, s: Side, id: nat, i: nat)
    requires Inv(w) && Waits(LinkFrom(w, s).out, id) && Chan(w, s) == []
    requires i == IndexOf(End(w, s).session.outbound, id)
    ensures var v := Step(w, DoRetry(s, i, true));
            && LinkFrom(v, s).out == LinkFrom(w, s).out && End(v, Other(s)) == End(w, Other(s))
            && Chan(v, s) == [Pubrel(false, id)] && Chan(v, Other(s)) == Chan(w, Other(s))
  {
    hide Inv, Waits, ById, RetryOne, ValidLists, L.Inv, Step, Act;
    var e := End(w, s);
    WorldFacts(w, s);
    WaitsAt(e.session.outbound, id);
    RetryStepIs(w, s, i);
    RetryKeepsLists(e.session, e.session.outbound[i]);
    ReleaseRetried(e.session, e.session.outbound[i]);
    assert [] + [Pubrel(false, id)] == [Pubrel(false, id)];
  }

  lemma ReleaseRetried(s: Session, m: Message)
    requires m.qos == 2 && m.nextMessageType == PUBCOMP
    ensures RetryOne(s, m).sent == [Pubrel(false, m.msgid)]
  {
  }

  /** A peer that knows the id answers with PUBCOMP. */
  lemma PeerAnswersRelease(w: World, s: Side, id: nat)
    requires Inv(w) && id in LinkFrom(w, s).inb && Chan(w, s) == [Pubrel(false, id)] && Chan(w, Other(s)) == []
    ensures var v := Step(w, DoReceive(Other(s), true));
            End(v, s) == End(w, s) && Chan(v, Other(s)) == [Pubcomp(false, id)]
  {
    hide Inv, ById, Handle, ValidLists, L.Inv;
    WorldFacts(w, s);
    ReleaseAnswered(LinkFrom(w, s), End(w, Other(s)).session, id);
    assert [] + [Pubcomp(false, id)] == [Pubcomp(false, id)];
  }

  lemma ReleaseAnswered(l: L.Link, t: Session, id: nat)
    requires L.Inv(l) && DistinctIds(t.inbound) && l.inb == ById(t.inbound) && id in l.inb
    ensures Handle(t, Pubrel(false, id)).sent == [Pubcomp(false, id)]
  {
    assert l.inb[id].qos == 2 && l.inb[id].nextMessageType == PUBREL;
    ByIdAt(t.inbound, IndexOf(t.inbound, id));
  }

  lemma DisconnectKeepsLists(w: World, s: Side)
    ensures var v := Step(w, DoDisconnect);
            && LinkFrom(v, s).out == LinkFrom(w, s).out && LinkFrom(v, s).inb == LinkFrom(w, s).inb
            && Chan(v, s) == [] && Chan(v, Other(s)) == [] && End(v, Other(s)) == End(w, Other(s))
            && End(v, s) == End(w, s)
  {
  }

  /** A peer that still knows the id: reconnecting and sending PUBREL again completes the exchange. */
  lemma CompletesByRetry(w: World, s: Side, id: nat) returns (actions: seq<Action>)
    requires Inv(w) && Waits(LinkFrom(w, s).out, id) && id in LinkFrom(w, s).inb
    ensures id !in LinkFrom(Run(w, actions), s).out
  {
    hide Waits, Inv, Step;
    var w1 := Step(w, DoDisconnect);
    DisconnectKeepsLists(w, s);
    StepKeepsInv(w, DoDisconnect);
    var i := IndexOf(End(w1, s).session.outbound, id);
    var w2 := Step(w1, DoRetry(s, i, true));
    RetrySendsRelease(w1, s, id, i);
    StepKeepsInv(w1, DoRetry(s, i, true));
    var w3 := Step(w2, DoReceive(Other(s), true));
    PeerAnswersRelease(w2, s, id);
    StepKeepsInv(w2, DoReceive(Other(s), true));
    ReceiveComp(w3, s, id);
    actions := [DoDisconnect, DoRetry(s, i, true), DoReceive(Other(s), true), DoReceive(s, false)];
    RunFour(w, DoDisconnect, DoRetry(s, i, true), DoReceive(Other(s), true), DoReceive(s, false));
  }

  // ---------- a message whose PUBLISH is not answered yet ----------

  /** A message in flight waits for PUBACK, for PUBREC or for PUBCOMP. */
  lemma InFlightFacts(w: World, s: Side, id: nat)
    requires Inv(w) && id in LinkFrom(w, s).out
    ensures var ms := End(w, s).session.outbound;
            var i := IndexOf(ms, id);
            && i < |ms| && ms[i].msgid == id && LinkFrom(w, s).out[id] == ms[i] && ms[i].qos in {1, 2}
            && (ms[i].qos == 1 || ms[i].nextMessageType == PUBREC || Waits(LinkFrom(w, s).out, id))
  {
    hide L.Inv;
    PairFacts(w.here, w.there, w.fromHere, w.fromThere);
    PairFacts(w.there, w.here, w.fromThere, w.fromHere);
    var t := End(w, s).session;
    ByIdAt(t.outbound, IndexOf(t.outbound, id));
    assert SentMirrored(ById(t.outbound), t.store);
  }

  /** After a reconnection, the retry sends PUBLISH. */
  lemma RetrySendsPublish(w: World, s: Side, id: nat)
    requires Inv(w) && id in LinkFrom(w, s).out && !Waits(LinkFrom(w, s).out, id) && Chan(w, s) == []
    ensures var i, m := IndexOf(End(w, s).session.outbound, id), LinkFrom(w, s).out[id];
            var v := Step(w, DoRetry(s, i, true));
            && LinkFrom(v, s).out == LinkFrom(w, s).out && End(v, Other(s)) == End(w, Other(s))
            && Chan(v, s) == [PublishOf(m, true)] && Chan(v, Other(s)) == Chan(w, Other(s))
  {
    hide Inv, Waits, ById, RetryOne, L.Inv, Step, Act, PublishOf;
    var e, i := End(w, s), IndexOf(End(w, s).session.outbound, id);
    InFlightFacts(w, s, id);
    RetryStepIs(w, s, i);
    RetryKeepsLists(e.session, e.session.outbound[i]);
    PublishRetried(e.session, e.session.outbound[i]);
    assert [] + RetryOne(e.session, e.session.outbound[i]).sent == RetryOne(e.session, e.session.outbound[i]).sent;
  }

  lemma PublishRetried(s: Session, m: Message)
    requires m.qos == 1 || (m.qos == 2 && m.nextMessageType == PUBREC)
    ensures RetryOne(s, m).sent == [PublishOf(m, true)]
  {
  }

  function AnswerTo(p: Packet): Packet
    requires p.Publish?
  {
    if p.qos == 1 then Puback(p.msgId) else Pubrec(false, p.msgId)
  }

  /** The peer answers it, and knows the id of a QoS 2 message then. */
  lemma PeerAnswersPublish(w: World, s: Side, p: Packet)
    requires Inv(w) && Chan(w, s) == [p] && p.Publish? && p.qos in {1, 2} && Chan(w, Other(s)) == []
    ensures var v := Step(w, DoReceive(Other(s), true));
            && End(v, s) == End(w, s) && Chan(v, Other(s)) == [AnswerTo(p)]
            && (p.qos == 2 ==> p.msgId in LinkFrom(v, s).inb)
  {
    hide Inv, ById, Handle, ValidLists, L.Inv;
    WorldFacts(w, s);
    PublishAnswered(End(w, Other(s)).session, p);
    assert [] + [AnswerTo(p)] == [AnswerTo(p)];
  }

  lemma PublishAnswered(t: Session, p: Packet)
    requires DistinctIds(t.inbound) && p.Publish? && p.qos in {1, 2}
    ensures Handle(t, p).sent == [AnswerTo(p)]
    ensures p.qos == 2 ==> p.msgId in ById(Handle(t, p).session.inbound)
  {
    hide ById, Replaced, Ids;
    if p.qos == 2 {
      StoreInbound(t.inbound, Message(p.msgId, 2, p.retain, p.pub, PUBREL));
    }
  }

  lemma ReceiveIs(w: World, s: Side)
    requires Chan(w, Other(s)) != []
    ensures var v := Step(w, DoReceive(s, true));
            && End(v, s).session == Handle(End(w, s).session, Chan(w, Other(s))[0]).session
            && End(v, Other(s)) == End(w, Other(s))
  {
    hide Handle;
  }

  /** PUBACK ends the exchange; after PUBREC it waits for PUBCOMP. */
  lemma AnswerReceived(w: World, s: Side, id: nat, m: Message)
    requires Inv(w) && id in LinkFrom(w, s).out && m == LinkFrom(w, s).out[id] && !Waits(LinkFrom(w, s).out, id)
    requires m.msgid == id && Chan(w, Other(s)) == [AnswerTo(PublishOf(m, true))]
    ensures var v := Step(w, DoReceive(s, true));
            && LinkFrom(v, s).inb == LinkFrom(w, s).inb
            && if m.qos == 1 then id !in LinkFrom(v, s).out else Waits(LinkFrom(v, s).out, id)
  {
    hide Inv, ById, Handle, ValidLists, L.Inv, Waits, PublishOf, AnswerTo, DistinctIds, Step, IndexOf;
    InFlightFacts(w, s, id);
    WorldFacts(w, s);
    ReceiveIs(w, s);
    AnswerHandled(End(w, s).session, m);
  }

  lemma AnswerHandled(t: Session, m: Message)
    requires DistinctIds(t.outbound) && m.qos in {1, 2} && (m.qos == 2 ==> m.nextMessageType == PUBREC)
    requires var i := IndexOf(t.outbound, m.msgid); i < |t.outbound| && t.outbound[i] == m
    ensures var r := Handle(t, AnswerTo(PublishOf(m, true))).session;
            if m.qos == 1 then m.msgid !in ById(r.outbound) else Waits(ById(r.outbound), m.msgid)
  {
    hide ById, Removed, Replaced;
    if m.qos == 1 {
      RemovedById(t.outbound, m.msgid);
    } else {
      ByIdAt(t.outbound, IndexOf(t.outbound, m.msgid));
      ReplacedById(t.outbound, m.(nextMessageType := PUBCOMP));
    }
  }

  /** The PUBLISH is sent again over a new connection and answered: a QoS 1 message is done, and one of QoS 2 is
      completed by a retry of the PUBREL. */
  lemma CompletesFromPublish(w: World, s: Side, id: nat) returns (actions: seq<Action>)
    requires Inv(w) && id in LinkFrom(w, s).out && !Waits(LinkFrom(w, s).out, id)
    ensures id !in LinkFrom(Run(w, actions), s).out
  {
    hide Waits, Inv, Step, LinkFrom;
    var m := LinkFrom(w, s).out[id];
    InFlightFacts(w, s, id);
    var w1 := Step(w, DoDisconnect);
    DisconnectKeepsLists(w, s);
    StepKeepsInv(w, DoDisconnect);
    var retry := DoRetry(s, IndexOf(End(w1, s).session.outbound, id), true);
    var w2 := Step(w1, retry);
    RetrySendsPublish(w1, s, id);
    StepKeepsInv(w1, retry);
    var w3 := Step(w2, DoReceive(Other(s), true));
    IsPublishOf(m);
    PeerAnswersPublish(w2, s, PublishOf(m, true));
    StepKeepsInv(w2, DoReceive(Other(s), true));
    SameOut(w3, w2, s);
    var w4 := Step(w3, DoReceive(s, true));
    AnswerReceived(w3, s, id, m);
    StepKeepsInv(w3, DoReceive(s, true));
    RunFour(w, DoDisconnect, retry, DoReceive(Other(s), true), DoReceive(s, true));
    actions := [DoDisconnect, retry, DoReceive(Other(s), true), DoReceive(s, true)];
    if m.qos == 2 {
      var more := CompletesByRetry(w4, s, id);
      RunOn(w, actions, more);
      actions := actions + more;
    }
  }

  lemma SameOut(v: World, w: World, s: Side)
    requires End(v, s) == End(w, s)
    ensures LinkFrom(v, s).out == LinkFrom(w, s).out
  {
  }

  lemma IsPublishOf(m: Message)
    ensures PublishOf(m, true).Publish? && PublishOf(m, true).qos == m.qos && PublishOf(m, true).msgId == m.msgid
  {
  }

  // ---------- every message in flight ----------

  /** After these actions the sender no longer holds the message. */
  ghost predicate Completes(w: World, actions: seq<Action>, s: Side, id: nat) {
    id !in LinkFrom(Run(w, actions), s).out
  }

  /** After any run, any message in flight can be completed by some continuation exactly when it is not stuck: unless it
      waits for PUBCOMP while its peer does not know the id and no PUBCOMP for it is under way. */
  lemma CompletableIffNotStuck(limitHere: nat, limitThere: nat, before: seq<Action>, w: World, s: Side, id: nat)
    requires w == Run(Start(limitHere, limitThere), before) && id in LinkFrom(w, s).out
    ensures (exists actions :: Completes(w, actions, s, id)) <==> !Stuck(LinkFrom(w, s), id)
  {
    hide Step, Inv;
    StartInv(limitHere, limitThere);
    RunKeepsInv(Start(limitHere, limitThere), before);
    var l := LinkFrom(w, s);
    if !Stuck(l, id) {
      var actions := CompletesUnlessStuck(w, s, id);
      assert Completes(w, actions, s, id);
    } else {
      forall actions
        ensures !Completes(w, actions, s, id)
      {
        StuckForEver(w, actions, s, id);
      }
    }
  }

  lemma CompletesUnlessStuck(w: World, s: Side, id: nat) returns (actions: seq<Action>)
    requires Inv(w) && id in LinkFrom(w, s).out && !Stuck(LinkFrom(w, s), id)
    ensures Completes(w, actions, s, id)
  {
    hide Step, Inv;
    var l := LinkFrom(w, s);
    if !Waits(l.out, id) {
      actions := CompletesFromPublish(w, s, id);
    } else if id in l.inb {
      actions := CompletesByRetry(w, s, id);
    } else {
      var j :| 0 <= j < |l.back| && L.IsComp(l.back[j], id);
      actions := CompletesByReceiving(w, s, id, j);
    }
  }

  // ---------- a message does get stuck ----------

  lemma FirstIdIsOne()
    ensures AssignedId({}, 0) == 1
  {
    assert NextId(0) == 1;
  }

  /** A client with one message in flight, its first. */
  function Sending(limit: nat, m: Message, log: seq<L.LogEntry>, store: Store): Endpoint {
    Endpoint(Session([m], [], [], 1, 0, limit, store), log, [], [])
  }

  lemma FirstPublish(limit: nat, retain: bool, topic: seq<Byte>, payload: seq<Byte>)
    requires limit > 0
    ensures var m := Message(1, 2, retain, Publication(topic, payload, 0), PUBREC);
            Publishes(Endpoint(NewSession(limit), [], [], []), 2, retain, topic, payload)
            == (Sending(limit, m, [L.LogEntry(2, retain, m.pub)], map[SentKey(1) := PacketRecord(PublishOf(m, false))]),
                [PublishOf(m, false)])
  {
    FirstIdIsOne();
    assert Ids([]) == {};
    var m := Message(1, 2, retain, Publication(topic, payload, 0), PUBREC);
    assert [] + [m] == [m];
    assert [] + [L.LogEntry(2, retain, m.pub)] == [L.LogEntry(2, retain, m.pub)];
    assert map[][SentKey(1) := PacketRecord(PublishOf(m, false))]
           == map[SentKey(1) := PacketRecord(PublishOf(m, false))];
  }

  lemma FirstStored(limit: nat, m: Message)
    requires m.msgid == 1 && m.qos == 2
    ensures var e := Received(Endpoint(NewSession(limit), [], [], []), PublishOf(m, false));
            && e.session.inbound == [m.(nextMessageType := PUBREL)]
            && Reply(Endpoint(NewSession(limit), [], [], []), PublishOf(m, false)) == [Pubrec(false, 1)]
  {
    assert Ids([]) == {};
  }

  lemma FirstReleased(limit: nat, m: Message, log: seq<L.LogEntry>, store: Store)
    requires m.msgid == 1 && m.qos == 2 && m.nextMessageType == PUBREC
    ensures var e := Sending(limit, m, log, store);
            && Received(e, Pubrec(false, 1)).session.outbound == [m.(nextMessageType := PUBCOMP)]
            && Reply(e, Pubrec(false, 1)) == [Pubrel(false, 1)]
  {
    assert IndexOf([m], 1) == 0;
  }

  lemma FirstArrived(e: Endpoint, m: Message)
    requires m.msgid == 1 && m.qos == 2 && m.nextMessageType == PUBREL && e.session.inbound == [m]
    ensures Received(e, Pubrel(false, 1)).session.inbound == []
  {
    assert IndexOf([m], 1) == 0;
  }

  /** A message is published, stored by the peer and answered, and the answer is answered: its PUBREL is under way. */
  lemma FirstReleaseIsSent(limitHere: nat, limitThere: nat, retain: bool, topic: seq<Byte>, payload: seq<Byte>)
    returns (w: World)
    requires limitHere > 0 && Sendable(topic, payload)
    ensures w == Step(Step(Step(Start(limitHere, limitThere), DoPublish(Here, 2, retain, topic, payload, true)),
                           DoReceive(There, true)), DoReceive(Here, true))
    ensures var m := Message(1, 2, retain, Publication(topic, payload, 0), PUBCOMP);
            && w.here.session.outbound == [m] && w.there.session.inbound == [m.(nextMessageType := PUBREL)]
            && w.fromHere == [Pubrel(false, 1)] && w.fromThere == []
  {
    hide Publishes, Received, Reply, Stuck;
    var m := Message(1, 2, retain, Publication(topic, payload, 0), PUBREC);
    FirstPublish(limitHere, retain, topic, payload);
    FirstStored(limitThere, m);
    var w1 := Step(Start(limitHere, limitThere), DoPublish(Here, 2, retain, topic, payload, true));
    assert w1.fromHere == [PublishOf(m, false)];
    var w2 := Step(w1, DoReceive(There, true));
    assert w2.fromHere == [] && w2.fromThere == [Pubrec(false, 1)];
    FirstReleased(limitHere, m, w1.here.log, w1.here.session.store);
    w := Step(w2, DoReceive(Here, true));
  }

  /** Losing the one PUBCOMP of an exchange is enough. */
  lemma LostPubcompSticks(limitHere: nat, limitThere: nat, retain: bool, topic: seq<Byte>, payload: seq<Byte>)
    requires limitHere > 0 && Sendable(topic, payload)
    ensures var actions := [DoPublish(Here, 2, retain, topic, payload, true), DoReceive(There, true),
                            DoReceive(Here, true), DoReceive(There, false)];
            Stuck(LinkFrom(Run(Start(limitHere, limitThere), actions), Here), 1)
  {
    hide Publishes, Received, Reply, Stuck;
    var w := FirstReleaseIsSent(limitHere, limitThere, retain, topic, payload);
    FirstArrived(w.there, w.there.session.inbound[0]);
    IsStuck(Step(w, DoReceive(There, false)), w.here.session.outbound[0]);
    RunFour(Start(limitHere, limitThere), DoPublish(Here, 2, retain, topic, payload, true), DoReceive(There, true),
            DoReceive(Here, true), DoReceive(There, false));
  }

  lemma IsStuck(w: World, m: Message)
    requires w.here.session.outbound == [m] && w.there.session.inbound == [] && w.fromThere == []
    requires m.msgid == 1 && m.qos == 2 && m.nextMessageType == PUBCOMP
    ensures Stuck(LinkFrom(w, Here), 1)
  {
    ByIdAt([m], 0);
    assert Ids([]) == {};
  }

  /** So not every QoS 2 message completes, although section 4.3.3 of MQTT 3.1.1 has its receiver answer PUBREL
      with PUBCOMP every time: after this loss no continuation completes the exchange. */
  lemma LostPubcompNeverCompletes(limitHere: nat, limitThere: nat, retain: bool, topic: seq<Byte>, payload: seq<Byte>,
                                  actions: seq<Action>)
    requires limitHere > 0 && Sendable(topic, payload)
    ensures var first := [DoPublish(Here, 2, retain, topic, payload, true), DoReceive(There, true),
                          DoReceive(Here, true), DoReceive(There, false)];
            1 in LinkFrom(Run(Start(limitHere, limitThere), first + actions), Here).out
  {
    hide Step, Stuck, Inv, Waits;
    var first := [DoPublish(Here, 2, retain, topic, payload, true), DoReceive(There, true),
                  DoReceive(Here, true), DoReceive(There, false)];
    var w := Start(limitHere, limitThere);
    StartInv(limitHere, limitThere);
    RunKeepsInv(w, first);
    LostPubcompSticks(limitHere, limitThere, retain, topic, payload);
    StuckForEver(Run(w, first), actions, Here, 1);
    RunOn(w, first, actions);
    StillHeld(LinkFrom(Run(w, first + actions), Here), 1);
  }

  lemma StillHeld(l: L.Link, id: nat)
    requires Stuck(l, id)
    ensures id in l.out
  {
  }
}
