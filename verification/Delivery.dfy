/** Two clients joined by two FIFO channels, both publishing and both receiving. `ExactlyOnce` is what section
    4.3.3 of MQTT 3.1.1 asks of QoS 2. */
module Delivery {
  // Whether a packet that is sent gets onto its channel is a free choice at every step, a disconnect loses
  // everything under way, retries are due whenever one likes, and a client may be restarted from its store at
  // any time.

  import opened Messages
  import opened MessageIds
  import opened Restore
  import opened Sessions
  import opened SessionProofs
  import L = Link
  import opened LinkSteps

  datatype Side = Here | There

  function Other(s: Side): Side {
    if s == Here then There else Here
  }

  /** A client with three logs: what it has published, what has ever been put on its message queue, and what
      its application has taken from there. */
  datatype Endpoint = Endpoint(
    session: Session,
    log: seq<L.LogEntry>,
    arrived: seq<QEntry>,
    taken: seq<QEntry>)

  datatype World = World(here: Endpoint, there: Endpoint, fromHere: seq<Packet>, fromThere: seq<Packet>)

  function End(w: World, s: Side): Endpoint {
    if s == Here then w.here else w.there
  }

  /** The packets that `s` has sent and its peer has not handled. */
  function Chan(w: World, s: Side): seq<Packet> {
    if s == Here then w.fromHere else w.fromThere
  }

  /** The world with new values for one side and for the channels from it and to it. */
  function With(s: Side, e: Endpoint, from: seq<Packet>, peer: Endpoint, to: seq<Packet>): World {
    if s == Here then World(e, peer, from, to) else World(peer, e, to, from)
  }

  datatype Action =
    | DoPublish(side: Side, qos: nat, retain: bool, topic: seq<Byte>, payload: seq<Byte>, sent: bool)
    | DoSubscribe(side: Side)
    | DoRetry(side: Side, i: nat, sent: bool)
    | DoReceive(side: Side, sent: bool)
    | DoTake(side: Side)
    | DoDisconnect
    | DoRestart(side: Side, keys: seq<Key>)

  function Push(c: seq<Packet>, ps: seq<Packet>, sent: bool): seq<Packet> {
    if sent then c + ps else c
  }

  function Publishes(e: Endpoint, qos: nat, retain: bool, topic: seq<Byte>, payload: seq<Byte>)
    : (Endpoint, seq<Packet>)
  {
    var pub := Publication(topic, payload, |e.log|);
    var f := StartPublish(e.session, qos, retain, pub);
    if f.sent == [] then (e, [])
    else (e.(session := f.session, log := e.log + [L.LogEntry(qos, retain, pub)]), f.sent)
  }

  /** What `e` is when it has handled a packet. */
  function Received(e: Endpoint, p: Packet): Endpoint {
    var f := Handle(e.session, p);
    e.(session := f.session, arrived := e.arrived + f.arrived)
  }

  function Reply(e: Endpoint, p: Packet): seq<Packet> {
    Handle(e.session, p).sent
  }

  /** One side, and the channels from it and to it. */
  datatype Half = Half(end: Endpoint, from: seq<Packet>, to: seq<Packet>)

  /** What one side does. An action that is not possible changes nothing. */
  ghost function Act(h: Half, a: Action): Half {
    var e := h.end;
    match a
    case DoPublish(_, qos, retain, topic, payload, sent) =>
      if qos <= 2 && CanPublish(e.session) && Sendable(topic, payload) then
        var (e', ps) := Publishes(e, qos, retain, topic, payload);
        h.(end := e', from := Push(h.from, ps, sent))
      else h
    case DoSubscribe(_) =>
      h.(end := e.(session := TakeId(e.session)))
    case DoRetry(_, i, sent) =>
      if i < |e.session.outbound| then
        var f := RetryOne(e.session, e.session.outbound[i]);
        h.(end := e.(session := f.session), from := Push(h.from, f.sent, sent))
      else h
    case DoReceive(_, sent) =>
      if h.to != [] then
        var p := h.to[0];
        Half(Received(e, p), Push(h.from, Reply(e, p), sent), h.to[1..])
      else h
    case DoTake(_) =>
      if e.session.queue != [] then
        h.(end := e.(session := Deliver(e.session), taken := e.taken + [e.session.queue[0]]))
      else h
    case DoRestart(_, keys) =>
      if Lists(keys, e.session.store) then
        Half(e.(session := Restart(e.session, keys)), [], [])
      else h
    case DoDisconnect => h
  }

  ghost function Step(w: World, a: Action): World {
    if a == DoDisconnect then
      w.(fromHere := [], fromThere := [])
    else
      var s := a.side;
      var h := Act(Half(End(w, s), Chan(w, s), Chan(w, Other(s))), a);
      With(s, h.end, h.from, End(w, Other(s)), h.to)
  }

  ghost function Run(w: World, actions: seq<Action>): World
    decreases |actions|
  {
    if actions == [] then w
    else Step(Run(w, actions[..|actions| - 1]), actions[|actions| - 1])
  }

  lemma {:induction false} RunOn(w: World, as1: seq<Action>, as2: seq<Action>)
    ensures Run(w, as1 + as2) == Run(Run(w, as1), as2)
    decreases |as2|
  {
    hide Step;
    if as2 == [] {
      assert as1 + as2 == as1;
    } else {
      var n := |as2| - 1;
      assert (as1 + as2)[..|as1| + n] == as1 + as2[..n];
      RunOn(w, as1, as2[..n]);
    }
  }

  lemma RunOne(w: World, a: Action)
    ensures Run(w, [a]) == Step(w, a)
  {
    assert [a][..0] == [];
  }

  lemma RunFour(w: World, a1: Action, a2: Action, a3: Action, a4: Action)
    ensures Run(w, [a1, a2, a3, a4]) == Step(Step(Step(Step(w, a1), a2), a3), a4)
  {
    hide Step;
    RunOne(w, a1);
    RunOn(w, [a1], [a2]);
    RunOne(Step(w, a1), a2);
    RunOn(w, [a1] + [a2], [a3]);
    RunOne(Step(Step(w, a1), a2), a3);
    RunOn(w, [a1] + [a2] + [a3], [a4]);
    RunOne(Step(Step(Step(w, a1), a2), a3), a4);
    assert [a1] + [a2] + [a3] + [a4] == [a1, a2, a3, a4];
  }

  function Start(limitHere: nat, limitThere: nat): World {
    World(Endpoint(NewSession(limitHere), [], [], []), Endpoint(NewSession(limitThere), [], [], []), [], [])
  }

  // ---------- what holds of every run ----------

  function View(from: Endpoint, to: Endpoint, fwd: seq<Packet>, back: seq<Packet>): L.Link {
    L.Link(ById(from.session.outbound), ById(to.session.inbound), fwd, back, from.log, to.arrived)
  }

  /** An endpoint, its peer, and the channels from the one and from the other. */
  ghost predicate PairInv(e: Endpoint, o: Endpoint, from: seq<Packet>, to: seq<Packet>) {
    && Valid(e.session) && Valid(o.session)
    && L.Inv(View(e, o, from, to))
    && L.Inv(View(o, e, to, from))
  }

  ghost predicate Inv(w: World) {
    PairInv(w.here, w.there, w.fromHere, w.fromThere)
  }

  lemma EmptyLink()
    ensures L.Inv(L.Link(map[], map[], [], [], [], []))
  {
    var l := L.Link(map[], map[], [], [], [], []);
    forall id
      ensures L.Exchange(l, id)
    {
    }
  }

  lemma StartEnd(limit: nat)
    ensures Valid(NewSession(limit))
  {
  }

  lemma StartInv(limitHere: nat, limitThere: nat)
    ensures Inv(Start(limitHere, limitThere))
  {
    var w := Start(limitHere, limitThere);
    EmptyLink();
    StartEnd(limitHere);
    StartEnd(limitThere);
    assert View(w.here, w.there, [], []) == L.Link(map[], map[], [], [], [], []);
    assert View(w.there, w.here, [], []) == L.Link(map[], map[], [], [], [], []);
  }

  // ---------- each step, for the side that acts ----------

  lemma PublishView(e: Endpoint, o: Endpoint, from: seq<Packet>, to: seq<Packet>,
                    qos: nat, retain: bool, topic: seq<Byte>, payload: seq<Byte>, sent: bool) returns (m: Message)
    requires ValidLists(e.session) && 1 <= qos <= 2
    requires AssignedId(Ids(e.session.outbound), e.session.msgID) != 0
    ensures var l := View(e, o, from, to);
            var (e', ps) := Publishes(e, qos, retain, topic, payload);
            && m.msgid !in l.out && m.qos == qos && (qos == 2 ==> m.nextMessageType == PUBREC)
            && m.pub.serial == |l.log|
            && View(e', o, Push(from, ps, sent), to)
               == l.(out := l.out[m.msgid := m], fwd := Sent(l.fwd, PublishOf(m, false), sent),
                     log := l.log + [L.LogEntry(m.qos, m.retain, m.pub)])
  {
    var pub := Publication(topic, payload, |e.log|);
    var id := AssignedId(Ids(e.session.outbound), e.session.msgID);
    AssignedIdIsFree(Ids(e.session.outbound), e.session.msgID);
    m := Message(id, qos, retain, pub, if qos == 2 then PUBREC else Unset);
    Messages.Appended(e.session.outbound, m);
  }

  lemma PublishForward(e: Endpoint, o: Endpoint, from: seq<Packet>, to: seq<Packet>,
                       qos: nat, retain: bool, topic: seq<Byte>, payload: seq<Byte>, sent: bool)
    requires L.Inv(View(e, o, from, to)) && ValidLists(e.session) && 1 <= qos <= 2
    ensures var (e', ps) := Publishes(e, qos, retain, topic, payload);
            L.Inv(View(e', o, Push(from, ps, sent), to))
  {
    if AssignedId(Ids(e.session.outbound), e.session.msgID) != 0 {
      var m := PublishView(e, o, from, to, qos, retain, topic, payload, sent);
      Published(View(e, o, from, to), m, PublishOf(m, false), sent);
    } else {
      assert from + [] == from;
    }
  }

  lemma PublishForwardQoS0(e: Endpoint, o: Endpoint, from: seq<Packet>, to: seq<Packet>,
                           retain: bool, topic: seq<Byte>, payload: seq<Byte>, sent: bool)
    requires L.Inv(View(e, o, from, to))
    ensures var (e', ps) := Publishes(e, 0, retain, topic, payload);
            L.Inv(View(e', o, Push(from, ps, sent), to))
  {
    var (e', ps) := Publishes(e, 0, retain, topic, payload);
    PublishedQoS0(View(e, o, from, to), L.LogEntry(0, retain, Publication(topic, payload, |e.log|)));
    Unconcerned(View(e', o, from, to), ps, [], sent);
  }

  lemma PublishEnd(e: Endpoint, qos: nat, retain: bool, topic: seq<Byte>, payload: seq<Byte>)
    requires Valid(e.session) && qos <= 2 && CanPublish(e.session)
    ensures Valid(Publishes(e, qos, retain, topic, payload).0.session)
  {
    StartPublishKeepsValid(e.session, qos, retain, Publication(topic, payload, |e.log|));
  }

  lemma PublishFrame(e: Endpoint, qos: nat, retain: bool, topic: seq<Byte>, payload: seq<Byte>)
    ensures var (e', ps) := Publishes(e, qos, retain, topic, payload);
            && e'.session.inbound == e.session.inbound && e'.arrived == e.arrived
            && forall p :: p in ps ==> !L.BackwardMatters(p)
  {
  }

  lemma PublishStep(e: Endpoint, o: Endpoint, from: seq<Packet>, to: seq<Packet>,
                    qos: nat, retain: bool, topic: seq<Byte>, payload: seq<Byte>, sent: bool)
    requires PairInv(e, o, from, to) && qos <= 2 && CanPublish(e.session)
    ensures var (e', ps) := Publishes(e, qos, retain, topic, payload);
            PairInv(e', o, Push(from, ps, sent), to)
  {
    var (e', ps) := Publishes(e, qos, retain, topic, payload);
    PublishEnd(e, qos, retain, topic, payload);
    if qos == 0 {
      PublishForwardQoS0(e, o, from, to, retain, topic, payload, sent);
    } else {
      PublishForward(e, o, from, to, qos, retain, topic, payload, sent);
    }
    PublishFrame(e, qos, retain, topic, payload);
    AnswersOnly(e, e', o, from, to, ps, sent);
  }

  /** The direction towards `e` is left alone when `e` only sends packets of its own direction. */
  lemma AnswersOnly(e: Endpoint, e': Endpoint, o: Endpoint, from: seq<Packet>, to: seq<Packet>,
                    ps: seq<Packet>, sent: bool)
    requires L.Inv(View(o, e, to, from))
    requires e'.session.inbound == e.session.inbound && e'.arrived == e.arrived
    requires forall p :: p in ps ==> !L.BackwardMatters(p)
    ensures L.Inv(View(o, e', to, Push(from, ps, sent)))
  {
    var l := View(o, e, to, from);
    Unconcerned(l, [], ps, sent);
    assert View(o, e', to, Push(from, ps, sent)) == l.(back := Push(from, ps, sent));
  }

  /** Packets that play no part in a direction may be sent in either channel, or lost. */
  lemma Unconcerned(l: L.Link, ps: seq<Packet>, qs: seq<Packet>, sent: bool)
    requires L.Inv(l)
    requires forall p :: p in ps ==> !L.ForwardMatters(p)
    requires forall q :: q in qs ==> !L.BackwardMatters(q)
    ensures L.Inv(l.(fwd := Push(l.fwd, ps, sent), back := Push(l.back, qs, sent)))
    ensures ps == [] ==> L.Inv(l.(back := Push(l.back, qs, sent)))
    ensures qs == [] ==> L.Inv(l.(fwd := Push(l.fwd, ps, sent)))
  {
    L.Appended(l, ps, qs);
    assert l.fwd + [] == l.fwd;
    assert l.back + [] == l.back;
  }

  // ---------- retries ----------

  /** What a retry of `m` sends, seen from the link. */
  lemma RetryLink(l: L.Link, s: Session, m: Message, sent: bool)
    requires L.Inv(l) && m.msgid in l.out && l.out[m.msgid] == m && m.qos in {1, 2}
    ensures L.Inv(l.(fwd := Push(l.fwd, RetryOne(s, m).sent, sent)))
  {
    var ps := RetryOne(s, m).sent;
    if ps == [] {
      assert Push(l.fwd, ps, sent) == l.fwd;
    } else if m.qos == 2 && m.nextMessageType == PUBREC {
      RetriedPublish(l, m, sent);
    } else if m.qos == 2 {
      RetriedRelease(l, m, sent);
    } else {
      RetryLow(l, s, m, sent);
    }
  }

  lemma RetryLow(l: L.Link, s: Session, m: Message, sent: bool)
    requires L.Inv(l) && m.msgid in l.out && l.out[m.msgid] == m && m.qos == 1
    ensures L.Inv(l.(fwd := Push(l.fwd, RetryOne(s, m).sent, sent)))
  {
    Unconcerned(l, RetryOne(s, m).sent, [], sent);
  }

  lemma RetryForward(e: Endpoint, o: Endpoint, from: seq<Packet>, to: seq<Packet>, i: nat, sent: bool)
    requires L.Inv(View(e, o, from, to)) && ValidLists(e.session) && i < |e.session.outbound|
    ensures var f := RetryOne(e.session, e.session.outbound[i]);
            L.Inv(View(e.(session := f.session), o, Push(from, f.sent, sent), to))
  {
    var l := View(e, o, from, to);
    var m := e.session.outbound[i];
    var f := RetryOne(e.session, m);
    ByIdAt(e.session.outbound, i);
    assert m in e.session.outbound;
    RetryLink(l, e.session, m, sent);
    assert View(e.(session := f.session), o, Push(from, f.sent, sent), to) == l.(fwd := Push(from, f.sent, sent));
  }

  lemma RetryEnd(e: Endpoint, i: nat)
    requires Valid(e.session) && i < |e.session.outbound|
    ensures var f := RetryOne(e.session, e.session.outbound[i]);
            && Valid(f.session)
            && f.session.inbound == e.session.inbound
            && forall p :: p in f.sent ==> !L.BackwardMatters(p)
  {
    RetryKeepsValid(e.session, e.session.outbound[i]);
  }

  lemma RetryStep(e: Endpoint, o: Endpoint, from: seq<Packet>, to: seq<Packet>, i: nat, sent: bool)
    requires PairInv(e, o, from, to) && i < |e.session.outbound|
    ensures var f := RetryOne(e.session, e.session.outbound[i]);
            PairInv(e.(session := f.session), o, Push(from, f.sent, sent), to)
  {
    var f := RetryOne(e.session, e.session.outbound[i]);
    RetryEnd(e, i);
    RetryForward(e, o, from, to, i, sent);
    AnswersOnly(e, e.(session := f.session), o, from, to, f.sent, sent);
  }

  // ---------- received packets ----------

  /** A packet that is no answer for the sender `e`, and replies that are no packets of its exchanges. */
  lemma PlainForward(e: Endpoint, e': Endpoint, o: Endpoint, from: seq<Packet>, to: seq<Packet>,
                     ps: seq<Packet>, sent: bool)
    requires L.Inv(View(e, o, from, to)) && to != []
    requires e'.session.outbound == e.session.outbound && e'.log == e.log
    requires forall p :: p in ps ==> !L.ForwardMatters(p)
    ensures L.Inv(View(e', o, Push(from, ps, sent), to[1..]))
  {
    var l := View(e, o, from, to);
    L.Dropped(l, 0, 1);
    assert from[0..] == from;
    var d := l.(back := to[1..]);
    Unconcerned(d, ps, [], sent);
    assert View(e', o, Push(from, ps, sent), to[1..]) == d.(fwd := Push(from, ps, sent));
  }

  /** A packet of no exchange that `e` receives, or one that it ignores. */
  lemma PlainBackward(e: Endpoint, e': Endpoint, o: Endpoint, from: seq<Packet>, to: seq<Packet>,
                      ps: seq<Packet>, sent: bool)
    requires L.Inv(View(o, e, to, from)) && to != []
    requires e'.session.inbound == e.session.inbound && e'.arrived == e.arrived
    requires forall p :: p in ps ==> !L.BackwardMatters(p)
    ensures L.Inv(View(o, e', to[1..], Push(from, ps, sent)))
  {
    var l := View(o, e, to, from);
    L.Dropped(l, 1, 0);
    assert from[0..] == from;
    var d := l.(fwd := to[1..]);
    Unconcerned(d, [], ps, sent);
    assert View(o, e', to[1..], Push(from, ps, sent)) == d.(back := Push(from, ps, sent));
  }

  lemma PublishBackward(e: Endpoint, o: Endpoint, from: seq<Packet>, to: seq<Packet>, sent: bool)
    requires L.Inv(View(o, e, to, from)) && ValidLists(e.session) && to != [] && to[0].Publish? && to[0].qos == 2
    ensures L.Inv(View(o, Received(e, to[0]), to[1..], Push(from, Reply(e, to[0]), sent)))
  {
    hide L.Inv, L.Exchange;
    var p := to[0];
    var l := View(o, e, to, from);
    var m := Message(p.msgId, 2, p.retain, p.pub, PUBREL);
    StoreInbound(e.session.inbound, m);
    Stored(l, p, m, sent);
    assert Push(from, Reply(e, p), sent) == Sent(from, Pubrec(false, p.msgId), sent);
    assert e.arrived + [] == e.arrived;
    assert View(o, Received(e, p), to[1..], Push(from, Reply(e, p), sent))
        == l.(inb := l.inb[m.msgid := m], fwd := to[1..], back := Push(from, Reply(e, p), sent));
  }

  lemma PublishBackwardLow(e: Endpoint, o: Endpoint, from: seq<Packet>, to: seq<Packet>, sent: bool)
    requires L.Inv(View(o, e, to, from)) && to != [] && to[0].Publish? && to[0].qos != 2
    ensures L.Inv(View(o, Received(e, to[0]), to[1..], Push(from, Reply(e, to[0]), sent)))
  {
    var p := to[0];
    var e' := Received(e, p);
    if p.qos < 2 {
      var l := View(o, e, to, from);
      var x := ProcessPublication(e.session, p).1;
      OtherArrival(l, x);
      var mid := e.(arrived := e.arrived + [x]);
      assert View(o, mid, to, from) == l.(arrived := l.arrived + [x]);
      PlainBackward(mid, e', o, from, to, Reply(e, p), sent);
    } else {
      assert e.arrived + [] == e.arrived;
      PlainBackward(e, e', o, from, to, Reply(e, p), sent);
    }
  }

  lemma PubrelBackward(e: Endpoint, o: Endpoint, from: seq<Packet>, to: seq<Packet>, sent: bool)
    requires L.Inv(View(o, e, to, from)) && ValidLists(e.session) && to != [] && to[0].Pubrel?
    ensures L.Inv(View(o, Received(e, to[0]), to[1..], Push(from, Reply(e, to[0]), sent)))
  {
    var p := to[0];
    var l := View(o, e, to, from);
    var i := IndexOf(e.session.inbound, p.msgId);
    if i < |e.session.inbound| {
      ByIdAt(e.session.inbound, i);
      RemovedById(e.session.inbound, p.msgId);
      var x := ProcessPublication(e.session, PublishOf(e.session.inbound[i], false)).1;
      LinkSteps.Delivered(l, p.msgId, x, sent);
      assert Push(from, Reply(e, p), sent) == Sent(from, Pubcomp(false, p.msgId), sent);
      assert View(o, Received(e, p), to[1..], Push(from, Reply(e, p), sent))
          == l.(inb := l.inb - {p.msgId}, fwd := to[1..], arrived := l.arrived + [x],
                back := Push(from, Reply(e, p), sent));
    } else {
      assert e.arrived + [] == e.arrived;
      assert l.fwd[0] == p;
      PlainBackward(e, Received(e, p), o, from, to, Reply(e, p), sent);
    }
  }

  lemma PubackForward(e: Endpoint, o: Endpoint, from: seq<Packet>, to: seq<Packet>, sent: bool)
    requires L.Inv(View(e, o, from, to)) && ValidLists(e.session) && to != [] && to[0].Puback?
    ensures L.Inv(View(Received(e, to[0]), o, Push(from, Reply(e, to[0]), sent), to[1..]))
  {
    var id := to[0].msgId;
    var l := View(e, o, from, to);
    var e' := Received(e, to[0]);
    var i := IndexOf(e.session.outbound, id);
    if i < |e.session.outbound| && e.session.outbound[i].qos == 1 {
      ByIdAt(e.session.outbound, i);
      RemovedById(e.session.outbound, id);
      Acknowledged(l, id);
      assert View(e', o, from, to) == l.(out := l.out - {id});
      PlainForward(e', e', o, from, to, [], sent);
    } else {
      PlainForward(e, e', o, from, to, [], sent);
    }
  }

  lemma PubrecForward(e: Endpoint, o: Endpoint, from: seq<Packet>, to: seq<Packet>, sent: bool)
    requires L.Inv(View(e, o, from, to)) && ValidLists(e.session) && to != [] && to[0].Pubrec?
    ensures L.Inv(View(Received(e, to[0]), o, Push(from, Reply(e, to[0]), sent), to[1..]))
  {
    var id := to[0].msgId;
    var l := View(e, o, from, to);
    var e' := Received(e, to[0]);
    var i := IndexOf(e.session.outbound, id);
    if i < |e.session.outbound| && e.session.outbound[i].qos == 2 && e.session.outbound[i].nextMessageType == PUBREC {
      var m := e.session.outbound[i];
      ByIdAt(e.session.outbound, i);
      ReplacedById(e.session.outbound, m.(nextMessageType := PUBCOMP));
      Released(l, m, sent);
      assert Push(from, Reply(e, to[0]), sent) == Sent(from, Pubrel(false, id), sent);
      assert View(e', o, Push(from, Reply(e, to[0]), sent), to[1..])
          == l.(out := l.out[id := m.(nextMessageType := PUBCOMP)],
                fwd := Push(from, Reply(e, to[0]), sent), back := to[1..]);
    } else {
      PlainForward(e, e', o, from, to, [], sent);
    }
  }

  lemma PubcompForward(e: Endpoint, o: Endpoint, from: seq<Packet>, to: seq<Packet>, sent: bool)
    requires L.Inv(View(e, o, from, to)) && ValidLists(e.session) && to != [] && to[0].Pubcomp?
    ensures L.Inv(View(Received(e, to[0]), o, Push(from, Reply(e, to[0]), sent), to[1..]))
  {
    hide L.Inv, Removed, RemoveSent, ById;
    var id := to[0].msgId;
    var l := View(e, o, from, to);
    var e' := Received(e, to[0]);
    var i := IndexOf(e.session.outbound, id);
    if i < |e.session.outbound| && e.session.outbound[i].qos == 2 && e.session.outbound[i].nextMessageType == PUBCOMP {
      ByIdAt(e.session.outbound, i);
      assert View(e', o, Push(from, Reply(e, to[0]), sent), to[1..]) == l.(out := l.out - {id}, back := to[1..]) by {
        RemovedById(e.session.outbound, id);
      }
      Completed(l, id);
    } else {
      PlainForward(e, e', o, from, to, [], sent);
    }
  }

  // ---------- receiving, both directions ----------

  lemma ReceiveForward(e: Endpoint, o: Endpoint, from: seq<Packet>, to: seq<Packet>, sent: bool)
    requires L.Inv(View(e, o, from, to)) && ValidLists(e.session) && to != []
    ensures L.Inv(View(Received(e, to[0]), o, Push(from, Reply(e, to[0]), sent), to[1..]))
  {
    match to[0]
    case Puback(_) => PubackForward(e, o, from, to, sent);
    case Pubrec(_, _) => PubrecForward(e, o, from, to, sent);
    case Pubcomp(_, _) => PubcompForward(e, o, from, to, sent);
    case Publish(_, _, _, _, _) => PlainForward(e, Received(e, to[0]), o, from, to, Reply(e, to[0]), sent);
    case Pubrel(_, _) => PlainForward(e, Received(e, to[0]), o, from, to, Reply(e, to[0]), sent);
  }

  lemma AnswerFrame(e: Endpoint, p: Packet)
    requires !p.Publish? && !p.Pubrel?
    ensures Received(e, p).session.inbound == e.session.inbound && Received(e, p).arrived == e.arrived
    ensures forall q :: q in Reply(e, p) ==> !L.BackwardMatters(q)
  {
    assert e.arrived + [] == e.arrived;
  }

  lemma ReceiveBackward(e: Endpoint, o: Endpoint, from: seq<Packet>, to: seq<Packet>, sent: bool)
    requires L.Inv(View(o, e, to, from)) && ValidLists(e.session) && to != []
    ensures L.Inv(View(o, Received(e, to[0]), to[1..], Push(from, Reply(e, to[0]), sent)))
  {
    var p := to[0];
    if p.Publish? {
      if p.qos == 2 {
        PublishBackward(e, o, from, to, sent);
      } else {
        PublishBackwardLow(e, o, from, to, sent);
      }
    } else if p.Pubrel? {
      PubrelBackward(e, o, from, to, sent);
    } else {
      AnswerFrame(e, p);
      PlainBackward(e, Received(e, p), o, from, to, Reply(e, p), sent);
    }
  }

  lemma ReceiveStep(e: Endpoint, o: Endpoint, from: seq<Packet>, to: seq<Packet>, sent: bool)
    requires PairInv(e, o, from, to) && to != []
    ensures PairInv(Received(e, to[0]), o, Push(from, Reply(e, to[0]), sent), to[1..])
  {
    HandleKeepsValid(e.session, to[0]);
    ReceiveForward(e, o, from, to, sent);
    ReceiveBackward(e, o, from, to, sent);
  }

  // ---------- steps that send nothing ----------

  /** A change of `e` that leaves its lists, as maps, and its logs alone. */
  lemma QuietStep(e: Endpoint, e': Endpoint, o: Endpoint, from: seq<Packet>, to: seq<Packet>)
    requires PairInv(e, o, from, to) && Valid(e'.session)
    requires ById(e'.session.outbound) == ById(e.session.outbound)
    requires ById(e'.session.inbound) == ById(e.session.inbound)
    requires e'.log == e.log && e'.arrived == e.arrived
    ensures PairInv(e', o, from, to)
  {
    assert View(e', o, from, to) == View(e, o, from, to);
    assert View(o, e', to, from) == View(o, e, to, from);
  }

  lemma DisconnectStep(e: Endpoint, o: Endpoint, from: seq<Packet>, to: seq<Packet>)
    requires PairInv(e, o, from, to)
    ensures PairInv(e, o, [], [])
  {
    L.Dropped(View(e, o, from, to), |from|, |to|);
    L.Dropped(View(o, e, to, from), |to|, |from|);
    assert from[|from|..] == [] && to[|to|..] == [];
    assert View(e, o, [], []) == View(e, o, from, to).(fwd := [], back := []);
    assert View(o, e, [], []) == View(o, e, to, from).(fwd := [], back := []);
  }

  lemma TakeIdKeepsLists(s: Session)
    ensures TakeId(s).outbound == s.outbound && TakeId(s).inbound == s.inbound
  {
  }

  lemma DeliverKeepsLists(s: Session)
    requires s.queue != []
    ensures Deliver(s).outbound == s.outbound && Deliver(s).inbound == s.inbound
  {
  }

  lemma RestartStep(e: Endpoint, o: Endpoint, from: seq<Packet>, to: seq<Packet>, keys: seq<Key>)
    requires PairInv(e, o, from, to) && Lists(keys, e.session.store)
    ensures PairInv(e.(session := Restart(e.session, keys)), o, [], [])
  {
    RestartKeepsValid(e.session, keys);
    RestartRestoresLists(e.session, keys);
    DisconnectStep(e, o, from, to);
    QuietStep(e, e.(session := Restart(e.session, keys)), o, [], []);
  }

  lemma TakeStep(e: Endpoint, o: Endpoint, from: seq<Packet>, to: seq<Packet>)
    requires PairInv(e, o, from, to) && e.session.queue != []
    ensures PairInv(e.(session := Deliver(e.session), taken := e.taken + [e.session.queue[0]]), o, from, to)
  {
    DeliverKeepsValid(e.session);
    DeliverKeepsLists(e.session);
    QuietStep(e, e.(session := Deliver(e.session), taken := e.taken + [e.session.queue[0]]), o, from, to);
  }

  lemma SubscribeStep(e: Endpoint, o: Endpoint, from: seq<Packet>, to: seq<Packet>)
    requires PairInv(e, o, from, to)
    ensures PairInv(e.(session := TakeId(e.session)), o, from, to)
  {
    TakeIdKeepsValid(e.session);
    TakeIdKeepsLists(e.session);
    QuietStep(e, e.(session := TakeId(e.session)), o, from, to);
  }

  /** The application takes the first message of the queue, and a SUBSCRIBE or UNSUBSCRIBE an id; neither sends anything
      that is modelled. */
  lemma QuietActions(w: World, s: Side)
    ensures var e, v := End(w, s), Step(w, DoTake(s));
            && (e.session.queue != [] ==>
                  && End(v, s).taken == e.taken + e.session.queue[..1] && End(v, s).arrived == e.arrived
                  && End(v, s).session.queue == e.session.queue[1..]
                  && QueueKey(e.session.queue[0].seqno) !in End(v, s).session.store)
            && End(v, s).log == e.log && Chan(v, s) == Chan(w, s) && Chan(v, Other(s)) == Chan(w, Other(s))
    ensures var e, v := End(w, s), Step(w, DoSubscribe(s));
            End(v, s) == e.(session := TakeId(e.session)) && Chan(v, s) == Chan(w, s)
  {
    hide TakeId;
    if End(w, s).session.queue != [] {
      assert End(w, s).session.queue[..1] == [End(w, s).session.queue[0]];
    }
  }

  // ---------- every step, every run ----------

  lemma ActKeepsInv(h: Half, o: Endpoint, a: Action)
    requires PairInv(h.end, o, h.from, h.to)
    ensures PairInv(Act(h, a).end, o, Act(h, a).from, Act(h, a).to)
  {
    hide PairInv, Lists, RetryOne, Restart, Publishes, Received, Reply, Deliver, TakeId, Push, CanPublish, Sendable;
    var e, from, to := h.end, h.from, h.to;
    match a
    case DoPublish(_, qos, retain, topic, payload, sent) =>
      if qos <= 2 && CanPublish(e.session) && Sendable(topic, payload) {
        PublishStep(e, o, from, to, qos, retain, topic, payload, sent);
      }
    case DoSubscribe(_) =>
      SubscribeStep(e, o, from, to);
    case DoRetry(_, i, sent) =>
      if i < |e.session.outbound| {
        RetryStep(e, o, from, to, i, sent);
      }
    case DoReceive(_, sent) =>
      if to != [] {
        ReceiveStep(e, o, from, to, sent);
      }
    case DoTake(_) =>
      if e.session.queue != [] {
        TakeStep(e, o, from, to);
      }
    case DoRestart(_, keys) =>
      if Lists(keys, e.session.store) {
        RestartStep(e, o, from, to, keys);
      }
    case DoDisconnect =>
  }

  lemma StepKeepsInv(w: World, a: Action)
    requires Inv(w)
    ensures Inv(Step(w, a))
  {
    if a == DoDisconnect {
      DisconnectStep(w.here, w.there, w.fromHere, w.fromThere);
    } else {
      var s := a.side;
      ActKeepsInv(Half(End(w, s), Chan(w, s), Chan(w, Other(s))), End(w, Other(s)), a);
    }
  }

  lemma {:induction false} RunKeepsInv(w: World, actions: seq<Action>)
    requires Inv(w)
    ensures Inv(Run(w, actions))
    decreases |actions|
  {
    if actions != [] {
      RunKeepsInv(w, actions[..|actions| - 1]);
      StepKeepsInv(Run(w, actions[..|actions| - 1]), actions[|actions| - 1]);
    }
  }

  // ---------- the queue ----------

  /** What has arrived is what the application has taken and what waits for it, in this order. */
  ghost predicate InOrder(e: Endpoint) {
    e.taken + e.session.queue == e.arrived
  }

  lemma QueueFollows(s: Session, p: Packet)
    ensures Handle(s, p).session.queue == s.queue + Handle(s, p).arrived
  {
    assert s.queue + [] == s.queue;
  }

  lemma ActKeepsOrder(h: Half, a: Action)
    requires Valid(h.end.session) && InOrder(h.end)
    ensures InOrder(Act(h, a).end)
  {
    hide Valid, Handle, Restart, StartPublish, RetryOne, Lists;
    var e := h.end;
    match a
    case DoReceive(_, _) =>
      if h.to != [] {
        QueueFollows(e.session, h.to[0]);
      }
    case DoTake(_) =>
      if e.session.queue != [] {
        assert e.session.queue == [e.session.queue[0]] + e.session.queue[1..];
      }
    case DoRestart(_, keys) =>
      if Lists(keys, e.session.store) {
        RestartRestoresQueue(e.session, keys);
      }
    case DoPublish(_, qos, retain, topic, payload, _) =>
      PublishKeepsQueue(e.session, qos, retain, Publication(topic, payload, |e.log|));
    case DoRetry(_, i, _) =>
      if i < |e.session.outbound| {
        RetryKeepsQueue(e.session, e.session.outbound[i]);
      }
    case DoSubscribe(_) =>
    case DoDisconnect =>
  }

  lemma PublishKeepsQueue(s: Session, qos: nat, retain: bool, pub: Publication)
    ensures StartPublish(s, qos, retain, pub).session.queue == s.queue
  {
  }

  lemma RetryKeepsQueue(s: Session, m: Message)
    ensures RetryOne(s, m).session.queue == s.queue
  {
  }

  lemma {:induction false} RunKeepsOrder(w: World, actions: seq<Action>)
    requires Inv(w) && InOrder(w.here) && InOrder(w.there)
    ensures InOrder(Run(w, actions).here) && InOrder(Run(w, actions).there)
    decreases |actions|
  {
    hide Act, L.Inv, InOrder;
    if actions != [] {
      var n := |actions| - 1;
      RunKeepsOrder(w, actions[..n]);
      RunKeepsInv(w, actions[..n]);
      var v, a := Run(w, actions[..n]), actions[n];
      if a != DoDisconnect {
        ActKeepsOrder(Half(End(v, a.side), Chan(v, a.side), Chan(v, Other(a.side))), a);
      }
    }
  }

  // ---------- exactly once ----------

  predicate Holds(e: Endpoint, serial: nat) {
    exists m :: m in e.session.outbound && m.pub.serial == serial
  }

  /** Arrival `j` is the QoS 2 publication with this serial number. */
  predicate ArrivesAt(to: Endpoint, j: nat, serial: nat) {
    j < |to.arrived| && to.arrived[j].qos == 2 && to.arrived[j].pub.serial == serial
  }

  ghost predicate ExactlyOnce(from: Endpoint, to: Endpoint) {
    // what arrives was published, with that topic and that payload
    && (forall j: nat :: j < |to.arrived| && to.arrived[j].qos == 2 ==>
          var n := to.arrived[j].pub.serial;
          n < |from.log| && from.log[n] == L.LogEntry(2, to.arrived[j].retain, to.arrived[j].pub))
    // nothing arrives twice
    && (forall j: nat, k: nat, n: nat :: ArrivesAt(to, j, n) && ArrivesAt(to, k, n) ==> j == k)
    // what the publisher has let go of has arrived
    && (forall n: nat :: n < |from.log| && from.log[n].qos == 2 && !Holds(from, n) ==> exists j :: ArrivesAt(to, j, n))
    // the application takes the arrivals once each, in their order
    && to.taken <= to.arrived
  }

  lemma LinkIsExactlyOnce(from: Endpoint, to: Endpoint, fwd: seq<Packet>, back: seq<Packet>)
    requires L.AtMostOnce(View(from, to, fwd, back)) && L.NoneLost(View(from, to, fwd, back))
    requires InOrder(to)
    ensures ExactlyOnce(from, to)
  {
    var l := View(from, to, fwd, back);
    forall j: nat, k: nat, n: nat | ArrivesAt(to, j, n) && ArrivesAt(to, k, n)
      ensures j == k
    {
      assert l.arrived[j].pub.serial == l.arrived[k].pub.serial;
    }
    forall n: nat | n < |from.log| && from.log[n].qos == 2 && !Holds(from, n)
      ensures exists j :: ArrivesAt(to, j, n)
    {
      assert !L.InFlight(l, n);
      var j :| 0 <= j < |l.arrived| && l.arrived[j].qos == 2 && l.arrived[j].pub.serial == n;
      assert ArrivesAt(to, j, n);
    }
  }

  /** Section 4.3.3 of MQTT 3.1.1, for every run of the two clients from their start. */
  lemma EveryRunIsExactlyOnce(limitHere: nat, limitThere: nat, actions: seq<Action>, w: World)
    requires w == Run(Start(limitHere, limitThere), actions)
    ensures forall s :: ExactlyOnce(End(w, s), End(w, Other(s)))
  {
    StartInv(limitHere, limitThere);
    RunKeepsOrder(Start(limitHere, limitThere), actions);
    RunKeepsInv(Start(limitHere, limitThere), actions);
    LinkIsExactlyOnce(w.here, w.there, w.fromHere, w.fromThere);
    LinkIsExactlyOnce(w.there, w.here, w.fromThere, w.fromHere);
  }

  // ---------- ids, the limit, and the store ----------

  lemma HandleKeepsLimit(s: Session, p: Packet)
    ensures Handle(s, p).session.maxInflight == s.maxInflight
  {
  }

  lemma ActKeepsLimit(h: Half, a: Action)
    ensures Act(h, a).end.session.maxInflight == h.end.session.maxInflight
  {
    hide Handle, RestoreQueueKeys, RestoreKeys, Lists, AssignedId;
    if a.DoReceive? && h.to != [] {
      HandleKeepsLimit(h.end.session, h.to[0]);
    }
  }

  lemma {:induction false} RunKeepsLimits(w: World, actions: seq<Action>)
    ensures Run(w, actions).here.session.maxInflight == w.here.session.maxInflight
    ensures Run(w, actions).there.session.maxInflight == w.there.session.maxInflight
    decreases |actions|
  {
    hide Act;
    if actions != [] {
      var n := |actions| - 1;
      RunKeepsLimits(w, actions[..n]);
      var v, a := Run(w, actions[..n]), actions[n];
      if a != DoDisconnect {
        ActKeepsLimit(Half(End(v, a.side), Chan(v, a.side), Chan(v, Other(a.side))), a);
      }
    }
  }

  /** The ids in flight are usable and distinct, and there are no more of them than the limit. */
  ghost predicate Usable(t: Session, limit: nat) {
    && DistinctIds(t.outbound) && DistinctIds(t.inbound)
    && |t.outbound| <= limit
    && (forall m :: m in t.outbound ==> 1 <= m.msgid <= MAX_MSG_ID)
  }

  /** Creating the client again over its store gives back both lists and the queue, whatever the order in which the
      keys are listed. */
  ghost predicate Recoverable(t: Session) {
    forall keys :: Lists(keys, t.store) ==>
      var r := Restart(t, keys);
      ById(r.outbound) == ById(t.outbound) && ById(r.inbound) == ById(t.inbound) && r.queue == t.queue
  }

  lemma EveryRunIsMirrored(limitHere: nat, limitThere: nat, actions: seq<Action>, w: World)
    requires w == Run(Start(limitHere, limitThere), actions)
    ensures forall s :: && Usable(End(w, s).session, if s == Here then limitHere else limitThere)
                        && Recoverable(End(w, s).session)
  {
    hide Step, L.Inv, Restart, Lists, Recoverable;
    StartInv(limitHere, limitThere);
    RunKeepsInv(Start(limitHere, limitThere), actions);
    RunKeepsLimits(Start(limitHere, limitThere), actions);
    ValidIsRecoverable(w.here.session);
    ValidIsRecoverable(w.there.session);
  }

  lemma ValidIsRecoverable(t: Session)
    requires Valid(t)
    ensures Recoverable(t)
  {
    forall keys | Lists(keys, t.store)
      ensures var r := Restart(t, keys);
              ById(r.outbound) == ById(t.outbound) && ById(r.inbound) == ById(t.inbound) && r.queue == t.queue
    {
      RestartRestoresLists(t, keys);
      RestartRestoresQueue(t, keys);
    }
  }

  /** In every run, with a limit below 65535, a publish that there is room for is given an id no message has. */
  lemma EveryPublishGetsId(limitHere: nat, limitThere: nat, actions: seq<Action>, w: World, s: Side)
    requires w == Run(Start(limitHere, limitThere), actions)
    requires limitHere < MAX_MSG_ID && limitThere < MAX_MSG_ID && CanPublish(End(w, s).session)
    ensures var t := End(w, s).session;
            var id := AssignedId(Ids(t.outbound), t.msgID);
            1 <= id <= MAX_MSG_ID && id !in Ids(t.outbound)
  {
    hide Step, L.Inv;
    StartInv(limitHere, limitThere);
    RunKeepsInv(Start(limitHere, limitThere), actions);
    RunKeepsLimits(Start(limitHere, limitThere), actions);
    RoomMeansId(End(w, s).session);
  }

  // ---------- a pass of retries is a run ----------

  /** The retries of the first `n` outbound messages that are due, one step each. */
  function RetryActions(s: Side, outbound: seq<Message>, due: set<nat>, n: nat): seq<Action>
    requires n <= |outbound|
  {
    if n == 0 then []
    else
      var before := RetryActions(s, outbound, due, n - 1);
      if outbound[n - 1].msgid in due then before + [DoRetry(s, n - 1, true)] else before
  }

  lemma RetryStepIs(w: World, s: Side, i: nat)
    requires i < |End(w, s).session.outbound|
    ensures var e := End(w, s);
            var f := RetryOne(e.session, e.session.outbound[i]);
            Step(w, DoRetry(s, i, true)) ==
              With(s, e.(session := f.session), Chan(w, s) + f.sent, End(w, Other(s)), Chan(w, Other(s)))
  {
    hide RetryOne;
  }

  lemma RetryKeepsOutbound(s: Session, m: Message)
    ensures RetryOne(s, m).session.outbound == s.outbound
  {
  }

  /** So what holds of every run holds after every pass of MQTTProtocol_retries. */
  lemma {:induction false} RetryPassIsRun(w: World, s: Side, due: set<nat>, n: nat)
    requires n <= |End(w, s).session.outbound|
    ensures var e := End(w, s);
            var f := RetryPass(e.session, due, n);
            && f.session.outbound == e.session.outbound
            && Run(w, RetryActions(s, e.session.outbound, due, n))
               == With(s, e.(session := f.session), Chan(w, s) + f.sent, End(w, Other(s)), Chan(w, Other(s)))
  {
    var e := End(w, s);
    if n == 0 {
      assert Chan(w, s) + [] == Chan(w, s);
    } else {
      RetryPassIsRun(w, s, due, n - 1);
      if e.session.outbound[n - 1].msgid in due {
        var f := RetryPass(e.session, due, n - 1);
        var g := RetryOne(f.session, e.session.outbound[n - 1]);
        RetryKeepsOutbound(f.session, e.session.outbound[n - 1]);
        var before := RetryActions(s, e.session.outbound, due, n - 1);
        assert (before + [DoRetry(s, n - 1, true)])[..|before|] == before;
        assert Chan(w, s) + f.sent + g.sent == Chan(w, s) + (f.sent + g.sent);
      }
    }
  }
}
