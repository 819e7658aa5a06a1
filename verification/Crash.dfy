/** Crashes between the two store writes of a handler. */
module Crash {
  // A handler with one write to the store has happened for the store or has not, so that a crash in it is a restart
  // before or after it. Two handlers have two writes: PUBREL puts the message on the stored queue and then removes
  // its record, and PUBCOMP removes the PUBLISH and then the PUBREL. With the crash the connection is lost, and all
  // that is under way.

  import opened Messages
  import opened SortedInsert
  import opened Restore
  import opened Sessions
  import opened SessionProofs
  import opened Delivery
  import opened Completion
  import L = Link

  // ---------- between the writes of PUBREL ----------

  /** The next packet for `s` is a PUBREL for a message it has stored. */
  ghost predicate ReceivesRelease(w: World, s: Side, id: nat) {
    var c, ms := Chan(w, Other(s)), End(w, s).session.inbound;
    c != [] && L.IsRel(c[0], id) && IndexOf(ms, id) < |ms|
  }

  function ReleasedBy(w: World, s: Side, id: nat): Message
    requires IndexOf(End(w, s).session.inbound, id) < |End(w, s).session.inbound|
  {
    End(w, s).session.inbound[IndexOf(End(w, s).session.inbound, id)]
  }

  /** The session, with its store, when the message is on the queue and its record is still there. */
  function HalfReleased(w: World, s: Side, id: nat): (Session, QEntry)
    requires IndexOf(End(w, s).session.inbound, id) < |End(w, s).session.inbound|
  {
    ProcessPublication(End(w, s).session, PublishOf(ReleasedBy(w, s, id), false))
  }

  /** The client of `s` handles the PUBREL, is gone between the two writes, and is created again over its store. */
  function CrashOnRelease(w: World, s: Side, id: nat, keys: seq<Key>): World
    requires IndexOf(End(w, s).session.inbound, id) < |End(w, s).session.inbound|
  {
    var e, (t, x) := End(w, s), HalfReleased(w, s, id);
    With(s, e.(session := Restart(t, keys), arrived := e.arrived + [x]), [], End(w, Other(s)), [])
  }

  // ---------- the world without the arrival of the crash ----------

  /** No handler reads the log of arrivals: one that is not in it changes nothing. */
  function InsertedAt(xs: seq<QEntry>, j: nat, x: QEntry): seq<QEntry>
    requires j <= |xs|
  {
    xs[..j] + [x] + xs[j..]
  }

  function WithArrival(w: World, s: Side, j: nat, x: QEntry): World
    requires j <= |End(w, s).arrived|
  {
    var e := End(w, s);
    With(s, e.(arrived := InsertedAt(e.arrived, j, x)), Chan(w, s), End(w, Other(s)), Chan(w, Other(s)))
  }

  lemma InsertThenAppend(xs: seq<QEntry>, j: nat, x: QEntry, more: seq<QEntry>)
    requires j <= |xs|
    ensures InsertedAt(xs, j, x) + more == InsertedAt(xs + more, j, x)
  {
    assert (xs + more)[..j] == xs[..j] && (xs + more)[j..] == xs[j..] + more;
  }

  lemma ActArrives(h: Half, a: Action)
    ensures h.end.arrived <= Act(h, a).end.arrived
  {
    hide Handle, Restart, StartPublish, RetryOne, Lists, CanPublish, Sendable;
  }

  lemma ActCommutes(h: Half, a: Action, j: nat, x: QEntry)
    requires j <= |h.end.arrived|
    ensures h.end.arrived <= Act(h, a).end.arrived
    ensures var g := h.(end := h.end.(arrived := InsertedAt(h.end.arrived, j, x)));
            var r := Act(h, a);
            Act(g, a) == r.(end := r.end.(arrived := InsertedAt(r.end.arrived, j, x)))
  {
    hide Handle, Restart, StartPublish, RetryOne, Lists, CanPublish, Sendable, InsertedAt;
    ActArrives(h, a);
    if a.DoReceive? && h.to != [] {
      InsertThenAppend(h.end.arrived, j, x, Handle(h.end.session, h.to[0]).arrived);
    }
  }

  lemma StepCommutes(w: World, a: Action, s: Side, j: nat, x: QEntry)
    requires j <= |End(w, s).arrived|
    ensures End(w, s).arrived <= End(Step(w, a), s).arrived
    ensures Step(WithArrival(w, s, j, x), a) == WithArrival(Step(w, a), s, j, x)
  {
    hide Act, InsertedAt;
    if a != DoDisconnect {
      var h := Half(End(w, a.side), Chan(w, a.side), Chan(w, Other(a.side)));
      if a.side == s {
        ActCommutes(h, a, j, x);
      }
    }
  }

  lemma {:induction false} RunCommutes(w: World, actions: seq<Action>, s: Side, j: nat, x: QEntry)
    requires j <= |End(w, s).arrived|
    ensures End(w, s).arrived <= End(Run(w, actions), s).arrived
    ensures Run(WithArrival(w, s, j, x), actions) == WithArrival(Run(w, actions), s, j, x)
    decreases |actions|
  {
    hide Step, WithArrival;
    if actions != [] {
      var n := |actions| - 1;
      RunCommutes(w, actions[..n], s, j, x);
      StepCommutes(Run(w, actions[..n]), actions[n], s, j, x);
    }
  }

  /** What the crash leaves, without its arrival: the message is on the queue and still stored. */
  function Uncounted(w: World, s: Side, id: nat, keys: seq<Key>): World
    requires IndexOf(End(w, s).session.inbound, id) < |End(w, s).session.inbound|
  {
    With(s, End(w, s).(session := Restart(HalfReleased(w, s, id).0, keys)), [], End(w, Other(s)), [])
  }

  lemma CrashIsUncounted(w: World, s: Side, id: nat, keys: seq<Key>)
    requires IndexOf(End(w, s).session.inbound, id) < |End(w, s).session.inbound|
    ensures |End(Uncounted(w, s, id, keys), s).arrived| == |End(w, s).arrived|
    ensures CrashOnRelease(w, s, id, keys)
         == WithArrival(Uncounted(w, s, id, keys), s, |End(w, s).arrived|, HalfReleased(w, s, id).1)
  {
    hide Restart, HalfReleased;
    var a, x := End(w, s).arrived, HalfReleased(w, s, id).1;
    assert InsertedAt(a, |a|, x) == a + [x];
  }

  lemma IsStoredPublish(m: Message)
    ensures PublishOf(m, false).Publish? && PublishOf(m, false).qos == m.qos && PublishOf(m, false).pub == m.pub
    ensures PublishOf(m, false).retain == m.retain
  {
  }

  lemma ProcessKeepsLists(s: Session, p: Packet)
    requires p.Publish?
    ensures var (t, x) := ProcessPublication(s, p);
            && t.outbound == s.outbound && t.inbound == s.inbound
            && x.qos == p.qos && x.pub == p.pub && x.retain == p.retain
  {
  }

  /** It keeps the invariant: the restart gives back both lists from the half-written store. */
  lemma UncountedKeepsInv(w: World, s: Side, id: nat, keys: seq<Key>)
    requires Inv(w) && ReceivesRelease(w, s, id) && Lists(keys, HalfReleased(w, s, id).0.store)
    ensures Inv(Uncounted(w, s, id, keys))
  {
    hide L.Inv, Restart, Lists, Valid, ProcessPublication, View, PublishOf;
    var e, o, t := End(w, s), End(w, Other(s)), HalfReleased(w, s, id).0;
    IsStoredPublish(ReleasedBy(w, s, id));
    ProcessKeepsValid(e.session, PublishOf(ReleasedBy(w, s, id), false));
    ProcessKeepsLists(e.session, PublishOf(ReleasedBy(w, s, id), false));
    RestartKeepsValid(t, keys);
    RestartRestoresLists(t, keys);
    DisconnectStep(e, o, Chan(w, s), Chan(w, Other(s)));
    QuietStep(e, e.(session := Restart(t, keys)), o, [], []);
  }

  // ---------- the sender waits for PUBCOMP from then on ----------

  /** If the message with this serial number is in flight, it waits for PUBCOMP. */
  ghost predicate OnlyWaits(ms: seq<Message>, n: nat) {
    forall m :: m in ms && m.pub.serial == n ==> m.qos == 2 && m.nextMessageType == PUBCOMP
  }

  lemma ReplacedMembers(ms: seq<Message>, m: Message)
    ensures forall x :: x in Replaced(ms, m) ==> x in ms || x == m
  {
  }

  lemma HandleOnlyWaits(t: Session, p: Packet, n: nat)
    requires OnlyWaits(t.outbound, n)
    ensures OnlyWaits(Handle(t, p).session.outbound, n)
  {
    hide Removed, Replaced, RemoveSent, PutRel, ProcessPublication, PublishOf;
    match p
    case Puback(id) => RemovedMembers(t.outbound, id);
    case Pubcomp(_, id) => RemovedMembers(t.outbound, id);
    case Pubrec(_, id) =>
      var i := IndexOf(t.outbound, id);
      if i < |t.outbound| {
        assert t.outbound[i] in t.outbound;
        ReplacedMembers(t.outbound, t.outbound[i].(nextMessageType := PUBCOMP));
      }
    case Publish(_, _, _, _, _) => ReceiverKeepsOutbound(t, p);
    case Pubrel(_, _) => ReceiverKeepsOutbound(t, p);
  }

  lemma ReceiverKeepsOutbound(t: Session, p: Packet)
    requires p.Publish? || p.Pubrel?
    ensures Handle(t, p).session.outbound == t.outbound
  {
  }

  lemma RestartOnlyWaits(t: Session, keys: seq<Key>, n: nat)
    requires Valid(t) && Lists(keys, t.store) && OnlyWaits(t.outbound, n)
    ensures OnlyWaits(Restart(t, keys).outbound, n)
  {
    hide Restart, Lists, ById, Listed, DistinctIds, Mirrored;
    var r := Restart(t, keys).outbound;
    RestartRestoresLists(t, keys);
    forall m | m in r && m.pub.serial == n
      ensures m.qos == 2 && m.nextMessageType == PUBCOMP
    {
      MemberById(r, m);
      MemberById(t.outbound, m);
    }
  }

  lemma PublishOnlyWaits(e: Endpoint, qos: nat, retain: bool, topic: seq<Byte>, payload: seq<Byte>, n: nat)
    requires OnlyWaits(e.session.outbound, n) && n < |e.log|
    ensures OnlyWaits(Publishes(e, qos, retain, topic, payload).0.session.outbound, n)
    ensures e.log <= Publishes(e, qos, retain, topic, payload).0.log
  {
  }

  lemma ActOnlyWaits(h: Half, a: Action, n: nat)
    requires Valid(h.end.session) && OnlyWaits(h.end.session.outbound, n) && n < |h.end.log|
    ensures OnlyWaits(Act(h, a).end.session.outbound, n) && h.end.log <= Act(h, a).end.log
  {
    hide Handle, Restart, Publishes, RetryOne, Lists, CanPublish, Sendable, Valid, OnlyWaits, Deliver, TakeId;
    var e := h.end;
    TakeIdKeepsLists(e.session);
    match a
    case DoPublish(_, qos, retain, topic, payload, _) =>
      PublishOnlyWaits(e, qos, retain, topic, payload, n);
    case DoReceive(_, _) =>
      if h.to != [] {
        HandleOnlyWaits(e.session, h.to[0], n);
      }
    case DoRestart(_, keys) =>
      if Lists(keys, e.session.store) {
        RestartOnlyWaits(e.session, keys, n);
      }
    case DoRetry(_, i, _) =>
      if i < |e.session.outbound| {
        RetryKeepsLists(e.session, e.session.outbound[i]);
      }
    case DoTake(_) =>
      if e.session.queue != [] {
        DeliverKeepsLists(e.session);
      }
    case DoSubscribe(_) =>
    case DoDisconnect =>
  }

  lemma SessionIsValid(w: World, s: Side)
    requires Inv(w)
    ensures Valid(End(w, s).session)
  {
  }

  lemma {:induction false} RunOnlyWaits(w: World, actions: seq<Action>, s: Side, n: nat)
    requires Inv(w) && OnlyWaits(End(w, s).session.outbound, n) && n < |End(w, s).log|
    ensures OnlyWaits(End(Run(w, actions), s).session.outbound, n) && End(w, s).log <= End(Run(w, actions), s).log
    decreases |actions|
  {
    hide Act, Inv, OnlyWaits;
    if actions != [] {
      var k := |actions| - 1;
      RunOnlyWaits(w, actions[..k], s, n);
      RunKeepsInv(w, actions[..k]);
      var v, a := Run(w, actions[..k]), actions[k];
      SessionIsValid(v, s);
      if a != DoDisconnect && a.side == s {
        ActOnlyWaits(Half(End(v, s), Chan(v, s), Chan(v, Other(s))), a, n);
      }
    }
  }

  // ---------- what the crash does ----------

  /** Under the invariant a PUBREL comes for a message that its sender still holds and that has not arrived. */
  lemma ReleaseIsAnswer(l: L.Link, id: nat)
    requires L.Inv(l) && l.fwd != [] && L.IsRel(l.fwd[0], id) && id in l.inb
    ensures var n := l.inb[id].pub.serial;
            && id in l.out && l.out[id].qos == 2 && l.out[id].nextMessageType != PUBREC
            && l.out[id].pub == l.inb[id].pub
            && L.Logged(l.log, 2, l.inb[id].retain, l.inb[id].pub)
            && !L.IsDelivered(l.arrived, n)
            && forall i :: i in l.out && l.out[i].pub.serial == n ==> i == id
  {
    assert L.Exchange(l, id);
  }

  /** A stored message has not arrived. */
  lemma StoredIsNotDelivered(l: L.Link, n: nat)
    requires L.Inv(l) && exists id :: id in l.inb && l.inb[id].pub.serial == n
    ensures !L.IsDelivered(l.arrived, n)
  {
    var id :| id in l.inb && l.inb[id].pub.serial == n;
    assert L.Exchange(l, id);
  }

  /** A message that its sender has released and that is not stored has arrived. */
  lemma ReleasedIsDelivered(l: L.Link, n: nat)
    requires L.Inv(l) && n < |l.log| && l.log[n].qos == 2
    requires forall id :: id in l.out && l.out[id].pub.serial == n ==>
               l.out[id].qos == 2 && l.out[id].nextMessageType == PUBCOMP
    requires forall id :: id in l.inb ==> l.inb[id].pub.serial != n
    ensures L.IsDelivered(l.arrived, n)
  {
    if L.InFlight(l, n) {
      var id :| id in l.out && l.out[id].pub.serial == n;
      assert L.Exchange(l, id);
    }
  }

  /** A message with this serial number is stored and waits for its PUBREL. */
  ghost predicate IsStored(e: Endpoint, n: nat) {
    exists m :: m in e.session.inbound && m.pub.serial == n
  }

  /** What is so at the crash: its arrival is a message that was published, has not arrived before and is held by its
      sender, which waits for PUBCOMP. */
  lemma AtTheCrash(w: World, s: Side, id: nat)
    requires Inv(w) && ReceivesRelease(w, s, id)
    ensures var m, x, o := ReleasedBy(w, s, id), HalfReleased(w, s, id).1, End(w, Other(s));
            && x.qos == 2 && x.pub == m.pub && m.pub.serial < |o.log|
            && o.log[m.pub.serial] == L.LogEntry(2, x.retain, x.pub)
            && OnlyWaits(o.session.outbound, m.pub.serial) && Waits(LinkFrom(w, Other(s)).out, id)
            && id in LinkFrom(w, Other(s)).inb && LinkFrom(w, Other(s)).inb[id] == m
  {
    hide L.Inv, ProcessPublication, PublishOf, Inv, ById, ValidLists, OnlyWaits, IndexOf, DistinctIds, L.IsDelivered;
    var m := ReleasedBy(w, s, id);
    WorldFacts(w, Other(s));
    StoredAt(End(w, s).session.inbound, id);
    StoredQos(LinkFrom(w, Other(s)), id);
    IsStoredPublish(m);
    ProcessKeepsLists(End(w, s).session, PublishOf(m, false));
    ReleaseIsAnswer(LinkFrom(w, Other(s)), id);
    InFlightFacts(w, Other(s), id);
    SerialIsOf(End(w, Other(s)).session.outbound, id, m.pub.serial);
  }

  lemma StoredAt(ms: seq<Message>, id: nat)
    requires DistinctIds(ms) && IndexOf(ms, id) < |ms|
    ensures id in ById(ms) && ById(ms)[id] == ms[IndexOf(ms, id)]
  {
    ByIdAt(ms, IndexOf(ms, id));
  }

  lemma SerialIsOf(ms: seq<Message>, id: nat, n: nat)
    requires DistinctIds(ms) && Waits(ById(ms), id)
    requires forall i :: i in ById(ms) && ById(ms)[i].pub.serial == n ==> i == id
    ensures OnlyWaits(ms, n)
  {
    forall y | y in ms && y.pub.serial == n
      ensures y.qos == 2 && y.nextMessageType == PUBCOMP
    {
      MemberById(ms, y);
    }
  }

  lemma StoredQos(l: L.Link, id: nat)
    requires L.Inv(l) && id in l.inb
    ensures l.inb[id].qos == 2 && l.inb[id].nextMessageType == PUBREL && l.inb[id].msgid == id
  {
  }

  /** After the crash nothing is lost, what arrives was published, and nothing arrives twice but the one message: with
      this serial number there is the arrival of the crash, at `j`, and no more than one other. */
  ghost predicate OnceButFor(from: Endpoint, to: Endpoint, j: nat, n: nat) {
    && ArrivesAt(to, j, n)
    && (forall i: nat, k: nat, m: nat :: i != k && ArrivesAt(to, i, m) && ArrivesAt(to, k, m) ==> m == n && j in {i, k})
    && (forall k: nat :: k < |to.arrived| && to.arrived[k].qos == 2 ==>
          var m := to.arrived[k].pub.serial;
          m < |from.log| && from.log[m] == L.LogEntry(2, to.arrived[k].retain, to.arrived[k].pub))
    && (forall m: nat :: m < |from.log| && from.log[m].qos == 2 && !Holds(from, m) ==> exists k :: ArrivesAt(to, k, m))
  }

  ghost predicate ArrivesTwice(to: Endpoint, j: nat, n: nat) {
    exists k :: k != j && ArrivesAt(to, j, n) && ArrivesAt(to, k, n)
  }

  /** The logs with and without the arrival of the crash. */
  lemma ArrivalsAre(u: Endpoint, r: Endpoint, j: nat, x: QEntry)
    requires j <= |u.arrived| && r.arrived == InsertedAt(u.arrived, j, x)
    ensures x.qos == 2 ==> ArrivesAt(r, j, x.pub.serial)
    ensures forall k: nat, m: nat :: k < j ==> (ArrivesAt(r, k, m) <==> ArrivesAt(u, k, m))
    ensures forall k: nat, m: nat :: k > j ==> (ArrivesAt(r, k, m) <==> ArrivesAt(u, k - 1, m))
    ensures forall k: nat, m: nat :: ArrivesAt(u, k, m) ==> ArrivesAt(r, if k < j then k else k + 1, m)
    ensures forall y :: y in r.arrived ==> y == x || y in u.arrived
  {
  }

  lemma OnceAfterCrash(from: Endpoint, u: Endpoint, r: Endpoint, l: L.Link, j: nat, x: QEntry)
    requires L.AtMostOnce(l) && L.NoneLost(l) && l.arrived == u.arrived && l.log == from.log
    requires l.out == ById(from.session.outbound) && DistinctIds(from.session.outbound)
    requires j <= |u.arrived| && r.arrived == InsertedAt(u.arrived, j, x) && x.qos == 2
    requires x.pub.serial < |from.log| && from.log[x.pub.serial] == L.LogEntry(2, x.retain, x.pub)
    ensures OnceButFor(from, r, j, x.pub.serial)
    ensures ArrivesTwice(r, j, x.pub.serial) <==> L.IsDelivered(l.arrived, x.pub.serial)
  {
    hide ById, InsertedAt, ArrivesAt;
    ArrivalsAre(u, r, j, x);
    AtMostOnceIn(l, u);
    var n := x.pub.serial;
    forall i: nat, k: nat, m: nat | i != k && ArrivesAt(r, i, m) && ArrivesAt(r, k, m)
      ensures m == n && j in {i, k}
    {
      if j in {i, k} {
        OneSerial(r, j, m, n);
      }
    }
    forall m: nat | m < |from.log| && from.log[m].qos == 2 && !Holds(from, m)
      ensures exists k :: ArrivesAt(r, k, m)
    {
      NotInFlight(from, l, m);
      var k: nat :| ArrivesAt(u, k, m);
      assert ArrivesAt(r, if k < j then k else k + 1, m);
    }
    forall k: nat | k < |r.arrived| && r.arrived[k].qos == 2
      ensures L.Logged(from.log, 2, r.arrived[k].retain, r.arrived[k].pub)
    {
      assert r.arrived[k] in r.arrived;
    }
    if k: nat :| ArrivesAt(u, k, n) {
      assert ArrivesAt(r, if k < j then k else k + 1, n);
    }
    if ArrivesTwice(r, j, n) {
      var k: nat :| k != j && ArrivesAt(r, k, n);
      assert ArrivesAt(u, if k < j then k else k - 1, n);
    }
  }

  lemma OneSerial(r: Endpoint, j: nat, m: nat, n: nat)
    requires ArrivesAt(r, j, m) && ArrivesAt(r, j, n)
    ensures m == n
  {
  }

  /** The invariant of the link, said of the endpoint. */
  lemma AtMostOnceIn(l: L.Link, u: Endpoint)
    requires L.AtMostOnce(l) && L.NoneLost(l) && l.arrived == u.arrived
    ensures forall i: nat, k: nat, m: nat :: ArrivesAt(u, i, m) && ArrivesAt(u, k, m) ==> i == k
    ensures forall m: nat :: L.IsDelivered(l.arrived, m) <==> exists k :: ArrivesAt(u, k, m)
    ensures forall y :: y in u.arrived && y.qos == 2 ==> L.Logged(l.log, 2, y.retain, y.pub)
    ensures forall m: nat :: m < |l.log| && l.log[m].qos == 2 && !L.InFlight(l, m) ==> exists k :: ArrivesAt(u, k, m)
  {
    forall i: nat, k: nat, m: nat | ArrivesAt(u, i, m) && ArrivesAt(u, k, m)
      ensures i == k
    {
      assert l.arrived[i].pub.serial == l.arrived[k].pub.serial;
    }
    forall m: nat
      ensures L.IsDelivered(l.arrived, m) <==> exists k :: ArrivesAt(u, k, m)
    {
      if L.IsDelivered(l.arrived, m) {
        var k :| 0 <= k < |l.arrived| && l.arrived[k].qos == 2 && l.arrived[k].pub.serial == m;
        assert ArrivesAt(u, k, m);
      }
    }
  }

  lemma NotInFlight(from: Endpoint, l: L.Link, m: nat)
    requires l.out == ById(from.session.outbound) && DistinctIds(from.session.outbound) && !Holds(from, m)
    ensures !L.InFlight(l, m)
  {
  }

  lemma LinkParts(w: World, s: Side)
    requires Inv(w)
    ensures var l := LinkFrom(w, s);
            && L.AtMostOnce(l) && L.NoneLost(l) && l.arrived == End(w, Other(s)).arrived && l.log == End(w, s).log
            && l.out == ById(End(w, s).session.outbound) && DistinctIds(End(w, s).session.outbound)
  {
    hide Valid;
    WorldFacts(w, s);
  }

  /** Whether the message has arrived in the log without the crash is whether it has left the inbound list. */
  lemma DeliveredIffNotStored(w: World, s: Side, n: nat)
    requires Inv(w) && OnlyWaits(End(w, Other(s)).session.outbound, n)
    requires n < |End(w, Other(s)).log| && End(w, Other(s)).log[n].qos == 2
    ensures L.IsDelivered(End(w, s).arrived, n) <==> !IsStored(End(w, s), n)
  {
    hide Inv, ById, L.Inv, L.IsDelivered;
    WorldFacts(w, Other(s));
    var l, ms, out := LinkFrom(w, Other(s)), End(w, s).session.inbound, End(w, Other(s)).session.outbound;
    if IsStored(End(w, s), n) {
      var m :| m in ms && m.pub.serial == n;
      MemberById(ms, m);
      assert m.msgid in l.inb;
      StoredIsNotDelivered(l, n);
    } else {
      forall id | id in l.inb
        ensures l.inb[id].pub.serial != n
      {
        InboundAt(ms, id);
      }
      forall id | id in l.out && l.out[id].pub.serial == n
        ensures l.out[id].qos == 2 && l.out[id].nextMessageType == PUBCOMP
      {
        InboundAt(out, id);
      }
      ReleasedIsDelivered(l, n);
    }
  }

  lemma InboundAt(ms: seq<Message>, id: nat)
    requires DistinctIds(ms) && id in ById(ms)
    ensures ById(ms)[id] in ms
  {
    ByIdAt(ms, IndexOf(ms, id));
  }

  lemma WithArrivalEnds(w: World, s: Side, j: nat, x: QEntry)
    requires j <= |End(w, s).arrived|
    ensures var r := WithArrival(w, s, j, x);
            && End(r, s) == End(w, s).(arrived := InsertedAt(End(w, s).arrived, j, x))
            && End(r, Other(s)) == End(w, Other(s))
  {
  }

  lemma UncountedEnds(w: World, s: Side, id: nat, keys: seq<Key>)
    requires IndexOf(End(w, s).session.inbound, id) < |End(w, s).session.inbound|
    ensures End(Uncounted(w, s, id, keys), Other(s)) == End(w, Other(s))
  {
  }

  lemma AfterCrash(w: World, s: Side, id: nat, keys: seq<Key>, actions: seq<Action>, r: World)
    requires Inv(w) && ReceivesRelease(w, s, id)
    requires Lists(keys, HalfReleased(w, s, id).0.store) && r == Run(CrashOnRelease(w, s, id, keys), actions)
    ensures var j, n := |End(w, s).arrived|, ReleasedBy(w, s, id).pub.serial;
            && OnceButFor(End(r, Other(s)), End(r, s), j, n)
            && (ArrivesTwice(End(r, s), j, n) <==> !IsStored(End(r, s), n))
  {
    hide Inv, Step, Restart, Lists, HalfReleased, OnlyWaits, OnceButFor, ArrivesTwice, L.AtMostOnce, L.NoneLost,
         L.IsDelivered, Uncounted, CrashOnRelease, WithArrival, LinkFrom, InsertedAt, End, Waits, ReleasedBy, IndexOf;
    AtTheCrash(w, s, id);
    var j, n, x := |End(w, s).arrived|, ReleasedBy(w, s, id).pub.serial, HalfReleased(w, s, id).1;
    var v := Uncounted(w, s, id, keys);
    UncountedKeepsInv(w, s, id, keys);
    CrashIsUncounted(w, s, id, keys);
    UncountedEnds(w, s, id, keys);
    RunCommutes(v, actions, s, j, x);
    RunKeepsInv(v, actions);
    RunOnlyWaits(v, actions, Other(s), n);
    var u := Run(v, actions);
    WithArrivalEnds(u, s, j, x);
    LinkParts(u, Other(s));
    DeliveredIffNotStored(u, s, n);
    OnceAfterCrash(End(u, Other(s)), End(u, s), End(r, s), LinkFrom(u, Other(s)), j, x);
  }

  /** After any run, a crash between the two writes, and any run from then on: section 4.3.3 of MQTT 3.1.1 holds but for
      the one message, and that arrives twice exactly when it has left the inbound list, so when another PUBREL for it
      has been handled. */
  lemma TwiceIffReleasedAgain(limitHere: nat, limitThere: nat, before: seq<Action>, w: World, s: Side, id: nat,
                              keys: seq<Key>, actions: seq<Action>, r: World)
    requires w == Run(Start(limitHere, limitThere), before) && ReceivesRelease(w, s, id)
    requires Lists(keys, HalfReleased(w, s, id).0.store) && r == Run(CrashOnRelease(w, s, id, keys), actions)
    ensures var j, n := |End(w, s).arrived|, ReleasedBy(w, s, id).pub.serial;
            && OnceButFor(End(r, Other(s)), End(r, s), j, n)
            && (ArrivesTwice(End(r, s), j, n) <==> !IsStored(End(r, s), n))
  {
    hide Inv, Step, Restart, Lists, HalfReleased, OnceButFor, ArrivesTwice, IsStored, ReceivesRelease;
    StartInv(limitHere, limitThere);
    RunKeepsInv(Start(limitHere, limitThere), before);
    AfterCrash(w, s, id, keys, actions, r);
  }

  // ---------- and it does happen ----------

  lemma ReleaseArrives(t: Session, id: nat)
    requires DistinctIds(t.inbound) && id in ById(t.inbound)
    requires ById(t.inbound)[id].qos == 2 && ById(t.inbound)[id].nextMessageType == PUBREL
    ensures var a := Handle(t, Pubrel(false, id)).arrived;
            |a| == 1 && a[0].qos == 2 && a[0].pub == ById(t.inbound)[id].pub
  {
    hide ById, ProcessPublication, PublishOf;
    StoredIn(t.inbound, id);
    IsStoredPublish(t.inbound[IndexOf(t.inbound, id)]);
    ProcessKeepsLists(t, PublishOf(t.inbound[IndexOf(t.inbound, id)], false));
  }

  lemma StoredIn(ms: seq<Message>, id: nat)
    requires DistinctIds(ms) && id in ById(ms)
    ensures IndexOf(ms, id) < |ms| && ms[IndexOf(ms, id)] == ById(ms)[id]
  {
    ByIdAt(ms, IndexOf(ms, id));
  }

  lemma ReleaseReceived(w: World, s: Side, id: nat)
    requires Inv(w) && Chan(w, Other(s)) == [Pubrel(false, id)] && id in LinkFrom(w, Other(s)).inb
    ensures var n, r := LinkFrom(w, Other(s)).inb[id].pub.serial, End(Step(w, DoReceive(s, false)), s);
            End(w, s).arrived <= r.arrived && ArrivesAt(r, |End(w, s).arrived|, n)
  {
    hide Inv, ById, Handle, ValidLists, L.Inv;
    WorldFacts(w, Other(s));
    StoredQos(LinkFrom(w, Other(s)), id);
    ReleaseArrives(End(w, s).session, id);
  }

  /** Without the arrival of the crash: the sender retries its PUBREL, and the message arrives. */
  lemma RetryArrives(v: World, s: Side, id: nat)
    requires Inv(v) && Chan(v, Other(s)) == [] && Waits(LinkFrom(v, Other(s)).out, id)
             && id in LinkFrom(v, Other(s)).inb
    ensures var i := IndexOf(End(v, Other(s)).session.outbound, id);
            var u := Run(v, [DoRetry(Other(s), i, true), DoReceive(s, false)]);
            ArrivesAt(End(u, s), |End(v, s).arrived|, LinkFrom(v, Other(s)).inb[id].pub.serial)
  {
    hide Inv, Step, Waits, ById;
    var i := IndexOf(End(v, Other(s)).session.outbound, id);
    var retry := DoRetry(Other(s), i, true);
    RetrySendsRelease(v, Other(s), id, i);
    StepKeepsInv(v, retry);
    ReleaseReceived(Step(v, retry), s, id);
    RunOne(v, retry);
    RunOn(v, [retry], [DoReceive(s, false)]);
    RunOne(Step(v, retry), DoReceive(s, false));
    assert [retry] + [DoReceive(s, false)] == [retry, DoReceive(s, false)];
  }

  /** After the crash, one retry of the sender is enough for a second arrival. */
  lemma RetryDeliversAgain(limitHere: nat, limitThere: nat, before: seq<Action>, w: World, s: Side, id: nat,
                           keys: seq<Key>, r: World)
    requires w == Run(Start(limitHere, limitThere), before) && ReceivesRelease(w, s, id)
    requires Lists(keys, HalfReleased(w, s, id).0.store)
    requires var i := IndexOf(End(w, Other(s)).session.outbound, id);
             r == Run(CrashOnRelease(w, s, id, keys), [DoRetry(Other(s), i, true), DoReceive(s, false)])
    ensures ArrivesTwice(End(r, s), |End(w, s).arrived|, ReleasedBy(w, s, id).pub.serial)
  {
    hide Inv, Step, Waits, ById, Lists, InsertedAt, Restart, HalfReleased, ReceivesRelease, ArrivesAt;
    StartInv(limitHere, limitThere);
    RunKeepsInv(Start(limitHere, limitThere), before);
    AtTheCrash(w, s, id);
    var j, x, v := |End(w, s).arrived|, HalfReleased(w, s, id).1, Uncounted(w, s, id, keys);
    UncountedKeepsInv(w, s, id, keys);
    UncountedLink(w, s, id, keys);
    RetryArrives(v, s, id);
    var actions := [DoRetry(Other(s), IndexOf(End(w, Other(s)).session.outbound, id), true), DoReceive(s, false)];
    CrashIsUncounted(w, s, id, keys);
    RunCommutes(v, actions, s, j, x);
    WithArrivalEnds(Run(v, actions), s, j, x);
    ArrivalsAre(End(Run(v, actions), s), End(r, s), j, x);
    assert ArrivesAt(End(r, s), j + 1, x.pub.serial);
  }

  lemma UncountedLists(w: World, s: Side, id: nat, keys: seq<Key>)
    requires Inv(w) && ReceivesRelease(w, s, id) && Lists(keys, HalfReleased(w, s, id).0.store)
    ensures var e, e' := End(w, s), End(Uncounted(w, s, id, keys), s);
            ById(e'.session.outbound) == ById(e.session.outbound) && ById(e'.session.inbound) == ById(e.session.inbound)
            && e'.log == e.log && e'.arrived == e.arrived
  {
    hide L.Inv, Restart, Lists, ProcessPublication, PublishOf, Mirrored, ById, Valid;
    var t := HalfReleased(w, s, id).0;
    SessionIsValid(w, s);
    IsStoredPublish(ReleasedBy(w, s, id));
    ProcessKeepsValid(End(w, s).session, PublishOf(ReleasedBy(w, s, id), false));
    ProcessKeepsLists(End(w, s).session, PublishOf(ReleasedBy(w, s, id), false));
    RestartRestoresLists(t, keys);
  }

  lemma UncountedLink(w: World, s: Side, id: nat, keys: seq<Key>)
    requires Inv(w) && ReceivesRelease(w, s, id) && Lists(keys, HalfReleased(w, s, id).0.store)
    ensures var v := Uncounted(w, s, id, keys);
            && LinkFrom(v, Other(s)).out == LinkFrom(w, Other(s)).out
            && LinkFrom(v, Other(s)).inb == LinkFrom(w, Other(s)).inb
            && Chan(v, s) == [] && Chan(v, Other(s)) == [] && End(v, Other(s)) == End(w, Other(s))
  {
    hide L.Inv, Restart, Lists, HalfReleased, Mirrored, ById, Inv;
    UncountedLists(w, s, id, keys);
    UncountedEnds(w, s, id, keys);
  }

  /** Three actions lead to such a PUBREL, for any topic and payload. */
  lemma FirstReleaseCanCrash(limitHere: nat, limitThere: nat, retain: bool, topic: seq<Byte>, payload: seq<Byte>,
                             w: World)
    requires limitHere > 0 && Sendable(topic, payload)
    requires w == Run(Start(limitHere, limitThere), [DoPublish(Here, 2, retain, topic, payload, true),
                                                     DoReceive(There, true), DoReceive(Here, true)])
    ensures ReceivesRelease(w, There, 1)
  {
    hide Step;
    var a, b, c := DoPublish(Here, 2, retain, topic, payload, true), DoReceive(There, true), DoReceive(Here, true);
    var v := FirstReleaseIsSent(limitHere, limitThere, retain, topic, payload);
    var w0 := Start(limitHere, limitThere);
    RunOne(w0, a);
    RunOn(w0, [a], [b]);
    RunOne(Step(w0, a), b);
    RunOn(w0, [a] + [b], [c]);
    RunOne(Step(Step(w0, a), b), c);
    assert [a] + [b] + [c] == [a, b, c];
    assert IndexOf(v.there.session.inbound, 1) == 0;
  }

  // ---------- between the writes of PUBCOMP ----------

  /** The store when the PUBLISH is removed and the PUBREL is not. */
  function HalfCompleted(store: Store, id: nat): Store {
    store - {SentKey(id)}
  }

  function Skipping(keys: seq<Key>, k: Key): (rest: seq<Key>)
    ensures forall x :: x in rest <==> x in keys && x != k
    decreases |keys|
  {
    if keys == [] then []
    else
      var n := |keys| - 1;
      var rest := Skipping(keys[..n], k);
      assert keys == keys[..n] + [keys[n]];
      if keys[n] == k then rest else rest + [keys[n]]
  }

  lemma {:induction false} SkippingRepeatsNothing(keys: seq<Key>, k: Key)
    requires NoRepeats(keys)
    ensures NoRepeats(Skipping(keys, k))
    decreases |keys|
  {
    if keys != [] {
      var n := |keys| - 1;
      SkippingRepeatsNothing(keys[..n], k);
      assert keys[n] !in keys[..n];
    }
  }

  /** What the records of the store are like, once the message is completed. */
  ghost predicate Released(store: Store) {
    && (forall id :: SentKey(id) in store ==>
          store[SentKey(id)].PacketRecord? && store[SentKey(id)].packet.Publish?
          && store[SentKey(id)].packet.msgId == id)
    && (forall id :: RelKey(id) in store ==>
          SentKey(id) in store && store[RelKey(id)] == PacketRecord(Pubrel(false, id)))
  }

  /** The two stores, the one with the PUBREL that is left and the one without. */
  ghost predicate IsOrphan(half: Store, done: Store, id: nat) {
    && done == half - {RelKey(id)} && SentKey(id) !in half && Released(done)
    && RelKey(id) in half && half[RelKey(id)] == PacketRecord(Pubrel(false, id))
  }

  /** Another key than that of the PUBREL does the same with both. */
  lemma SameForBoth(half: Store, done: Store, id: nat, a: InFlight, b: InFlight, k: Key)
    requires IsOrphan(half, done, id) && k != RelKey(id) && k in a.store
    requires a.outbound == b.outbound && a.inbound == b.inbound && b.store == done && a.store in {half, done}
    ensures k in done
    ensures var x, y := RestoreKey(a, k), RestoreKey(b, k);
            x.outbound == y.outbound && x.inbound == y.inbound && y.store == done && x.store == a.store
  {
    hide InsertInOrder, CreateMessage;
    assert a.store[k] == done[k];
    match k
    case SentKey(i) =>
      assert i != id;
      assert RelKey(i) in a.store <==> RelKey(i) in done;
    case RelKey(i) =>
      assert SentKey(i) in done && SentKey(i) in a.store;
    case RecvKey(_) =>
    case QueueKey(_) =>
  }

  lemma OrphanGoes(half: Store, done: Store, id: nat, a: InFlight)
    requires IsOrphan(half, done, id) && a.store == half
    ensures RelKey(id) in half && RestoreKey(a, RelKey(id)) == a.(store := done)
  {
  }

  lemma {:induction false} OrphanIsDropped(half: Store, done: Store, id: nat, keys: seq<Key>)
    requires IsOrphan(half, done, id)
    ensures var a, b := RestoreKeys(half, keys), RestoreKeys(done, Skipping(keys, RelKey(id)));
            && a.outbound == b.outbound && a.inbound == b.inbound && b.store == done
            && a.store == if RelKey(id) in keys then done else half
    decreases |keys|
  {
    hide RestoreKey, RestoreKeys, IsOrphan;
    if keys == [] {
      NoKeys(half);
      NoKeys(done);
    } else {
      var n := |keys| - 1;
      var k, rest := keys[n], Skipping(keys[..n], RelKey(id));
      var a, b := RestoreKeys(half, keys[..n]), RestoreKeys(done, rest);
      OrphanIsDropped(half, done, id, keys[..n]);
      assert keys == keys[..n] + [k];
      OneMoreKey(half, keys[..n], k);
      KeysOfBoth(half, done, id, k);
      if k == RelKey(id) {
        if a.store == half {
          OrphanGoes(half, done, id, a);
        }
      } else {
        OneMoreKey(done, rest, k);
        if k in a.store {
          SameForBoth(half, done, id, a, b, k);
        }
      }
    }
  }

  lemma NoKeys(store: Store)
    ensures RestoreKeys(store, []) == InFlight(store, [], [])
  {
  }

  lemma OneMoreKey(store: Store, keys: seq<Key>, k: Key)
    ensures var r := RestoreKeys(store, keys);
            RestoreKeys(store, keys + [k]) == if k in r.store then RestoreKey(r, k) else r
  {
    hide RestoreKey;
    assert (keys + [k])[..|keys|] == keys;
  }

  lemma KeysOfBoth(half: Store, done: Store, id: nat, k: Key)
    requires IsOrphan(half, done, id)
    ensures RelKey(id) in half && (k in done <==> k in half && k != RelKey(id))
  {
  }

  lemma {:induction false} QueueWithoutOrphan(half: Store, done: Store, id: nat, keys: seq<Key>)
    requires done == half - {RelKey(id)}
    ensures RestoreQueueKeys(half, keys) == RestoreQueueKeys(done, Skipping(keys, RelKey(id)))
    decreases |keys|
  {
    hide InsertInOrder;
    if keys != [] {
      var n := |keys| - 1;
      QueueWithoutOrphan(half, done, id, keys[..n]);
      var rest := Skipping(keys[..n], RelKey(id));
      assert (rest + [keys[n]])[..|rest|] == rest;
    }
  }

  /** A crash between these writes is a crash after them: the restart drops the PUBREL that is left. */
  lemma CompletionCrashIsHarmless(t: Session, id: nat, keys: seq<Key>)
    requires Valid(t) && Waits(ById(t.outbound), id) && Lists(keys, HalfCompleted(t.store, id))
    ensures var done := HandlePubcomp(t, id).session;
            && Lists(Skipping(keys, RelKey(id)), done.store)
            && Restart(t.(store := HalfCompleted(t.store, id)), keys) == Restart(done, Skipping(keys, RelKey(id)))
  {
    hide RestoreKeys, RestoreQueueKeys, WrapMsgID, ById;
    WaitsAt(t.outbound, id);
    HandlePubcompKeepsValid(t, id);
    var half, done := HalfCompleted(t.store, id), HandlePubcomp(t, id).session;
    CompletedStore(t, id);
    SkippingRepeatsNothing(keys, RelKey(id));
    OrphanIsDropped(half, done.store, id, keys);
    QueueWithoutOrphan(half, done.store, id, keys);
  }

  lemma OrphanIsLeft(out: map<nat, Message>, store: Store, id: nat)
    requires SentMirrored(out, store) && Waits(out, id)
    ensures IsOrphan(HalfCompleted(store, id), RemoveSent(store, 2, id), id)
  {
  }

  lemma CompletedStore(t: Session, id: nat)
    requires Valid(t) && Waits(ById(t.outbound), id)
    ensures var half, done := HalfCompleted(t.store, id), HandlePubcomp(t, id).session;
            IsOrphan(half, done.store, id) && done.maxInflight == t.maxInflight
  {
    hide ById, Removed, SentMirrored, RecvMirrored, QueueMirrored, IsOrphan, HalfCompleted, RemoveSent;
    WaitsAt(t.outbound, id);
    OrphanIsLeft(ById(t.outbound), t.store, id);
  }
}
