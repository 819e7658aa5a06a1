/** When a QoS 1 message can be lost. */
module StaleIds {
  // A PUBLISH that is sent again is acknowledged again. If the id of the message is given out anew while one of these
  // packets is still under way, the old acknowledgement ends the new exchange, and the new message need not have
  // arrived.

  import opened Messages
  import opened Restore
  import opened Sessions
  import opened SessionProofs
  import opened Delivery
  import opened Completion
  import opened LowQos
  import opened LowDelivery
  import L = Link

  /** A QoS 1 message in flight. */
  ghost predicate Holds1(out: map<nat, Message>, id: nat) {
    id in out && out[id].qos == 1
  }

  /** The messages in flight are some of those before. */
  ghost predicate Fewer(out: map<nat, Message>, out': map<nat, Message>) {
    forall x :: x in out' ==> x in out && out'[x].pub == out[x].pub
  }

  lemma SenderReceives(w: World, s: Side)
    requires Inv(w) && Chan(w, Other(s)) != []
    ensures var v, p := Step(w, DoReceive(s, false)), Chan(w, Other(s))[0];
            && AnswerTaken(LinkFrom(w, s).out, LinkFrom(v, s).out, p)
            && Chan(v, Other(s)) == Chan(w, Other(s))[1..] && End(v, Other(s)) == End(w, Other(s))
            && End(v, s).log == End(w, s).log
  {
    hide Inv, Handle, ById, ValidLists, L.Inv, AnswerTaken;
    WorldFacts(w, s);
    SenderAnswered(End(w, s).session, Chan(w, Other(s))[0]);
  }

  /** A PUBACK under way takes the message out once the packets before it have been received. */
  lemma {:induction false} AckTakes(w: World, s: Side, id: nat, j: nat) returns (actions: seq<Action>)
    requires Inv(w) && Holds1(LinkFrom(w, s).out, id)
    requires j < |Chan(w, Other(s))| && IsAck(Chan(w, Other(s))[j], id)
    ensures forall a :: a in actions ==> a.DoReceive?
    ensures var v := Run(w, actions);
            && End(v, Other(s)) == End(w, Other(s)) && End(v, s).log == End(w, s).log
            && Fewer(LinkFrom(w, s).out, LinkFrom(v, s).out) && id !in LinkFrom(v, s).out
    decreases j
  {
    hide Inv, Step, View;
    var c, a := Chan(w, Other(s)), DoReceive(s, false);
    RunOne(w, a);
    SenderReceives(w, s);
    if IsAck(c[0], id) {
      actions := [a];
    } else {
      StepKeepsInv(w, a);
      var rest := AckTakes(Step(w, a), s, id, j - 1);
      actions := [a] + rest;
      RunOn(w, [a], rest);
    }
  }

  /** No PUBLISH under way is one of this publication. */
  ghost predicate NoneOf(c: seq<Packet>, serial: nat) {
    forall k :: 0 <= k < |c| && c[k].Publish? ==> c[k].pub.serial != serial
  }

  lemma PeerReceives(w: World, t: Side, n: nat, sent: bool)
    requires Chan(w, Other(t)) != [] && NoneOf(Chan(w, Other(t)), n) && !Arrived(End(w, t).arrived, 1, n)
    ensures var v, p := Step(w, DoReceive(t, sent)), Chan(w, Other(t))[0];
            && End(v, Other(t)) == End(w, Other(t)) && Chan(v, Other(t)) == Chan(w, Other(t))[1..]
            && !Arrived(End(v, t).arrived, 1, n) && NoneOf(Chan(v, Other(t)), n)
            && (sent && p.Publish? && p.qos == 1 ==> Chan(v, t) == Chan(w, t) + [Puback(p.msgId)])
  {
    hide Handle;
    var p := Chan(w, Other(t))[0];
    WhatArrives(End(w, t).session, p);
    var v, arrived := Step(w, DoReceive(t, sent)), Handle(End(w, t).session, p).arrived;
    forall j | 0 <= j < |End(v, t).arrived| && End(v, t).arrived[j].qos == 1
      ensures End(v, t).arrived[j].pub.serial != n
    {
      if j >= |End(w, t).arrived| {
        assert End(v, t).arrived[j] == arrived[j - |End(w, t).arrived|];
      }
    }
  }

  /** An old PUBLISH under way is acknowledged once the packets before it have been received. */
  lemma {:induction false} OldIsAcknowledged(w: World, s: Side, id: nat, j: nat, n: nat) returns (actions: seq<Action>)
    requires Inv(w) && j < |Chan(w, s)| && IsPub1(Chan(w, s)[j], id)
    requires NoneOf(Chan(w, s), n) && !Arrived(End(w, Other(s)).arrived, 1, n)
    ensures forall a :: a in actions ==> a.DoReceive?
    ensures var v := Run(w, actions);
            && End(v, s) == End(w, s) && !Arrived(End(v, Other(s)).arrived, 1, n)
            && exists k :: 0 <= k < |Chan(v, Other(s))| && IsAck(Chan(v, Other(s))[k], id)
    decreases j
  {
    hide Inv, Step, Arrived, NoneOf;
    var c, a := Chan(w, s), DoReceive(Other(s), j == 0);
    RunOne(w, a);
    PeerReceives(w, Other(s), n, j == 0);
    if j == 0 {
      actions := [a];
      assert IsAck(Chan(Step(w, a), Other(s))[|Chan(w, Other(s))|], id);
    } else {
      StepKeepsInv(w, a);
      var rest := OldIsAcknowledged(Step(w, a), s, id, j - 1, n);
      actions := [a] + rest;
      RunOn(w, [a], rest);
    }
  }

  /** An acknowledgement for the id, or an old PUBLISH that will be acknowledged, lets the sender drop the message. */
  lemma OldEndsNew(w: World, s: Side, id: nat, n: nat) returns (actions: seq<Action>)
    requires Inv(w) && Holds1(LinkFrom(w, s).out, id) && !Clear(LinkFrom(w, s), id)
    requires NoneOf(Chan(w, s), n) && !Arrived(End(w, Other(s)).arrived, 1, n)
    ensures forall a :: a in actions ==> a.DoReceive?
    ensures var v := Run(w, actions);
            && End(v, s).log == End(w, s).log && !Arrived(End(v, Other(s)).arrived, 1, n)
            && Fewer(LinkFrom(w, s).out, LinkFrom(v, s).out) && id !in LinkFrom(v, s).out
  {
    hide Inv, Step, Arrived, NoneOf, ById;
    if !NoAck(Chan(w, Other(s)), id) {
      var j :| 0 <= j < |Chan(w, Other(s))| && IsAck(Chan(w, Other(s))[j], id);
      actions := AckTakes(w, s, id, j);
    } else {
      var j :| 0 <= j < |Chan(w, s)| && IsPub1(Chan(w, s)[j], id);
      var first := OldIsAcknowledged(w, s, id, j, n);
      var v := Run(w, first);
      RunKeepsInv(w, first);
      var k :| 0 <= k < |Chan(v, Other(s))| && IsAck(Chan(v, Other(s))[k], id);
      var rest := AckTakes(v, s, id, k);
      actions := first + rest;
      RunOn(w, first, rest);
    }
  }

  /** What is under way and what has arrived is older than the next publication. */
  lemma OlderThanNext(w: World, s: Side)
    requires Sound0(w)
    ensures NoneOf(Chan(w, s), |End(w, s).log|) && !Arrived(End(w, Other(s)).arrived, 1, |End(w, s).log|)
  {
    var l := LinkFrom(w, s);
    assert AllLogged(l);
  }

  lemma NotHeld(e: Endpoint, out: map<nat, Message>, id: nat, n: nat)
    requires DistinctIds(e.session.outbound) && Fewer(out, ById(e.session.outbound)) && id !in ById(e.session.outbound)
    requires forall x :: x in out && x != id ==> out[x].pub.serial != n
    ensures !Holds(e, n)
  {
    hide ById;
    forall m | m in e.session.outbound
      ensures m.pub.serial != n
    {
      MemberById(e.session.outbound, m);
    }
  }

  lemma OnlyHolder(l: L.Link, id: nat)
    requires L.OutLogged(l) && id in l.out
    ensures forall x :: x in l.out && x != id ==> l.out[x].pub.serial != l.out[id].pub.serial
  {
  }

  lemma PublishIsHeld(w: World, s: Side, retain: bool, topic: seq<Byte>, payload: seq<Byte>)
    requires Inv(w) && CanPublish(End(w, s).session) && Sendable(topic, payload) && NextGiven(End(w, s).session) != 0
    ensures var v, id := Step(w, DoPublish(s, 1, retain, topic, payload, false)), NextGiven(End(w, s).session);
            && Holds1(LinkFrom(v, s).out, id) && LinkFrom(v, s).out[id].pub.serial == |End(w, s).log|
            && End(v, s).log == End(w, s).log
                                + [L.LogEntry(1, retain, Publication(topic, payload, |End(w, s).log|))]
            && Chan(v, s) == Chan(w, s) && Chan(v, Other(s)) == Chan(w, Other(s))
            && End(v, Other(s)) == End(w, Other(s))
  {
    hide Inv, Publishes, ValidLists, L.Inv, ById, Sendable, CanPublish;
    WorldFacts(w, s);
    var m := PublishIs(End(w, s), 1, retain, topic, payload);
  }

  /** With something of an earlier use under way, the new message can be lost: its own packet gets lost, the old one is
      acknowledged, and the sender lets go of a message that never arrives. */
  lemma StaleLoses(w: World, s: Side, retain: bool, topic: seq<Byte>, payload: seq<Byte>) returns (rest: seq<Action>)
    requires Inv(w) && Sound0(w) && CanPublish(End(w, s).session) && Sendable(topic, payload)
    requires NextGiven(End(w, s).session) != 0 && !Clear(LinkFrom(w, s), NextGiven(End(w, s).session))
    ensures forall a :: a in rest ==> a.DoReceive?
    ensures var v := Run(Step(w, DoPublish(s, 1, retain, topic, payload, false)), rest);
            var n := |End(w, s).log|;
            && n < |End(v, s).log| && End(v, s).log[n].qos == 1 && End(v, s).log[n].pub.serial == n
            && !Holds(End(v, s), n) && !Arrived(End(v, Other(s)).arrived, 1, n)
  {
    hide Inv, Step, Run, Sound0, Arrived, NoneOf, ById, CanPublish, Sendable, L.Inv, ValidLists, Fewer;
    var a, id, n := DoPublish(s, 1, retain, topic, payload, false), NextGiven(End(w, s).session), |End(w, s).log|;
    OlderThanNext(w, s);
    PublishIsHeld(w, s, retain, topic, payload);
    StepKeepsInv(w, a);
    var u := Step(w, a);
    rest := OldEndsNew(u, s, id, n);
    WorldFacts(u, s);
    OnlyHolder(LinkFrom(u, s), id);
    RunKeepsInv(u, rest);
    var v := Run(u, rest);
    WorldFacts(v, s);
    NotHeld(End(v, s), LinkFrom(u, s).out, id, n);
  }

  lemma ReceivesAreFresh(w: World, actions: seq<Action>)
    requires forall a :: a in actions ==> a.DoReceive?
    ensures FreshRun(w, actions)
  {
    hide Run;
    assert forall i :: 0 <= i < |actions| ==> actions[i] in actions;
  }

  lemma LostIsLost(from: Endpoint, to: Endpoint, n: nat)
    requires n < |from.log| && from.log[n].qos == 1 && !Holds(from, n) && !Arrived(to.arrived, 1, n)
    requires from.log[n].pub.serial == n
    ensures !AtLeastOnce(from, to)
  {
  }

  /** After any run in which ids were fresh, publishing with QoS 1 is safe exactly if nothing of an earlier use of the
      next id is under way: only then does the message, whatever gets lost and whatever comes after, arrive before its
      sender lets go of it. */
  lemma SafeIffClear(limitHere: nat, limitThere: nat, actions: seq<Action>, w: World, s: Side, retain: bool,
                     topic: seq<Byte>, payload: seq<Byte>)
    requires w == Run(Start(limitHere, limitThere), actions) && FreshRun(Start(limitHere, limitThere), actions)
    requires CanPublish(End(w, s).session) && Sendable(topic, payload) && NextGiven(End(w, s).session) != 0
    ensures Clear(LinkFrom(w, s), NextGiven(End(w, s).session)) <==>
              forall sent, rest :: SafeAfter(w, s, DoPublish(s, 1, retain, topic, payload, sent), rest)
  {
    hide Inv, Step, Run, Sound0, InvQos1, FreshRun, SafeAfter, CanPublish, Sendable, Clear;
    StartSound(limitHere, limitThere);
    RunKeepsInv(Start(limitHere, limitThere), actions);
    RunSound(Start(limitHere, limitThere), actions);
    RunKeeps1(Start(limitHere, limitThere), actions);
    if Clear(LinkFrom(w, s), NextGiven(End(w, s).session)) {
      forall sent, rest
        ensures SafeAfter(w, s, DoPublish(s, 1, retain, topic, payload, sent), rest)
      {
        ClearIsSafe(w, s, DoPublish(s, 1, retain, topic, payload, sent), rest);
      }
    } else {
      var rest := StaleLoses(w, s, retain, topic, payload);
      StaleIsUnsafe(w, s, DoPublish(s, 1, retain, topic, payload, false), rest);
    }
  }

  /** Whatever comes after, with fresh ids, the QoS 1 messages of `s` arrive before it lets go of them. */
  ghost predicate SafeAfter(w: World, s: Side, a: Action, rest: seq<Action>) {
    FreshRun(Step(w, a), rest) ==>
      var v := Run(Step(w, a), rest); AtLeastOnce(End(v, s), End(v, Other(s)))
  }

  lemma ClearIsSafe(w: World, s: Side, a: Action, rest: seq<Action>)
    requires Inv(w) && Sound0(w) && InvQos1(w) && a.DoPublish? && a.side == s
    requires Clear(LinkFrom(w, s), NextGiven(End(w, s).session))
    ensures SafeAfter(w, s, a, rest)
  {
    hide Inv, Step, Run, Sound0, InvQos1, FreshRun, AtLeastOnce, Clear;
    StepKeepsInv(w, a);
    StepSound(w, a);
    StepKeeps1(w, a);
    if FreshRun(Step(w, a), rest) {
      var v := Run(Step(w, a), rest);
      RunSound(Step(w, a), rest);
      RunKeeps1(Step(w, a), rest);
      WorldIsAtLeastOnce(v, s);
    }
  }

  lemma StaleIsUnsafe(w: World, s: Side, a: Action, rest: seq<Action>)
    requires forall b :: b in rest ==> b.DoReceive?
    requires var v, n := Run(Step(w, a), rest), |End(w, s).log|;
             && n < |End(v, s).log| && End(v, s).log[n].qos == 1 && End(v, s).log[n].pub.serial == n
             && !Holds(End(v, s), n) && !Arrived(End(v, Other(s)).arrived, 1, n)
    ensures !SafeAfter(w, s, a, rest)
  {
    hide Run, Step, FreshRun, AtLeastOnce, Arrived;
    var v := Run(Step(w, a), rest);
    ReceivesAreFresh(Step(w, a), rest);
    LostIsLost(End(v, s), End(v, Other(s)), |End(w, s).log|);
  }

  // ---------- ids of one connection ----------

  /** The ids that `s` has sent QoS 1 messages with since the connection was made. */
  ghost function SentIds(w: World, s: Side, actions: seq<Action>): set<nat>
    decreases |actions|
  {
    if actions == [] then {}
    else
      var n := |actions| - 1;
      NextIds(Run(w, actions[..n]), s, actions[n], SentIds(w, s, actions[..n]))
  }

  ghost function NextIds(w: World, s: Side, a: Action, ids: set<nat>): set<nat> {
    if a == DoDisconnect || (a.DoRestart? && Lists(a.keys, End(w, a.side).session.store)) then {}
    else if a.side != s then ids
    else if a.DoPublish? then ids + {NextGiven(End(w, s).session)}
    else if a.DoRetry? && a.i < |End(w, s).session.outbound| then ids + {End(w, s).session.outbound[a.i].msgid}
    else ids
  }

  /** The QoS 1 packets under way are of such ids. */
  ghost predicate OfIds(fwd: seq<Packet>, back: seq<Packet>, ids: set<nat>) {
    && (forall j :: 0 <= j < |fwd| && fwd[j].Publish? && fwd[j].qos == 1 ==> fwd[j].msgId in ids)
    && (forall j :: 0 <= j < |back| && back[j].Puback? ==> back[j].msgId in ids)
  }

  lemma OfIdsPushed(fwd: seq<Packet>, back: seq<Packet>, ids: set<nat>, ps: seq<Packet>, ids': set<nat>)
    requires OfIds(fwd, back, ids) && ids <= ids'
    requires forall p :: p in ps && p.Publish? && p.qos == 1 ==> p.msgId in ids'
    ensures OfIds(fwd + ps, back, ids')
    ensures back != [] ==> OfIds(fwd + ps, back[1..], ids')
  {
    forall j | |fwd| <= j < |fwd + ps|
      ensures (fwd + ps)[j] in ps
    {
      assert (fwd + ps)[j] == ps[j - |fwd|];
    }
  }

  lemma OfIdsAnswered(fwd: seq<Packet>, back: seq<Packet>, ids: set<nat>, qs: seq<Packet>)
    requires OfIds(fwd, back, ids)
    requires forall q :: q in qs && q.Puback? ==> fwd != [] && IsPub1(fwd[0], q.msgId)
    ensures OfIds(fwd, back + qs, ids)
    ensures fwd != [] ==> OfIds(fwd[1..], back + qs, ids)
  {
    forall j | |back| <= j < |back + qs|
      ensures (back + qs)[j] in qs
    {
      assert (back + qs)[j] == qs[j - |back|];
    }
  }

  lemma SenderOfIds(h: Half, a: Action, ids: set<nat>, ids': set<nat>)
    requires ValidLists(h.end.session) && OfIds(h.from, h.to, ids) && ids <= ids' && a != DoDisconnect
    requires a.DoPublish? ==> NextGiven(h.end.session) in ids'
    requires a.DoRetry? && a.i < |h.end.session.outbound| ==> h.end.session.outbound[a.i].msgid in ids'
    ensures OfIds(Act(h, a).from, Act(h, a).to, ids')
  {
    hide Publishes, RetryOne, Handle, ById, ValidLists, CanPublish, Sendable, Deliver, TakeId, Restart, OfIds, Lists;
    var e := h.end;
    PushIs(h.from, [], true);
    OfIdsPushed(h.from, h.to, ids, [], ids');
    match a
    case DoPublish(_, qos, retain, topic, payload, sent) =>
      var m := PublishIs(e, qos, retain, topic, payload);
      var ps := Publishes(e, qos, retain, topic, payload).1;
      PushIs(h.from, ps, sent);
      OfIdsPushed(h.from, h.to, ids, Pushed(ps, sent), ids');
    case DoRetry(_, i, sent) =>
      if i < |e.session.outbound| {
        RetryIs(e, i);
        var ps := RetryOne(e.session, e.session.outbound[i]).sent;
        PushIs(h.from, ps, sent);
        OfIdsPushed(h.from, h.to, ids, Pushed(ps, sent), ids');
      }
    case DoReceive(_, sent) =>
      if h.to != [] {
        WhatArrives(e.session, h.to[0]);
        PushIs(h.from, Reply(e, h.to[0]), sent);
        OfIdsPushed(h.from, h.to, ids, Pushed(Reply(e, h.to[0]), sent), ids');
      }
    case DoRestart(_, keys) =>
      NothingOfIds(ids');
    case _ =>
  }

  lemma NothingOfIds(ids: set<nat>)
    ensures OfIds([], [], ids)
  {
  }

  lemma PeerOfIds(h: Half, a: Action, ids: set<nat>)
    requires ValidLists(h.end.session) && OfIds(h.to, h.from, ids) && a != DoDisconnect
    ensures OfIds(Act(h, a).to, Act(h, a).from, ids)
  {
    hide Publishes, RetryOne, Handle, ById, ValidLists, CanPublish, Sendable, Deliver, TakeId, Restart, OfIds, Lists;
    var e := h.end;
    match a
    case DoPublish(_, qos, retain, topic, payload, sent) =>
      var m := PublishIs(e, qos, retain, topic, payload);
      var ps := Publishes(e, qos, retain, topic, payload).1;
      PushIs(h.from, ps, sent);
      OfIdsAnswered(h.to, h.from, ids, Pushed(ps, sent));
    case DoRetry(_, i, sent) =>
      if i < |e.session.outbound| {
        RetryIs(e, i);
        var ps := RetryOne(e.session, e.session.outbound[i]).sent;
        PushIs(h.from, ps, sent);
        OfIdsAnswered(h.to, h.from, ids, Pushed(ps, sent));
      }
    case DoReceive(_, sent) =>
      if h.to != [] {
        WhatArrives(e.session, h.to[0]);
        PushIs(h.from, Reply(e, h.to[0]), sent);
        OfIdsAnswered(h.to, h.from, ids, Pushed(Reply(e, h.to[0]), sent));
      }
    case DoRestart(_, keys) =>
      NothingOfIds(ids);
    case _ =>
  }

  lemma StepOfIds(w: World, s: Side, a: Action, ids: set<nat>)
    requires Inv(w) && OfIds(Chan(w, s), Chan(w, Other(s)), ids)
    ensures var v := Step(w, a); OfIds(Chan(v, s), Chan(v, Other(s)), NextIds(w, s, a, ids))
  {
    hide Act, Inv, L.Inv, ValidLists, OfIds, Lists;
    var ids' := NextIds(w, s, a, ids);
    NothingOfIds(ids');
    if a != DoDisconnect {
      var h := Half(End(w, a.side), Chan(w, a.side), Chan(w, Other(a.side)));
      WorldFacts(w, a.side);
      RestartClears(h, a);
      if a.DoRestart? && Lists(a.keys, h.end.session.store) {
      } else if a.side == s {
        SenderOfIds(h, a, ids, ids');
      } else {
        PeerOfIds(h, a, ids);
      }
    }
  }

  lemma RestartClears(h: Half, a: Action)
    ensures a.DoRestart? && Lists(a.keys, h.end.session.store) ==> Act(h, a).from == [] && Act(h, a).to == []
  {
  }

  lemma {:induction false} RunOfIds(w: World, s: Side, actions: seq<Action>)
    requires Inv(w) && Chan(w, s) == [] && Chan(w, Other(s)) == []
    ensures var v := Run(w, actions); OfIds(Chan(v, s), Chan(v, Other(s)), SentIds(w, s, actions))
    decreases |actions|
  {
    hide Step, Inv, NextIds;
    if actions != [] {
      var n := |actions| - 1;
      RunOfIds(w, s, actions[..n]);
      RunKeepsInv(w, actions[..n]);
      StepOfIds(Run(w, actions[..n]), s, actions[n], SentIds(w, s, actions[..n]));
    }
  }

  /** In a run in which no id is given to a QoS 1 message that has been used since the connection was made, every QoS 1
      message that its publisher has let go of has arrived. */
  lemma OncePerConnectionIsAtLeastOnce(limitHere: nat, limitThere: nat, actions: seq<Action>, w: World)
    requires w == Run(Start(limitHere, limitThere), actions)
    requires forall i :: 0 <= i < |actions| && actions[i].DoPublish? && actions[i].qos == 1 ==>
               var start, s := Start(limitHere, limitThere), actions[i].side;
               NextGiven(End(Run(start, actions[..i]), s).session) !in SentIds(start, s, actions[..i])
    ensures forall s :: AtLeastOnce(End(w, s), End(w, Other(s)))
  {
    hide Step, Run, Inv, AtLeastOnce, SentIds, Clear;
    var start := Start(limitHere, limitThere);
    StartSound(limitHere, limitThere);
    forall i | 0 <= i < |actions|
      ensures FreshAction(Run(start, actions[..i]), actions[i])
    {
      var v, a := Run(start, actions[..i]), actions[i];
      if a.DoPublish? && a.qos == 1 {
        RunOfIds(start, a.side, actions[..i]);
        NewIsClear(LinkFrom(v, a.side), NextGiven(End(v, a.side).session), SentIds(start, a.side, actions[..i]));
      }
    }
    EveryFreshRunIsAtLeastOnce(limitHere, limitThere, actions, w);
  }

  lemma NewIsClear(l: L.Link, id: nat, ids: set<nat>)
    requires OfIds(l.fwd, l.back, ids) && id !in ids
    ensures Clear(l, id)
  {
  }
}
