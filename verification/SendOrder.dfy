/** When a restart keeps the order of sending, seen over runs. */
module SendOrder {
  // Section 4.6 of MQTT 3.1.1 asks that messages sent again keep their order. Restoring sorts them by id and rotates
  // the list, which finds the order as long as the ids of a client ran on and not too many have been given out since
  // the oldest message in flight. After a restart the ids begin again at 1, so that this may fail.

  import opened Messages
  import opened MessageIds
  import opened Restore
  import opened Sessions
  import opened SessionProofs
  import opened Delivery

  // ---------- counting the ids ----------

  /** How many ids a client has given out, and for each publication which of them, in this count, it got. */
  datatype Tally = Tally(given: nat, place: map<nat, nat>)

  ghost function Counted(t: Tally, s: Session, s': Session): Tally {
    if s'.msgID == s.msgID then t
    else if |s'.outbound| > |s.outbound| then
      Tally(t.given + 1, t.place[s'.outbound[|s'.outbound| - 1].pub.serial := t.given + 1])
    else Tally(t.given + 1, t.place)
  }

  ghost function Tallied(w: World, s: Side, actions: seq<Action>): Tally
    decreases |actions|
  {
    if actions == [] then Tally(0, map[])
    else
      var n := |actions| - 1;
      var v := Run(w, actions[..n]);
      Counted(Tallied(w, s, actions[..n]), End(v, s).session, End(Step(v, actions[n]), s).session)
  }

  /** The number of ids given out after that of the oldest message in flight. */
  ghost function GivenSince(t: Tally, ms: seq<Message>): int {
    if ms != [] && ms[0].pub.serial in t.place then t.given - t.place[ms[0].pub.serial] else 0
  }

  ghost function GivenSinceOldest(w: World, s: Side, actions: seq<Action>): int {
    GivenSince(Tallied(w, s, actions), End(Run(w, actions), s).session.outbound)
  }

  /** The id that comes `g` places after `start` on the cycle. */
  function IdAt(start: nat, g: nat): nat {
    if g == 0 then start else (start - 1 + g) % MAX_MSG_ID + 1
  }

  lemma IdsAhead(start: nat, g: nat)
    requires start <= MAX_MSG_ID
    ensures IdAt(start, g + 1) == NextId(IdAt(start, g)) && IdAt(start, g) <= MAX_MSG_ID
  {
  }

  lemma IdsApart(start: nat, p: nat, q: nat)
    requires start <= MAX_MSG_ID && 0 < p < q < p + MAX_MSG_ID
    ensures IdAt(start, p) != IdAt(start, q)
    ensures IdAt(start, q) - IdAt(start, p) == q - p || IdAt(start, q) - IdAt(start, p) + MAX_MSG_ID == q - p
  {
    ModAhead(start - 1 + p, q - p);
  }

  lemma ModAhead(a: nat, d: nat)
    requires 0 < d < MAX_MSG_ID
    ensures (a + d) % MAX_MSG_ID == a % MAX_MSG_ID + d || (a + d) % MAX_MSG_ID == a % MAX_MSG_ID + d - MAX_MSG_ID
  {
  }

  // ---------- the ids run on ----------

  /** The messages are in the order of their places, and each has the id of its place. */
  ghost predicate InPlace(ms: seq<Message>, start: nat, t: Tally) {
    && (forall i :: 0 <= i < |ms| ==>
          && ms[i].pub.serial in t.place && 1 <= t.place[ms[i].pub.serial] <= t.given
          && ms[i].msgid == IdAt(start, t.place[ms[i].pub.serial]))
    && (forall i, j :: 0 <= i < j < |ms| && ms[i].pub.serial in t.place && ms[j].pub.serial in t.place ==>
          t.place[ms[i].pub.serial] < t.place[ms[j].pub.serial])
  }

  lemma RemovedInPlace(ms: seq<Message>, id: nat, start: nat, t: Tally)
    requires InPlace(ms, start, t)
    ensures InPlace(Removed(ms, id), start, t)
  {
    hide IdAt;
    var rs, k := Removed(ms, id), IndexOf(ms, id);
    if k < |ms| {
      assert forall i :: 0 <= i < |rs| ==> rs[i] == ms[if i < k then i else i + 1];
    }
  }

  lemma ReplacedInPlace(ms: seq<Message>, m: Message, start: nat, t: Tally)
    requires InPlace(ms, start, t)
    requires IndexOf(ms, m.msgid) < |ms| ==> ms[IndexOf(ms, m.msgid)].pub == m.pub
    ensures InPlace(Replaced(ms, m), start, t)
  {
    hide IdAt;
  }

  lemma AddedInPlace(ms: seq<Message>, m: Message, start: nat, t: Tally)
    requires InPlace(ms, start, t) && forall i :: 0 <= i < |ms| ==> ms[i].pub.serial != m.pub.serial
    requires m.msgid == IdAt(start, t.given + 1)
    ensures InPlace(ms + [m], start, Tally(t.given + 1, t.place[m.pub.serial := t.given + 1]))
  {
    hide IdAt;
  }

  lemma MoreGiven(ms: seq<Message>, start: nat, t: Tally)
    requires InPlace(ms, start, t)
    ensures InPlace(ms, start, Tally(t.given + 1, t.place))
  {
    hide IdAt;
  }

  /** While fewer than 65534 ids have been given out since the oldest message in flight, the next one is free. */
  lemma NextIsFree(ms: seq<Message>, start: nat, t: Tally)
    requires start <= MAX_MSG_ID && InPlace(ms, start, t) && GivenSince(t, ms) < MAX_MSG_ID - 1
    ensures AssignedId(Ids(ms), IdAt(start, t.given)) == IdAt(start, t.given + 1)
  {
    var next := IdAt(start, t.given + 1);
    IdsAhead(start, t.given);
    forall i | 0 <= i < |ms|
      ensures ms[i].msgid != next
    {
      assert i > 0 ==> t.place[ms[0].pub.serial] < t.place[ms[i].pub.serial];
      IdsApart(start, t.place[ms[i].pub.serial], t.given + 1);
    }
    assert next !in Ids(ms);
  }

  // ---------- the steps ----------

  /** Between two restarts: the ids of a client run on from `start`. */
  ghost predicate RunsOn(s: Session, start: nat, t: Tally) {
    && start <= MAX_MSG_ID && s.msgID == IdAt(start, t.given)
    && InPlace(s.outbound, start, t)
  }

  lemma Uncounted(t: Tally, s: Session, s': Session, start: nat)
    requires RunsOn(s, start, t) && s'.msgID == s.msgID && InPlace(s'.outbound, start, t)
    ensures RunsOn(s', start, Counted(t, s, s'))
  {
    hide InPlace, IdAt;
  }

  lemma HandleRunsOn(s: Session, p: Packet, start: nat, t: Tally)
    requires RunsOn(s, start, t)
    ensures RunsOn(Handle(s, p).session, start, Counted(t, s, Handle(s, p).session))
  {
    hide InPlace, IdAt, Removed, Replaced, Ids;
    match p
    case Publish(_, _, _, _, _) =>
    case Pubrel(_, _) =>
    case Puback(id) => RemovedInPlace(s.outbound, id, start, t);
    case Pubcomp(_, id) => RemovedInPlace(s.outbound, id, start, t);
    case Pubrec(_, id) =>
      var i := IndexOf(s.outbound, id);
      if i < |s.outbound| {
        ReplacedInPlace(s.outbound, s.outbound[i].(nextMessageType := PUBCOMP), start, t);
      }
    Uncounted(t, s, Handle(s, p).session, start);
  }

  lemma PublishRunsOn(s: Session, qos: nat, retain: bool, pub: Publication, start: nat, t: Tally)
    requires RunsOn(s, start, t) && GivenSince(t, s.outbound) < MAX_MSG_ID - 1
    requires forall m :: m in s.outbound ==> m.pub.serial != pub.serial
    ensures var s' := StartPublish(s, qos, retain, pub).session;
            RunsOn(s', start, Counted(t, s, s'))
  {
    hide InPlace, IdAt, Ids, AssignedId;
    NextIsFree(s.outbound, start, t);
    IdsAhead(start, t.given);
    if qos == 0 {
      Uncounted(t, s, s, start);
    } else {
      var id := IdAt(start, t.given + 1);
      assert id == NextId(IdAt(start, t.given)) != 0 && id != s.msgID;
      var m := Message(id, qos, retain, pub, if qos == 2 then PUBREC else Unset);
      AddedInPlace(s.outbound, m, start, t);
    }
  }

  lemma TakeIdRunsOn(s: Session, start: nat, t: Tally)
    requires RunsOn(s, start, t) && GivenSince(t, s.outbound) < MAX_MSG_ID - 1
    ensures RunsOn(TakeId(s), start, Counted(t, s, TakeId(s)))
  {
    hide InPlace, IdAt, Ids, AssignedId;
    NextIsFree(s.outbound, start, t);
    IdsAhead(start, t.given);
    MoreGiven(s.outbound, start, t);
  }

  ghost predicate SerialsLogged(e: Endpoint) {
    forall m :: m in e.session.outbound ==> m.pub.serial < |e.log|
  }

  lemma SerialsAreLogged(w: World, s: Side)
    requires Inv(w)
    ensures SerialsLogged(End(w, s))
  {
    var e := End(w, s);
    forall m | m in e.session.outbound
      ensures m.pub.serial < |e.log|
    {
      MemberById(e.session.outbound, m);
    }
  }

  lemma ActRunsOn(h: Half, a: Action, start: nat, t: Tally)
    requires RunsOn(h.end.session, start, t) && GivenSince(t, h.end.session.outbound) < MAX_MSG_ID - 1
    requires SerialsLogged(h.end) && !a.DoRestart?
    ensures var s' := Act(h, a).end.session;
            RunsOn(s', start, Counted(t, h.end.session, s'))
  {
    hide InPlace, IdAt, Handle, StartPublish, TakeId, Counted, RetryOne, GivenSince;
    var s := h.end.session;
    Uncounted(t, s, s, start);
    match a
    case DoPublish(_, qos, retain, topic, payload, _) =>
      PublishRunsOn(s, qos, retain, Publication(topic, payload, |h.end.log|), start, t);
    case DoSubscribe(_) => TakeIdRunsOn(s, start, t);
    case DoReceive(_, _) =>
      if h.to != [] {
        HandleRunsOn(s, h.to[0], start, t);
      }
    case DoRetry(_, i, _) =>
      if i < |s.outbound| {
        RetryKeepsOutbound(s, s.outbound[i]);
        RetryKeepsId(s, s.outbound[i]);
        Uncounted(t, s, RetryOne(s, s.outbound[i]).session, start);
      }
    case DoTake(_) =>
      if s.queue != [] {
        Uncounted(t, s, Deliver(s), start);
      }
    case DoDisconnect =>
  }

  lemma RetryKeepsId(s: Session, m: Message)
    ensures RetryOne(s, m).session.msgID == s.msgID
  {
  }

  lemma StepRunsOn(w: World, s: Side, a: Action, start: nat, t: Tally)
    requires Inv(w) && RunsOn(End(w, s).session, start, t) && GivenSince(t, End(w, s).session.outbound) < MAX_MSG_ID - 1
    requires a.DoRestart? ==> a.side != s
    ensures var s' := End(Step(w, a), s).session;
            RunsOn(s', start, Counted(t, End(w, s).session, s'))
  {
    hide Act, InPlace, IdAt, Counted, Inv, GivenSince;
    var e := End(w, s);
    Uncounted(t, e.session, e.session, start);
    if a != DoDisconnect && a.side == s {
      SerialsAreLogged(w, s);
      ActRunsOn(Half(e, Chan(w, s), Chan(w, Other(s))), a, start, t);
    }
  }

  ghost predicate NoRestartOf(s: Side, actions: seq<Action>) {
    forall i :: 0 <= i < |actions| && actions[i].DoRestart? ==> actions[i].side != s
  }

  lemma {:induction false} RunRunsOn(w: World, s: Side, actions: seq<Action>)
    requires Inv(w) && End(w, s).session.outbound == [] && NoRestartOf(s, actions)
    requires forall k :: 0 <= k < |actions| ==> GivenSinceOldest(w, s, actions[..k]) < MAX_MSG_ID - 1
    ensures RunsOn(End(Run(w, actions), s).session, End(w, s).session.msgID, Tallied(w, s, actions))
    decreases |actions|
  {
    hide Step, InPlace, Inv, Counted, GivenSince;
    var start := End(w, s).session.msgID;
    BeginsInPlace(w, s);
    if actions != [] {
      var n := |actions| - 1;
      var before := actions[..n];
      forall k | 0 <= k < n
        ensures GivenSinceOldest(w, s, before[..k]) < MAX_MSG_ID - 1
      {
        assert before[..k] == actions[..k];
      }
      RunRunsOn(w, s, before);
      RunKeepsInv(w, before);
      StepRunsOn(Run(w, before), s, actions[n], start, Tallied(w, s, before));
    }
  }

  lemma BeginsInPlace(w: World, s: Side)
    requires Inv(w) && End(w, s).session.outbound == []
    ensures RunsOn(End(w, s).session, End(w, s).session.msgID, Tally(0, map[]))
  {
  }

  // ---------- the order ----------

  lemma PlacesAreOffsets(ms: seq<Message>, start: nat, t: Tally, i: nat)
    requires start <= MAX_MSG_ID && InPlace(ms, start, t) && i < |ms| && GivenSince(t, ms) < MAX_MSG_ID
    ensures Offset(ms, i) == t.place[ms[i].pub.serial] - t.place[ms[0].pub.serial]
    ensures 1 <= ms[i].msgid <= MAX_MSG_ID
  {
    if i > 0 {
      IdsApart(start, t.place[ms[0].pub.serial], t.place[ms[i].pub.serial]);
    }
  }

  lemma FewKeepOrder(ms: seq<Message>, start: nat, t: Tally) returns (d: nat)
    requires start <= MAX_MSG_ID && ms != [] && InPlace(ms, start, t) && 2 * GivenSince(t, ms) < MAX_MSG_ID
    ensures KeepsOrder(ms, d)
  {
    hide IdAt, Offset, KeepsOrder;
    forall i | 0 <= i < |ms|
      ensures Offset(ms, i) == t.place[ms[i].pub.serial] - t.place[ms[0].pub.serial] && 1 <= ms[i].msgid <= MAX_MSG_ID
    {
      PlacesAreOffsets(ms, start, t, i);
    }
    d := HalfCycleKeepsOrder(ms);
  }

  /** In every run, after a point with nothing in flight and without a restart of the client since: if at no time 65534
      ids or more have been given out since the oldest message then in flight, and now fewer than 32768, then the
      restart gives the messages back in the order in which they were sent. */
  lemma EveryRunKeepsOrder(limitHere: nat, limitThere: nat, before: seq<Action>, w0: World, s: Side,
                           actions: seq<Action>, t: Session, keys: seq<Key>)
    requires w0 == Run(Start(limitHere, limitThere), before) && End(w0, s).session.outbound == []
    requires NoRestartOf(s, actions)
    requires forall k :: 0 <= k < |actions| ==> GivenSinceOldest(w0, s, actions[..k]) < MAX_MSG_ID - 1
    requires GivenSinceOldest(w0, s, actions) < 32768
    requires t == End(Run(w0, actions), s).session && Lists(keys, t.store)
    ensures Restart(t, keys).outbound == t.outbound
    ensures t.outbound == [] || exists d :: KeepsOrder(t.outbound, d)
  {
    hide Step, Inv, InPlace, KeepsOrder, Restart, Lists;
    StartInv(limitHere, limitThere);
    RunKeepsInv(Start(limitHere, limitThere), before);
    RunKeepsInv(w0, actions);
    RunRunsOn(w0, s, actions);
    IsValid(Run(w0, actions), s);
    if t.outbound != [] {
      var d := FewKeepOrder(t.outbound, End(w0, s).session.msgID, Tallied(w0, s, actions));
      RestartRestoresOrder(t, keys);
    } else {
      RestartRestoresLists(t, keys);
    }
  }

  lemma IsValid(w: World, s: Side)
    requires Inv(w)
    ensures Valid(End(w, s).session)
  {
  }

  // ---------- and across restarts it may fail ----------

  lemma DescentOfOne(ms: seq<Message>)
    requires |ms| == 2 && ms[0].msgid == 2 && ms[1].msgid == 1
    ensures !exists d :: KeepsOrder(ms, d)
  {
    assert Gap(ms, 1) == MAX_MSG_ID - 1 && ClosingGap(ms) == 1;
  }

  function Sent1(id: nat, topic: seq<Byte>, payload: seq<Byte>, serial: nat): Message {
    Message(id, 1, false, Publication(topic, payload, serial), Unset)
  }

  lemma FirstIds()
    ensures AssignedId({}, 0) == 1 && AssignedId({1}, 1) == 2 && AssignedId({2}, 0) == 1
  {
    assert NextId(0) == 1 && NextId(1) == 2;
  }

  lemma PublishOne(e: Endpoint, topic: seq<Byte>, payload: seq<Byte>, id: nat)
    requires id == AssignedId(Ids(e.session.outbound), e.session.msgID) != 0
    ensures var m := Sent1(id, topic, payload, |e.log|);
            var (e', ps) := Publishes(e, 1, false, topic, payload);
            && ps == [PublishOf(m, false)] && e'.session.outbound == e.session.outbound + [m] && e'.session.msgID == id
            && |e'.log| == |e.log| + 1 && e'.session.maxInflight == e.session.maxInflight
            && e'.session.store == e.session.store[SentKey(id) := PacketRecord(PublishOf(m, false))]
  {
  }

  lemma IdsOf(m: Message, n: Message)
    ensures Ids([]) == {} && Ids([m]) == {m.msgid} && Ids([m, n]) == {m.msgid, n.msgid}
  {
  }

  lemma AckFirst(e: Endpoint, m: Message, n: Message)
    requires e.session.outbound == [m, n] && m.msgid == 1 && m.qos == 1
    ensures var e' := Received(e, Puback(1));
            && e'.session.outbound == [n] && e'.session.store == e.session.store - {SentKey(1)}
            && e'.session.msgID == e.session.msgID
            && e'.log == e.log && e'.session.maxInflight == e.session.maxInflight
  {
    assert IndexOf([m, n], 1) == 0;
  }

  lemma RestartWithOne(e: Endpoint, n: Message)
    requires Valid(e.session) && e.session.outbound == [n] && n.msgid == 2 && Lists([SentKey(2)], e.session.store)
    ensures var t := Restart(e.session, [SentKey(2)]);
            t.outbound == [n] && t.msgID == 0 && t.maxInflight == e.session.maxInflight
  {
    hide Valid, Lists, RestoreQueueKeys;
    var t := Restart(e.session, [SentKey(2)]);
    RestartRestoresLists(e.session, [SentKey(2)]);
    assert t.outbound[0] in t.outbound && n in e.session.outbound;
    assert ById(t.outbound)[n.msgid] == ById(e.session.outbound)[n.msgid] by {
      ByIdAt(e.session.outbound, 0);
    }
  }

  function ReorderingRun(topic: seq<Byte>, payload: seq<Byte>): seq<Action> {
    [DoPublish(Here, 1, false, topic, payload, true), DoPublish(Here, 1, false, topic, payload, true),
     DoReceive(There, true), DoReceive(Here, true), DoRestart(Here, [SentKey(2)]),
     DoPublish(Here, 1, false, topic, payload, true)]
  }

  lemma AckSent(e: Endpoint, p: Packet)
    requires p.Publish? && p.qos == 1
    ensures Reply(e, p) == [Puback(p.msgId)]
    ensures Reply(e, Puback(p.msgId)) == []
  {
  }

  lemma RunSix(w: World, a1: Action, a2: Action, a3: Action, a4: Action, a5: Action, a6: Action)
    ensures Run(w, [a1, a2, a3, a4, a5, a6]) == Step(Step(Step(Step(Step(Step(w, a1), a2), a3), a4), a5), a6)
  {
    hide Step;
    var first, v := [a1, a2, a3, a4], Step(Step(Step(Step(w, a1), a2), a3), a4);
    RunFour(w, a1, a2, a3, a4);
    RunOn(w, first, [a5]);
    RunOne(v, a5);
    RunOn(w, first + [a5], [a6]);
    RunOne(Step(v, a5), a6);
    assert first + [a5] + [a6] == [a1, a2, a3, a4, a5, a6];
  }

  lemma PublishStepOne(w: World, topic: seq<Byte>, payload: seq<Byte>, id: nat)
    requires CanPublish(w.here.session) && Sendable(topic, payload)
    requires id == AssignedId(Ids(w.here.session.outbound), w.here.session.msgID) != 0
    ensures var m := Sent1(id, topic, payload, |w.here.log|);
            var v := Step(w, DoPublish(Here, 1, false, topic, payload, true));
            && v.here.session.outbound == w.here.session.outbound + [m] && v.here.session.msgID == id
            && v.fromHere == w.fromHere + [PublishOf(m, false)] && v.fromThere == w.fromThere
            && |v.here.log| == |w.here.log| + 1 && v.here.session.maxInflight == w.here.session.maxInflight
            && v.here.session.store.Keys == w.here.session.store.Keys + {SentKey(id)}
  {
    hide Publishes, PublishOf, AssignedId;
    PublishOne(w.here, topic, payload, id);
  }

  /** The first two actions: ids 1 and 2 are given out. */
  lemma TwoArePublished(limitHere: nat, limitThere: nat, topic: seq<Byte>, payload: seq<Byte>) returns (w: World)
    requires limitHere >= 2 && Sendable(topic, payload)
    ensures var a := DoPublish(Here, 1, false, topic, payload, true);
            w == Step(Step(Start(limitHere, limitThere), a), a)
    ensures var m1, m2 := Sent1(1, topic, payload, 0), Sent1(2, topic, payload, 1);
            && w.here.session.outbound == [m1, m2] && w.fromHere == [PublishOf(m1, false), PublishOf(m2, false)]
            && w.here.session.store.Keys == {SentKey(1), SentKey(2)}
    ensures |w.here.log| == 2 && w.here.session.maxInflight == limitHere && w.fromThere == []
  {
    hide Step, PublishOf, AssignedId, Sendable;
    FirstIds();
    var m1, m2 := Sent1(1, topic, payload, 0), Sent1(2, topic, payload, 1);
    IdsOf(m1, m2);
    var a := DoPublish(Here, 1, false, topic, payload, true);
    var w0 := Start(limitHere, limitThere);
    PublishStepOne(w0, topic, payload, 1);
    var w1 := Step(w0, a);
    assert w1.here.session.outbound == [m1] && w1.fromHere == [PublishOf(m1, false)];
    PublishStepOne(w1, topic, payload, 2);
    w := Step(w1, a);
  }

  /** The third action: the peer answers the first message. */
  lemma PeerAnswers(w: World, m: Message)
    requires w.fromHere != [] && w.fromHere[0] == PublishOf(m, false) && m.qos == 1 && w.fromThere == []
    ensures Step(w, DoReceive(There, true)).fromThere == [Puback(m.msgid)]
    ensures Step(w, DoReceive(There, true)).here == w.here
  {
    hide Received, Reply, PublishOf;
    IsPublish(m);
    AckSent(w.there, PublishOf(m, false));
  }

  /** The fourth: the answer arrives. */
  lemma AnswerArrives(w: World, m: Message, n: Message)
    requires w.fromThere == [Puback(1)] && w.here.session.outbound == [m, n] && m.msgid == 1 && m.qos == 1
    ensures var e := Step(w, DoReceive(Here, true)).here;
            && e.session.outbound == [n] && e.session.store == w.here.session.store - {SentKey(1)}
            && e.log == w.here.log && e.session.maxInflight == w.here.session.maxInflight
  {
    hide Received, Reply;
    AckFirst(w.here, m, n);
  }

  /** After these four the message with id 1 is acknowledged. */
  lemma FirstIsAcknowledged(limitHere: nat, limitThere: nat, topic: seq<Byte>, payload: seq<Byte>) returns (w: World)
    requires limitHere >= 2 && Sendable(topic, payload)
    ensures var a := DoPublish(Here, 1, false, topic, payload, true);
            w == Step(Step(Step(Step(Start(limitHere, limitThere), a), a), DoReceive(There, true)),
                      DoReceive(Here, true))
    ensures w.here.session.outbound == [Sent1(2, topic, payload, 1)] && |w.here.log| == 2
    ensures w.here.session.maxInflight == limitHere && Lists([SentKey(2)], w.here.session.store)
  {
    hide Step, PublishOf;
    var m1, m2 := Sent1(1, topic, payload, 0), Sent1(2, topic, payload, 1);
    var w2 := TwoArePublished(limitHere, limitThere, topic, payload);
    PeerAnswers(w2, m1);
    var w3 := Step(w2, DoReceive(There, true));
    AnswerArrives(w3, m1, m2);
    w := Step(w3, DoReceive(Here, true));
    OnlyKey(w.here.session.store, SentKey(2));
  }

  lemma OnlyKey(store: map<Key, Record>, k: Key)
    requires store.Keys == {k}
    ensures Lists([k], store)
  {
    assert [k][0] in [k];
  }

  lemma IsPublish(m: Message)
    ensures PublishOf(m, false).Publish? && PublishOf(m, false).qos == m.qos && PublishOf(m, false).msgId == m.msgid
  {
  }

  /** The last two actions: the client is created again and publishes under id 1. */
  lemma ThirdGetsIdOne(w: World, topic: seq<Byte>, payload: seq<Byte>, second: Message)
    requires Valid(w.here.session) && w.here.session.outbound == [second] && second.msgid == 2 && |w.here.log| == 2
    requires w.here.session.maxInflight >= 2 && Sendable(topic, payload) && Lists([SentKey(2)], w.here.session.store)
    ensures var r := Step(Step(w, DoRestart(Here, [SentKey(2)])), DoPublish(Here, 1, false, topic, payload, true));
            r.here.session.outbound == [second, Sent1(1, topic, payload, 2)]
  {
    hide Publishes, PublishOf, AssignedId, Valid, Lists, Restart, Sendable;
    RestartWithOne(w.here, second);
    FirstIds();
    IdsOf(second, second);
    PublishOne(Step(w, DoRestart(Here, [SentKey(2)])).here, topic, payload, 1);
  }

  /** Two messages are published, the first is acknowledged, the client is created again over its store, and publishes
      a third: it gets id 1. The next restart has the third message before the second. */
  lemma RestartsMayReorder(limitHere: nat, limitThere: nat, topic: seq<Byte>, payload: seq<Byte>, w: World,
                           keys: seq<Key>)
    requires limitHere >= 2 && Sendable(topic, payload)
    requires w == Run(Start(limitHere, limitThere), ReorderingRun(topic, payload))
    requires Lists(keys, w.here.session.store)
    ensures var second, third := Sent1(2, topic, payload, 1), Sent1(1, topic, payload, 2);
            w.here.session.outbound == [second, third] && Restart(w.here.session, keys).outbound == [third, second]
  {
    hide Step, Inv, Lists, Restart, Sendable;
    var a := DoPublish(Here, 1, false, topic, payload, true);
    var w0 := Start(limitHere, limitThere);
    RunSix(w0, a, a, DoReceive(There, true), DoReceive(Here, true), DoRestart(Here, [SentKey(2)]), a);
    StartInv(limitHere, limitThere);
    var w4 := FirstIsAcknowledged(limitHere, limitThere, topic, payload);
    KeepsFour(w0, a, a, DoReceive(There, true), DoReceive(Here, true));
    EndOf(w4);
    ThirdGetsIdOne(w4, topic, payload, Sent1(2, topic, payload, 1));
    var w5 := Step(w4, DoRestart(Here, [SentKey(2)]));
    StepKeepsInv(w4, DoRestart(Here, [SentKey(2)]));
    StepKeepsInv(w5, a);
    IsValid(w, Here);
    IsSwapped(w.here.session, keys);
  }

  lemma KeepsFour(w: World, a1: Action, a2: Action, a3: Action, a4: Action)
    requires Inv(w)
    ensures Inv(Step(Step(Step(Step(w, a1), a2), a3), a4))
  {
    hide Step, Inv;
    StepKeepsInv(w, a1);
    StepKeepsInv(Step(w, a1), a2);
    StepKeepsInv(Step(Step(w, a1), a2), a3);
    StepKeepsInv(Step(Step(Step(w, a1), a2), a3), a4);
  }

  lemma EndOf(w: World)
    requires Inv(w)
    ensures Valid(w.here.session)
  {
  }

  lemma IsSwapped(s: Session, keys: seq<Key>)
    requires Valid(s) && Lists(keys, s.store)
    requires |s.outbound| == 2 && s.outbound[0].msgid == 2 && s.outbound[1].msgid == 1
    ensures Restart(s, keys).outbound == [s.outbound[1], s.outbound[0]]
  {
    hide Restart, Lists, Mirrored, ById;
    var ms, rs := s.outbound, Restart(s, keys).outbound;
    DescentOfOne(ms);
    RestartRestoresOrder(s, keys);
    RestartRestoresLists(s, keys);
    forall i | 0 <= i < 2
      ensures rs[i] == ms[0] || rs[i] == ms[1]
    {
      assert rs[i] in rs;
      MemberById(rs, rs[i]);
      MemberById(ms, rs[i]);
    }
  }
}
