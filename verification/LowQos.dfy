/** One direction of QoS 0 and QoS 1 traffic, and what sections 4.3.1 and 4.3.2 of MQTT 3.1.1 need of each step. */
module LowQos {
  import opened Messages
  import opened Link
  import opened LinkSteps

  predicate IsPub0(p: Packet) { p.Publish? && p.qos == 0 }
  predicate IsPub1(p: Packet, id: nat) { p.Publish? && p.qos == 1 && p.msgId == id }
  predicate IsAck(p: Packet, id: nat) { p.Puback? && p.msgId == id }

  ghost predicate NoPublish(c: seq<Packet>) { forall j :: 0 <= j < |c| ==> !c[j].Publish? }
  ghost predicate NoPuback(c: seq<Packet>) { forall j :: 0 <= j < |c| ==> !c[j].Puback? }
  ghost predicate NoPub1(c: seq<Packet>, id: nat) { forall j :: 0 <= j < |c| ==> !IsPub1(c[j], id) }
  ghost predicate NoAck(c: seq<Packet>, id: nat) { forall j :: 0 <= j < |c| ==> !IsAck(c[j], id) }

  /** The publication with this serial number has arrived with this QoS. */
  ghost predicate Arrived(arrived: seq<QEntry>, qos: nat, serial: nat) {
    exists j :: 0 <= j < |arrived| && arrived[j].qos == qos && arrived[j].pub.serial == serial
  }

  // ---------- what holds whatever happens ----------

  /** What is under way and what has arrived was published with this QoS, topic and payload. */
  ghost predicate AllLogged(l: Link) {
    && (forall j :: 0 <= j < |l.fwd| && l.fwd[j].Publish? ==>
          Logged(l.log, l.fwd[j].qos, l.fwd[j].retain, l.fwd[j].pub))
    && (forall j :: 0 <= j < |l.arrived| && l.arrived[j].qos < 2 ==>
          Logged(l.log, l.arrived[j].qos, l.arrived[j].retain, l.arrived[j].pub))
  }

  /** The QoS 0 messages that have arrived, and behind them those under way, are in the order of publication. */
  ghost predicate InOrder0(l: Link) {
    && (forall j, k :: 0 <= j < k < |l.arrived| && l.arrived[j].qos == 0 && l.arrived[k].qos == 0 ==>
          l.arrived[j].pub.serial < l.arrived[k].pub.serial)
    && (forall j, k :: 0 <= j < |l.arrived| && 0 <= k < |l.fwd| && l.arrived[j].qos == 0 && IsPub0(l.fwd[k]) ==>
          l.arrived[j].pub.serial < l.fwd[k].pub.serial)
    && (forall j, k :: 0 <= j < k < |l.fwd| && IsPub0(l.fwd[j]) && IsPub0(l.fwd[k]) ==>
          l.fwd[j].pub.serial < l.fwd[k].pub.serial)
  }

  ghost predicate Sound(l: Link) {
    AllLogged(l) && InOrder0(l)
  }

  /** Packets may be lost and others than PUBLISH sent. */
  lemma SoundPlain(l: Link, r: Link, i: nat, ps: seq<Packet>)
    requires Sound(l) && i <= |l.fwd| && NoPublish(ps)
    requires r.fwd == l.fwd[i..] + ps && r.log == l.log && r.arrived == l.arrived
    ensures Sound(r)
  {
    forall j | |l.fwd| - i <= j < |r.fwd|
      ensures !r.fwd[j].Publish?
    {
      assert r.fwd[j] == ps[j - (|l.fwd| - i)];
    }
  }

  lemma SoundPublished(l: Link, r: Link, p: Packet, sent: bool)
    requires Sound(l) && p.Publish? && p.pub.serial == |l.log|
    requires r.log == l.log + [LogEntry(p.qos, p.retain, p.pub)]
    requires r.fwd == Sent(l.fwd, p, sent) && r.arrived == l.arrived
    ensures Sound(r)
  {
  }

  lemma SoundAgain(l: Link, r: Link, p: Packet, sent: bool)
    requires Sound(l) && p.Publish? && p.qos > 0 && Logged(l.log, p.qos, p.retain, p.pub)
    requires r.fwd == Sent(l.fwd, p, sent) && r.log == l.log && r.arrived == l.arrived
    ensures Sound(r)
  {
  }

  lemma SoundArrived(l: Link, r: Link, e: QEntry)
    requires Sound(l) && l.fwd != []
    requires e.qos < 2 ==> l.fwd[0].Publish? && e.qos == l.fwd[0].qos && e.retain == l.fwd[0].retain
                           && e.pub == l.fwd[0].pub
    requires r.fwd == l.fwd[1..] && r.log == l.log && r.arrived == l.arrived + [e]
    ensures Sound(r)
  {
  }

  // ---------- QoS 1, at least once ----------

  /** Nothing of an earlier use of the id in a QoS 1 exchange is under way. */
  ghost predicate Clear(l: Link, id: nat) {
    NoPub1(l.fwd, id) && NoAck(l.back, id)
  }

  /** A QoS 1 message in flight: every PUBLISH under way with its id carries it, and a PUBACK is only under way
      once it has arrived. */
  ghost predicate Exchange1(l: Link, id: nat) {
    id in l.out && l.out[id].qos == 1 ==>
      && (forall j :: 0 <= j < |l.fwd| && IsPub1(l.fwd[j], id) ==> l.fwd[j].pub == l.out[id].pub)
      && (NoAck(l.back, id) || Arrived(l.arrived, 1, l.out[id].pub.serial))
  }

  /** A QoS 1 publication that its sender no longer holds has arrived. */
  ghost predicate NoneLost1(l: Link) {
    forall u :: 0 <= u < |l.log| && l.log[u].qos == 1 ==> InFlight(l, u) || Arrived(l.arrived, 1, u)
  }

  ghost predicate Inv1(l: Link) {
    NoneLost1(l) && forall id :: Exchange1(l, id)
  }

  lemma ArrivedStays(l: Link, r: Link)
    requires l.arrived <= r.arrived
    ensures forall q: nat, u: nat :: Arrived(l.arrived, q, u) ==> Arrived(r.arrived, q, u)
  {
    forall q: nat, u: nat | Arrived(l.arrived, q, u)
      ensures Arrived(r.arrived, q, u)
    {
      var j :| 0 <= j < |l.arrived| && l.arrived[j].qos == q && l.arrived[j].pub.serial == u;
      assert r.arrived[j] == l.arrived[j];
    }
  }

  lemma SameLost(l: Link, r: Link)
    requires NoneLost1(l) && r.log == l.log && r.out == l.out && l.arrived <= r.arrived
    ensures NoneLost1(r)
  {
    ArrivedStays(l, r);
    assert forall u: nat :: InFlight(l, u) ==> InFlight(r, u);
  }

  /** Packets may be lost, and others than PUBLISH one way and PUBACK the other sent. */
  lemma PlainKeeps1(l: Link, r: Link, i: nat, j: nat, ps: seq<Packet>, qs: seq<Packet>)
    requires Inv1(l) && i <= |l.fwd| && j <= |l.back| && NoPublish(ps) && NoPuback(qs)
    requires r.fwd == l.fwd[i..] + ps && r.back == l.back[j..] + qs
    requires r.out == l.out && r.log == l.log && r.arrived == l.arrived
    ensures Inv1(r)
  {
    SameLost(l, r);
    forall k | |l.fwd| - i <= k < |r.fwd|
      ensures !r.fwd[k].Publish?
    {
      assert r.fwd[k] == ps[k - (|l.fwd| - i)];
    }
    forall k | |l.back| - j <= k < |r.back|
      ensures !r.back[k].Puback?
    {
      assert r.back[k] == qs[k - (|l.back| - j)];
    }
    forall id
      ensures Exchange1(r, id)
    {
      assert Exchange1(l, id);
    }
  }

  lemma PublishedKeeps1(l: Link, r: Link, m: Message, p: Packet, sent: bool)
    requires Inv1(l) && m.msgid !in l.out && m.pub.serial == |l.log| && (m.qos == 1 ==> Clear(l, m.msgid))
    requires p.Publish? && p.qos == m.qos && p.msgId == m.msgid && p.pub == m.pub
    requires r.log == l.log + [LogEntry(m.qos, m.retain, m.pub)] && r.out == l.out[m.msgid := m]
    requires r.fwd == Sent(l.fwd, p, sent) && r.back == l.back && r.arrived == l.arrived
    ensures Inv1(r)
  {
    forall id
      ensures Exchange1(r, id)
    {
      assert Exchange1(l, id);
    }
    forall u | 0 <= u < |r.log| && r.log[u].qos == 1
      ensures InFlight(r, u) || Arrived(r.arrived, 1, u)
    {
      if u == |l.log| {
        assert r.out[m.msgid].pub.serial == u;
      } else if InFlight(l, u) {
        var id :| id in l.out && l.out[id].pub.serial == u;
        assert r.out[id].pub.serial == u;
      }
    }
  }

  /** A QoS 0 message does not matter to QoS 1. */
  lemma Published0Keeps1(l: Link, r: Link, p: Packet, sent: bool)
    requires Inv1(l) && IsPub0(p)
    requires r.log == l.log + [LogEntry(0, p.retain, p.pub)] && r.out == l.out
    requires r.fwd == Sent(l.fwd, p, sent) && r.back == l.back && r.arrived == l.arrived
    ensures Inv1(r)
  {
    forall id
      ensures Exchange1(r, id)
    {
      assert Exchange1(l, id);
    }
    assert forall u: nat :: InFlight(l, u) ==> InFlight(r, u);
  }

  lemma AgainKeeps1(l: Link, r: Link, m: Message, p: Packet, sent: bool)
    requires Inv1(l) && m.msgid in l.out && l.out[m.msgid] == m
    requires p.Publish? && p.qos == m.qos && p.msgId == m.msgid && p.pub == m.pub
    requires r.out == l.out && r.log == l.log && r.arrived == l.arrived
    requires r.fwd == Sent(l.fwd, p, sent) && r.back == l.back
    ensures Inv1(r)
  {
    SameLost(l, r);
    forall id
      ensures Exchange1(r, id)
    {
      assert Exchange1(l, id);
    }
  }

  /** What the sender does with a packet: the PUBACK for it, and nothing else, takes a QoS 1 message out, and no message
      is put in or exchanged. */
  ghost predicate AnswerTaken(out: map<nat, Message>, out': map<nat, Message>, p: Packet) {
    && (forall id :: id in out && out[id].qos == 1 ==>
          if IsAck(p, id) then id !in out' else id in out' && out'[id] == out[id])
    && (forall id :: id in out' ==> id in out && out'[id].pub == out[id].pub)
    && (forall id :: id in out' && out'[id].qos == 1 ==> out'[id] == out[id])
  }

  /** So a PUBACK ends the exchange of a message that has arrived. */
  lemma AnsweredKeeps1(l: Link, r: Link, p: Packet, ps: seq<Packet>)
    requires Inv1(l) && OutLogged(l) && l.back != [] && l.back[0] == p
    requires AnswerTaken(l.out, r.out, p) && NoPublish(ps)
    requires r.fwd == l.fwd + ps && r.back == l.back[1..] && r.log == l.log && r.arrived == l.arrived
    ensures Inv1(r)
  {
    forall k | |l.fwd| <= k < |r.fwd|
      ensures !r.fwd[k].Publish?
    {
      assert r.fwd[k] == ps[k - |l.fwd|];
    }
    forall id
      ensures Exchange1(r, id)
    {
      assert Exchange1(l, id);
    }
    forall u | 0 <= u < |r.log| && r.log[u].qos == 1
      ensures InFlight(r, u) || Arrived(r.arrived, 1, u)
    {
      if InFlight(l, u) {
        var id :| id in l.out && l.out[id].pub.serial == u;
        assert Exchange1(l, id);
        assert !IsAck(p, id) ==> r.out[id].pub.serial == u;
      }
    }
  }

  /** A PUBLISH of QoS 1 is handed on, and then answered. */
  lemma ArrivedKeeps1(l: Link, r: Link, e: QEntry, qs: seq<Packet>)
    requires Inv1(l) && l.fwd != [] && (forall k :: 0 <= k < |qs| && qs[k].Puback? ==> IsPub1(l.fwd[0], qs[k].msgId))
    requires l.fwd[0].Publish? && l.fwd[0].qos == 1 ==> e.qos == 1 && e.pub == l.fwd[0].pub
    requires r.fwd == l.fwd[1..] && r.back == l.back + qs && r.arrived == l.arrived + [e]
    requires r.out == l.out && r.log == l.log
    ensures Inv1(r)
  {
    SameLost(l, r);
    ArrivedStays(l, r);
    assert r.arrived[|l.arrived|] == e;
    forall id
      ensures Exchange1(r, id)
    {
      assert Exchange1(l, id);
      if !NoAck(r.back, id) && NoAck(l.back, id) {
        var k :| 0 <= k < |r.back| && IsAck(r.back[k], id);
        assert k >= |l.back| && r.back[k] == qs[k - |l.back|];
      }
    }
  }

  // ---------- QoS 0 without losses ----------

  /** Every QoS 0 publication has arrived or is under way. */
  ghost predicate NoneLost0(l: Link) {
    forall u :: 0 <= u < |l.log| && l.log[u].qos == 0 ==> Arrived(l.arrived, 0, u) || UnderWay(l.fwd, u)
  }

  ghost predicate UnderWay(c: seq<Packet>, serial: nat) {
    exists k :: 0 <= k < |c| && IsPub0(c[k]) && c[k].pub.serial == serial
  }

  lemma StillUnderWay(c: seq<Packet>, d: seq<Packet>)
    ensures forall u: nat :: UnderWay(c, u) ==> UnderWay(c + d, u)
    ensures forall u: nat :: c != [] && UnderWay(c, u) ==> UnderWay(c[1..], u) || (IsPub0(c[0]) && c[0].pub.serial == u)
  {
    forall u: nat | UnderWay(c, u)
      ensures UnderWay(c + d, u)
      ensures UnderWay(c[1..], u) || (IsPub0(c[0]) && c[0].pub.serial == u)
    {
      var k :| 0 <= k < |c| && IsPub0(c[k]) && c[k].pub.serial == u;
      assert (c + d)[k] == c[k];
      assert k > 0 ==> c[1..][k - 1] == c[k];
    }
  }

  lemma MoreSent(l: Link, r: Link, ps: seq<Packet>)
    requires NoneLost0(l) && r.fwd == l.fwd + ps && r.log == l.log && r.arrived == l.arrived
    ensures NoneLost0(r)
  {
    StillUnderWay(l.fwd, ps);
  }

  lemma PublishedAndSent(l: Link, r: Link, p: Packet, sent: bool)
    requires NoneLost0(l) && p.Publish? && p.pub.serial == |l.log| && (p.qos == 0 ==> sent)
    requires r.log == l.log + [LogEntry(p.qos, p.retain, p.pub)]
    requires r.fwd == Sent(l.fwd, p, sent) && r.arrived == l.arrived
    ensures NoneLost0(r)
  {
    StillUnderWay(l.fwd, [p]);
    assert sent ==> r.fwd[|l.fwd|] == p;
  }

  lemma TakenIn(l: Link, r: Link, es: seq<QEntry>)
    requires NoneLost0(l) && l.fwd != []
    requires IsPub0(l.fwd[0]) ==> |es| == 1 && es[0].qos == 0 && es[0].pub == l.fwd[0].pub
    requires r.fwd == l.fwd[1..] && r.log == l.log && r.arrived == l.arrived + es
    ensures NoneLost0(r)
  {
    StillUnderWay(l.fwd, []);
    ArrivedStays(l, r);
    assert IsPub0(l.fwd[0]) ==> r.arrived[|l.arrived|] == es[0];
  }
}
