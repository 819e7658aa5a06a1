/** The steps of one QoS 2 exchange keep the invariant of its direction. Each takes `fwd` or `back` with the
    packet it handles still at the front, and may lose the packet it sends. */
module LinkSteps {
  import opened Messages
  import opened Link

  function Sent(c: seq<Packet>, p: Packet, sent: bool): seq<Packet> {
    if sent then c + [p] else c
  }

  /** A step of the sender under one id leaves the other exchanges alone. */
  lemma OtherExchange(l: Link, r: Link, p: Packet, sent: bool, i: nat, other: nat)
    requires Exchange(l, other) && other != p.msgId && i <= |l.back|
    requires other in r.out <==> other in l.out
    requires other in l.out ==> r.out[other] == l.out[other] && l.out[other].msgid == other
    requires r.inb == l.inb && r.arrived == l.arrived
    requires r.fwd == Sent(l.fwd, p, sent) && r.back == l.back[i..]
    ensures Exchange(r, other)
  {
  }

  /** A step of the receiver under one id leaves the other exchanges alone. */
  lemma OtherExchangeReceived(l: Link, r: Link, p: Packet, sent: bool, other: nat)
    requires Exchange(l, other) && other != p.msgId && l.fwd != []
    requires r.out == l.out
    requires other in l.out ==> l.out[other].msgid == other
    requires other in r.inb <==> other in l.inb
    requires other in l.inb ==> r.inb[other] == l.inb[other]
    requires other in l.out ==> (IsDelivered(r.arrived, l.out[other].pub.serial) <==>
                                 IsDelivered(l.arrived, l.out[other].pub.serial))
    requires r.back == Sent(l.back, p, sent) && r.fwd == l.fwd[1..]
    ensures Exchange(r, other)
  {
  }

  // ---------- the sender publishes ----------

  /** A new QoS 1 or QoS 2 message under a free id. */
  lemma Published(l: Link, m: Message, p: Packet, sent: bool)
    requires Inv(l) && m.msgid !in l.out && m.pub.serial == |l.log|
    requires m.qos in {1, 2} && (m.qos == 2 ==> m.nextMessageType == PUBREC)
    requires p.Publish? && p.qos == m.qos && p.msgId == m.msgid && p.pub == m.pub && p.retain == m.retain
    ensures Inv(l.(out := l.out[m.msgid := m], fwd := Sent(l.fwd, p, sent),
                   log := l.log + [LogEntry(m.qos, m.retain, m.pub)]))
  {
    var r := l.(out := l.out[m.msgid := m], fwd := Sent(l.fwd, p, sent),
                log := l.log + [LogEntry(m.qos, m.retain, m.pub)]);
    NewExchange(l, r, m, p, sent);
    forall id
      ensures Exchange(r, id)
    {
      if id != m.msgid {
        assert Exchange(l, id);
        OtherExchange(l, r, p, sent, 0, id);
      }
    }
    NewLogEntry(l, r, m);
  }

  lemma NewExchange(l: Link, r: Link, m: Message, p: Packet, sent: bool)
    requires Inv(l) && m.msgid !in l.out && m.pub.serial == |l.log|
    requires m.qos in {1, 2} && (m.qos == 2 ==> m.nextMessageType == PUBREC)
    requires p.Publish? && p.qos == m.qos && p.msgId == m.msgid && p.pub == m.pub && p.retain == m.retain
    requires r.out == l.out[m.msgid := m] && r.fwd == Sent(l.fwd, p, sent)
    requires r.inb == l.inb && r.back == l.back && r.arrived == l.arrived
    ensures Exchange(r, m.msgid)
  {
    assert Exchange(l, m.msgid);
    assert Idle(l, m.msgid);
    assert !IsDelivered(l.arrived, m.pub.serial);
  }

  lemma NewLogEntry(l: Link, r: Link, m: Message)
    requires NoneLost(l) && m.msgid !in l.out && m.pub.serial == |l.log|
    requires r.out == l.out[m.msgid := m] && r.arrived == l.arrived
    requires r.log == l.log + [LogEntry(m.qos, m.retain, m.pub)]
    ensures NoneLost(r)
  {
    forall u | 0 <= u < |r.log| && r.log[u].qos == 2
      ensures InFlight(r, u) || IsDelivered(r.arrived, u)
    {
      if u == |l.log| {
        assert r.out[m.msgid].pub.serial == u;
      } else if InFlight(l, u) {
        var id :| id in l.out && l.out[id].pub.serial == u;
        assert r.out[id].pub.serial == u;
      }
    }
  }

  /** A QoS 0 message only enters the log. */
  lemma PublishedQoS0(l: Link, entry: LogEntry)
    requires Inv(l) && entry.qos == 0
    ensures Inv(l.(log := l.log + [entry]))
  {
    var r := l.(log := l.log + [entry]);
    forall id
      ensures Exchange(r, id)
    {
      assert Exchange(l, id);
    }
    forall u | 0 <= u < |r.log| && r.log[u].qos == 2
      ensures InFlight(r, u) || IsDelivered(r.arrived, u)
    {
      if InFlight(l, u) {
        var id :| id in l.out && l.out[id].pub.serial == u;
        assert r.out[id].pub.serial == u;
      }
    }
  }

  // ---------- the sender retries ----------

  lemma RetriedPublish(l: Link, m: Message, sent: bool)
    requires Inv(l) && m.msgid in l.out && l.out[m.msgid] == m && m.qos == 2 && m.nextMessageType == PUBREC
    ensures Inv(l.(fwd := Sent(l.fwd, Publish(true, 2, m.retain, m.msgid, m.pub), sent)))
  {
    var r := l.(fwd := Sent(l.fwd, Publish(true, 2, m.retain, m.msgid, m.pub), sent));
    forall id
      ensures Exchange(r, id)
    {
      assert Exchange(l, id);
    }
    SameHistory(l, r);
  }

  lemma RetriedRelease(l: Link, m: Message, sent: bool)
    requires Inv(l) && m.msgid in l.out && l.out[m.msgid] == m && m.qos == 2 && m.nextMessageType != PUBREC
    ensures Inv(l.(fwd := Sent(l.fwd, Pubrel(false, m.msgid), sent)))
  {
    var r := l.(fwd := Sent(l.fwd, Pubrel(false, m.msgid), sent));
    forall id
      ensures Exchange(r, id)
    {
      assert Exchange(l, id);
    }
    SameHistory(l, r);
  }

  // ---------- the sender is answered ----------

  /** PUBACK ends a QoS 1 exchange. */
  lemma Acknowledged(l: Link, id: nat)
    requires Inv(l) && id in l.out && l.out[id].qos == 1
    ensures Inv(l.(out := l.out - {id}))
  {
    var r := l.(out := l.out - {id});
    forall other
      ensures Exchange(r, other)
    {
      assert Exchange(l, other);
    }
    forall u: nat | InFlight(l, u)
      ensures InFlight(r, u) || (u < |l.log| && l.log[u].qos != 2)
    {
      var other :| other in l.out && l.out[other].pub.serial == u;
      assert other != id ==> r.out[other].pub.serial == u;
    }
    SameHistory(l, r);
  }

  /** PUBREC is answered with PUBREL. */
  lemma Released(l: Link, m: Message, sent: bool)
    requires Inv(l) && l.back != [] && IsRec(l.back[0], m.msgid)
    requires m.msgid in l.out && l.out[m.msgid] == m && m.qos == 2 && m.nextMessageType == PUBREC
    ensures Inv(l.(out := l.out[m.msgid := m.(nextMessageType := PUBCOMP)],
                   fwd := Sent(l.fwd, Pubrel(false, m.msgid), sent), back := l.back[1..]))
  {
    hide Exchange, Logged, NoneLost, IsDelivered, InFlight;
    var r := l.(out := l.out[m.msgid := m.(nextMessageType := PUBCOMP)],
                fwd := Sent(l.fwd, Pubrel(false, m.msgid), sent), back := l.back[1..]);
    ReleasedExchange(l, r, m, sent);
    ReleasedLogged(l, r, m);
    forall id
      ensures Exchange(r, id)
    {
      if id != m.msgid {
        assert Exchange(l, id);
        OtherExchange(l, r, Pubrel(false, m.msgid), sent, 1, id);
      }
    }
    StillInFlight(l, r);
    SameHistory(l, r);
  }

  lemma ReleasedLogged(l: Link, r: Link, m: Message)
    requires OutLogged(l) && m.msgid in l.out && l.out[m.msgid] == m
    requires r.out == l.out[m.msgid := m.(nextMessageType := PUBCOMP)] && r.log == l.log
    ensures OutLogged(r)
  {
  }

  lemma ReleasedExchange(l: Link, r: Link, m: Message, sent: bool)
    requires Exchange(l, m.msgid) && l.back != [] && IsRec(l.back[0], m.msgid)
    requires m.msgid in l.out && l.out[m.msgid] == m && m.qos == 2 && m.nextMessageType == PUBREC
    requires r.out == l.out[m.msgid := m.(nextMessageType := PUBCOMP)]
    requires r.fwd == Sent(l.fwd, Pubrel(false, m.msgid), sent) && r.back == l.back[1..]
    requires r.inb == l.inb && r.arrived == l.arrived
    ensures Exchange(r, m.msgid)
  {
    assert m.msgid in l.inb && NoRel(l.fwd, m.msgid);
  }

  lemma StillInFlight(l: Link, r: Link)
    requires forall id :: id in l.out ==> id in r.out && r.out[id].pub == l.out[id].pub
    ensures forall u: nat :: InFlight(l, u) ==> InFlight(r, u)
  {
    forall u: nat | InFlight(l, u)
      ensures InFlight(r, u)
    {
      var id :| id in l.out && l.out[id].pub.serial == u;
      assert r.out[id].pub.serial == u;
    }
  }

  /** PUBCOMP ends the exchange: the message has arrived, and no packet of the exchange that the peer could
      act on is left. */
  lemma Completed(l: Link, id: nat)
    requires Inv(l) && l.back != [] && IsComp(l.back[0], id)
    requires id in l.out && l.out[id].qos == 2 && l.out[id].nextMessageType != PUBREC
    ensures IsDelivered(l.arrived, l.out[id].pub.serial)
    ensures Inv(l.(out := l.out - {id}, back := l.back[1..]))
  {
    var r := l.(out := l.out - {id}, back := l.back[1..]);
    assert Exchange(l, id);
    assert id !in l.inb;
    assert Idle(r, id);
    forall other
      ensures Exchange(r, other)
    {
      if other != id {
        assert Exchange(l, other);
        OtherExchange(l, r, Pubrel(false, id), false, 1, other);
      }
    }
    forall u: nat | InFlight(l, u)
      ensures InFlight(r, u) || IsDelivered(r.arrived, u)
    {
      var other :| other in l.out && l.out[other].pub.serial == u;
      assert other != id ==> r.out[other].pub.serial == u;
    }
    SameHistory(l, r);
  }

  // ---------- the receiver ----------

  /** A PUBLISH is stored, again if it was stored before, and answered with PUBREC. */
  lemma Stored(l: Link, p: Packet, m: Message, sent: bool)
    requires Inv(l) && l.fwd != [] && l.fwd[0] == p && IsPub(p, m.msgid)
    requires m.qos == 2 && m.nextMessageType == PUBREL && m.pub == p.pub && m.retain == p.retain
    ensures Inv(l.(inb := l.inb[m.msgid := m], fwd := l.fwd[1..],
                   back := Sent(l.back, Pubrec(false, m.msgid), sent)))
  {
    var r := l.(inb := l.inb[m.msgid := m], fwd := l.fwd[1..],
                back := Sent(l.back, Pubrec(false, m.msgid), sent));
    assert Exchange(l, m.msgid);
    StoredExchange(l, r, p, m, sent);
    forall id
      ensures Exchange(r, id)
    {
      if id != m.msgid {
        assert Exchange(l, id);
        OtherExchangeReceived(l, r, Pubrec(false, m.msgid), sent, id);
      }
    }
    SameHistory(l, r);
  }

  lemma StoredExchange(l: Link, r: Link, p: Packet, m: Message, sent: bool)
    requires Exchange(l, m.msgid) && l.fwd != [] && l.fwd[0] == p && IsPub(p, m.msgid)
    requires m.msgid in l.out ==> l.out[m.msgid].msgid == m.msgid
    requires m.pub == p.pub && m.retain == p.retain
    requires r == l.(inb := l.inb[m.msgid := m], fwd := l.fwd[1..],
                     back := Sent(l.back, Pubrec(false, m.msgid), sent))
    ensures Exchange(r, m.msgid)
  {
  }

  /** A PUBREL for a stored message delivers it; it has not been delivered before. */
  lemma Delivered(l: Link, id: nat, e: QEntry, sent: bool)
    requires Inv(l) && l.fwd != [] && IsRel(l.fwd[0], id) && id in l.inb
    requires e.qos == 2 && e.pub == l.inb[id].pub && e.retain == l.inb[id].retain
    ensures Inv(l.(inb := l.inb - {id}, fwd := l.fwd[1..], arrived := l.arrived + [e],
                   back := Sent(l.back, Pubcomp(false, id), sent)))
  {
    var r := l.(inb := l.inb - {id}, fwd := l.fwd[1..], arrived := l.arrived + [e],
                back := Sent(l.back, Pubcomp(false, id), sent));
    assert Exchange(l, id);
    ArrivalAdded(l.arrived, e);
    DeliveredExchange(l, r, id, e, sent);
    forall other
      ensures Exchange(r, other)
    {
      if other != id {
        assert Exchange(l, other);
        OtherExchangeReceived(l, r, Pubcomp(false, id), sent, other);
      }
    }
    SameHistory(l, r);
  }

  lemma DeliveredExchange(l: Link, r: Link, id: nat, e: QEntry, sent: bool)
    requires Exchange(l, id) && l.fwd != [] && IsRel(l.fwd[0], id) && id in l.inb
    requires id in l.out ==> l.out[id].msgid == id
    requires e.qos == 2 && e.pub == l.inb[id].pub && e.retain == l.inb[id].retain
    requires r == l.(inb := l.inb - {id}, fwd := l.fwd[1..], arrived := l.arrived + [e],
                     back := Sent(l.back, Pubcomp(false, id), sent))
    ensures Exchange(r, id)
    ensures id in l.out && l.out[id].qos == 2 && l.out[id].pub == e.pub
    ensures !IsDelivered(l.arrived, e.pub.serial)
  {
    ArrivalAdded(l.arrived, e);
  }

  lemma ArrivalAdded(arrived: seq<QEntry>, e: QEntry)
    ensures forall u: nat :: IsDelivered(arrived + [e], u) <==>
                             IsDelivered(arrived, u) || (e.qos == 2 && e.pub.serial == u)
  {
    var r := arrived + [e];
    forall u: nat
      ensures IsDelivered(r, u) <==> IsDelivered(arrived, u) || (e.qos == 2 && e.pub.serial == u)
    {
      if IsDelivered(arrived, u) {
        var j :| 0 <= j < |arrived| && arrived[j].qos == 2 && arrived[j].pub.serial == u;
        assert r[j] == arrived[j];
      }
      if e.qos == 2 && e.pub.serial == u {
        assert r[|arrived|] == e;
      }
    }
  }

  /** Arrivals of lower QoS do not matter. */
  lemma OtherArrival(l: Link, e: QEntry)
    requires Inv(l) && e.qos != 2
    ensures Inv(l.(arrived := l.arrived + [e]))
  {
    var r := l.(arrived := l.arrived + [e]);
    ArrivalAdded(l.arrived, e);
    forall id
      ensures Exchange(r, id)
    {
      assert Exchange(l, id);
    }
    SameHistory(l, r);
  }
}
