/** One direction of QoS 2 traffic, and the invariant of the exchange of section 4.3.3 of MQTT 3.1.1. */
module Link {
  // A direction has the outbound messages of a sender, the inbound messages of its peer, the packets under way
  // both ways, the log of what the sender published and what has arrived at the peer. The invariant is kept
  // although any packet may be lost, retries may come at any time, QoS 1 traffic shares the message ids, and old
  // PUBRELs may still be under way when an id is used again.

  import opened Messages

  datatype LogEntry = LogEntry(qos: nat, retain: bool, pub: Publication)

  datatype Link = Link(
    out: map<nat, Message>,
    inb: map<nat, Message>,
    fwd: seq<Packet>,
    back: seq<Packet>,
    log: seq<LogEntry>,
    arrived: seq<QEntry>)

  // ---------- the packets of one exchange ----------

  predicate IsPub(p: Packet, id: nat) { p.Publish? && p.qos == 2 && p.msgId == id }
  predicate IsRel(p: Packet, id: nat) { p.Pubrel? && p.msgId == id }
  predicate IsRec(p: Packet, id: nat) { p.Pubrec? && p.msgId == id }
  predicate IsComp(p: Packet, id: nat) { p.Pubcomp? && p.msgId == id }

  ghost predicate NoPub(c: seq<Packet>, id: nat) { forall j :: 0 <= j < |c| ==> !IsPub(c[j], id) }
  ghost predicate NoRel(c: seq<Packet>, id: nat) { forall j :: 0 <= j < |c| ==> !IsRel(c[j], id) }
  ghost predicate NoRec(c: seq<Packet>, id: nat) { forall j :: 0 <= j < |c| ==> !IsRec(c[j], id) }
  ghost predicate NoComp(c: seq<Packet>, id: nat) { forall j :: 0 <= j < |c| ==> !IsComp(c[j], id) }

  ghost predicate NoRelAfterPub(c: seq<Packet>, id: nat) {
    forall j, k :: 0 <= j < k < |c| && IsPub(c[j], id) ==> !IsRel(c[k], id)
  }

  ghost predicate NoPubAfterRel(c: seq<Packet>, id: nat) {
    forall j, k :: 0 <= j < k < |c| && IsRel(c[j], id) ==> !IsPub(c[k], id)
  }

  ghost predicate NothingAfterComp(c: seq<Packet>, id: nat) {
    forall j, k :: 0 <= j < k < |c| && IsComp(c[j], id) ==> !IsRec(c[k], id) && !IsComp(c[k], id)
  }

  /** Every PUBLISH of the exchange under way is one of this message. */
  ghost predicate PubsCarry(c: seq<Packet>, m: Message) {
    forall j :: 0 <= j < |c| && IsPub(c[j], m.msgid) ==> c[j].pub == m.pub && c[j].retain == m.retain
  }

  ghost predicate IsDelivered(arrived: seq<QEntry>, serial: nat) {
    exists j :: 0 <= j < |arrived| && arrived[j].qos == 2 && arrived[j].pub.serial == serial
  }

  // ---------- the phases of one exchange ----------

  /** No exchange with this id is open. */
  ghost predicate Idle(l: Link, id: nat) {
    id !in l.inb && NoPub(l.fwd, id) && NoRec(l.back, id) && NoComp(l.back, id)
  }

  /** The sender still waits for PUBREC. PUBRELs under way are left over from an earlier use of the id,
      and the peer meets them before the first PUBLISH of this one. */
  ghost predicate BeforeRelease(l: Link, m: Message) {
    && !IsDelivered(l.arrived, m.pub.serial)
    && NoComp(l.back, m.msgid)
    && (if m.msgid in l.inb then NoRel(l.fwd, m.msgid)
        else NoRec(l.back, m.msgid) && NoRelAfterPub(l.fwd, m.msgid))
  }

  /** The sender has answered PUBREC and waits for PUBCOMP. */
  ghost predicate AfterRelease(l: Link, m: Message) {
    if m.msgid in l.inb then
      !IsDelivered(l.arrived, m.pub.serial) && NoPubAfterRel(l.fwd, m.msgid) && NoComp(l.back, m.msgid)
    else
      IsDelivered(l.arrived, m.pub.serial) && NoPub(l.fwd, m.msgid) && NothingAfterComp(l.back, m.msgid)
  }

  ghost predicate Exchange(l: Link, id: nat) {
    if id in l.out && l.out[id].qos == 2 then
      var m := l.out[id];
      && PubsCarry(l.fwd, m)
      && (id in l.inb ==> l.inb[id].pub == m.pub && l.inb[id].retain == m.retain)
      && (if m.nextMessageType == PUBREC then BeforeRelease(l, m) else AfterRelease(l, m))
    else Idle(l, id)
  }

  // ---------- the logs ----------

  ghost predicate Logged(log: seq<LogEntry>, qos: nat, retain: bool, pub: Publication) {
    pub.serial < |log| && log[pub.serial] == LogEntry(qos, retain, pub)
  }

  ghost predicate OutLogged(l: Link) {
    && (forall id :: id in l.out ==> l.out[id].msgid == id
                                     && Logged(l.log, l.out[id].qos, l.out[id].retain, l.out[id].pub))
    && (forall i, j :: i in l.out && j in l.out && i != j ==> l.out[i].pub.serial != l.out[j].pub.serial)
  }

  /** Every QoS 2 arrival is a publication of the sender, with the payload it was published with, and no
      publication has arrived twice. */
  ghost predicate AtMostOnce(l: Link) {
    && (forall j :: 0 <= j < |l.arrived| && l.arrived[j].qos == 2 ==>
          Logged(l.log, 2, l.arrived[j].retain, l.arrived[j].pub))
    && (forall j, k :: 0 <= j < k < |l.arrived| && l.arrived[j].qos == 2 && l.arrived[k].qos == 2 ==>
          l.arrived[j].pub.serial != l.arrived[k].pub.serial)
  }

  ghost predicate InFlight(l: Link, serial: nat) {
    exists id :: id in l.out && l.out[id].pub.serial == serial
  }

  /** A QoS 2 publication that its sender no longer holds has arrived. */
  ghost predicate NoneLost(l: Link) {
    forall u :: 0 <= u < |l.log| && l.log[u].qos == 2 ==> InFlight(l, u) || IsDelivered(l.arrived, u)
  }

  ghost predicate Inv(l: Link) {
    && OutLogged(l) && AtMostOnce(l) && NoneLost(l)
    && (forall id :: id in l.inb ==> l.inb[id].qos == 2 && l.inb[id].nextMessageType == PUBREL && l.inb[id].msgid == id)
    && (forall j :: 0 <= j < |l.fwd| && l.fwd[j].Pubrel? ==> !l.fwd[j].dup)
    && (forall id :: Exchange(l, id))
  }

  // ---------- steps that do not concern the direction ----------

  predicate ForwardMatters(p: Packet) { (p.Publish? && p.qos == 2) || p.Pubrel? }
  predicate BackwardMatters(p: Packet) { p.Pubrec? || p.Pubcomp? }

  /** Losing any number of the oldest packets each way keeps the invariant. */
  lemma Dropped(l: Link, i: nat, j: nat)
    requires Inv(l) && i <= |l.fwd| && j <= |l.back|
    ensures Inv(l.(fwd := l.fwd[i..], back := l.back[j..]))
  {
    var r := l.(fwd := l.fwd[i..], back := l.back[j..]);
    forall id
      ensures Exchange(r, id)
    {
      assert Exchange(l, id);
    }
    assert NoneLost(r) by {
      SameHistory(l, r);
    }
  }

  lemma SameHistory(l: Link, r: Link)
    requires NoneLost(l) && r.log == l.log
    requires forall u: nat :: InFlight(l, u) ==> InFlight(r, u) || IsDelivered(r.arrived, u)
                                                  || (u < |l.log| && l.log[u].qos != 2)
    requires forall u: nat :: IsDelivered(l.arrived, u) ==> IsDelivered(r.arrived, u)
    ensures NoneLost(r)
  {
  }

  /** Packets of the other direction do not matter. */
  lemma Appended(l: Link, ps: seq<Packet>, qs: seq<Packet>)
    requires Inv(l)
    requires forall p :: p in ps ==> !ForwardMatters(p)
    requires forall q :: q in qs ==> !BackwardMatters(q)
    ensures Inv(l.(fwd := l.fwd + ps, back := l.back + qs))
  {
    var r := l.(fwd := l.fwd + ps, back := l.back + qs);
    forall j | |l.fwd| <= j < |r.fwd|
      ensures !ForwardMatters(r.fwd[j])
    {
      assert r.fwd[j] == ps[j - |l.fwd|];
    }
    forall j | |l.back| <= j < |r.back|
      ensures !BackwardMatters(r.back[j])
    {
      assert r.back[j] == qs[j - |l.back|];
    }
    forall id
      ensures Exchange(r, id)
    {
      assert Exchange(l, id);
    }
    SameHistory(l, r);
  }
}
