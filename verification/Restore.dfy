/**
 Restoring a client from its persistent store: MQTTPersistence_restore with its sorted insertion and the
 rotation of MQTTPersistence_wrapMsgID, and MQTTPersistence_restoreMessageQueue.
 */
module Restore {
  import opened Messages
  import opened SortedInsert

  const BY_ID: Message -> int := (m: Message) => m.msgid
  const BY_SEQNO: QEntry -> int := (e: QEntry) => e.seqno

  // ---------- the in-flight lists ----------

  datatype InFlight = InFlight(store: Store, outbound: seq<Message>, inbound: seq<Message>)

  /** MQTTProtocol_createMessage applied to a stored PUBLISH. */
  function CreateMessage(p: Packet): Message
    requires p.Publish?
  {
    Message(p.msgId, p.qos, p.retain, p.pub, if p.qos == 2 then PUBREC else Unset)
  }

  function RestoredSent(store: Store, p: Packet): Message
    requires p.Publish?
  {
    var m := CreateMessage(p);
    if RelKey(p.msgId) in store then m.(nextMessageType := PUBCOMP) else m
  }

  /** One key of the loop over the stored keys. A record of another kind than its key says does not occur:
      no code writes one. */
  function RestoreKey(s: InFlight, k: Key): InFlight
    requires k in s.store
  {
    match (k, s.store[k])
    case (RecvKey(_), PacketRecord(Publish(dup, qos, retain, id, pub))) =>
      s.(inbound := s.inbound + [CreateMessage(s.store[k].packet).(nextMessageType := PUBREL)])
    case (SentKey(_), PacketRecord(Publish(dup, qos, retain, id, pub))) =>
      s.(outbound := InsertInOrder(s.outbound, RestoredSent(s.store, s.store[k].packet), BY_ID))
    case (RelKey(_), PacketRecord(Pubrel(dup, id))) =>
      if SentKey(id) in s.store then s else s.(store := s.store - {k})
    case _ => s
  }

  /** The loop over the keys, in the order in which the store lists them. */
  function RestoreKeys(store: Store, keys: seq<Key>): (r: InFlight)
    decreases |keys|
  {
    if keys == [] then InFlight(store, [], [])
    else
      var n := |keys| - 1;
      var r := RestoreKeys(store, keys[..n]);
      if keys[n] in r.store then RestoreKey(r, keys[n]) else r
  }

  // ---------- the wrap point ----------

  /** The distance from one message id forward to another on the cycle 1..MAX_MSG_ID, a full turn when
      they are equal. */
  function Cyc(a: nat, b: nat): int {
    if a < b then b - a else b - a + MAX_MSG_ID
  }

  /** The distance from the last id of the list forward to its first. */
  function ClosingGap(ms: seq<Message>): int
    requires ms != []
  {
    Cyc(ms[|ms| - 1].msgid, ms[0].msgid)
  }

  function Gap(ms: seq<Message>, i: nat): int
    requires 0 < i < |ms|
  {
    Cyc(ms[i - 1].msgid, ms[i].msgid)
  }

  /** Where the ids of a sorted list wrapped: after its largest gap, the first one if there are several,
      provided that it is larger than the gap from the last id round to the first; 0 otherwise. */
  ghost predicate IsWrapPoint(ms: seq<Message>, w: nat)
    requires ms != []
  {
    && w < |ms|
    && (w == 0 ==> forall i :: 0 < i < |ms| ==> Gap(ms, i) <= ClosingGap(ms))
    && (w != 0 ==> Gap(ms, w) > ClosingGap(ms)
                   && (forall i :: 0 < i < w ==> Gap(ms, i) < Gap(ms, w))
                   && (forall i :: w < i < |ms| ==> Gap(ms, i) <= Gap(ms, w)))
  }

  /** The running maximum of MQTTPersistence_wrapMsgID after the gaps before place `n`. */
  function WrapPoint(ms: seq<Message>, n: nat): (w: nat)
    requires 1 <= n <= |ms|
    ensures w < n
  {
    if n == 1 then 0
    else
      var w := WrapPoint(ms, n - 1);
      if Gap(ms, n - 1) > (if w == 0 then ClosingGap(ms) else Gap(ms, w)) then n - 1 else w
  }

  function Rotated(ms: seq<Message>, w: nat): seq<Message>
    requires w <= |ms|
  {
    ms[w..] + ms[..w]
  }

  function WrapMsgID(ms: seq<Message>): seq<Message> {
    if ms == [] then ms else Rotated(ms, WrapPoint(ms, |ms|))
  }

  // ---------- the message queue ----------

  function RestoreQueueKeys(store: Store, keys: seq<Key>): seq<QEntry>
    decreases |keys|
  {
    if keys == [] then []
    else
      var n := |keys| - 1;
      var q := RestoreQueueKeys(store, keys[..n]);
      var k := keys[n];
      if k.QueueKey? && k in store && store[k].QueueRecord? then
        InsertInOrder(q, store[k].entry.(seqno := k.seqno), BY_SEQNO)
      else q
  }

  function MaxSeqno(q: seq<QEntry>): (n: nat)
    ensures forall e :: e in q ==> e.seqno <= n
    ensures n == 0 || exists e :: e in q && e.seqno == n
  {
    if q == [] then 0
    else
      var n := MaxSeqno(q[1..]);
      if n < q[0].seqno then assert q[0] in q; q[0].seqno
      else
        assert forall e :: e in q ==> e == q[0] || e in q[1..];
        n
  }

  // ---------- the wrap point is what the loop computes, and it is unique ----------

  lemma {:induction false} WrapPointIsMaximal(ms: seq<Message>, n: nat)
    requires 1 <= n <= |ms|
    ensures var w := WrapPoint(ms, n);
            var gap := if w == 0 then ClosingGap(ms) else Gap(ms, w);
            && gap >= ClosingGap(ms)
            && (w != 0 ==> gap > ClosingGap(ms))
            && (forall i :: 0 < i < n ==> Gap(ms, i) <= gap)
            && (forall i :: 0 < i < w ==> Gap(ms, i) < gap)
  {
    if n != 1 {
      WrapPointIsMaximal(ms, n - 1);
    }
  }

  lemma WrapPointSpec(ms: seq<Message>, w: nat)
    requires ms != []
    ensures IsWrapPoint(ms, w) <==> w == WrapPoint(ms, |ms|)
  {
    var v := WrapPoint(ms, |ms|);
    WrapPointIsMaximal(ms, |ms|);
    assert w < v && v < |ms| && w != 0 ==> Gap(ms, w) < Gap(ms, v);
    assert v < w && w < |ms| && v != 0 ==> Gap(ms, w) <= Gap(ms, v);
  }

  // ---------- restored send order ----------

  /** The place where the ids of a list go down, or its length. */
  ghost predicate IsDescent(ms: seq<Message>, d: nat) {
    && 0 < d <= |ms|
    && Increasing(ms[..d], BY_ID)
    && Increasing(ms[d..], BY_ID)
    && (d < |ms| ==> ms[|ms| - 1].msgid < ms[0].msgid)
  }

  /** The ids run forward once round the cycle, and no gap is larger than the one that closes the cycle;
      past the place where the ids wrapped, every gap is smaller. */
  ghost predicate KeepsOrder(ms: seq<Message>, d: nat)
    requires ms != []
  {
    && IsDescent(ms, d)
    && (forall i :: 0 < i < |ms| ==> Gap(ms, i) <= ClosingGap(ms))
    && (forall i :: d <= i < |ms| ==> Gap(ms, i) < ClosingGap(ms))
  }

  ghost predicate SameMessages(xs: seq<Message>, ys: seq<Message>) {
    forall m :: m in xs <==> m in ys
  }

  lemma RotatedIncreasing(ms: seq<Message>, d: nat)
    requires IsDescent(ms, d)
    ensures Increasing(Rotated(ms, d), BY_ID)
    ensures SameMessages(Rotated(ms, d), ms)
  {
    var r := Rotated(ms, d);
    var n := |ms|;
    forall i, j | 0 <= i < j < |r|
      ensures BY_ID(r[i]) < BY_ID(r[j])
    {
      if j < n - d {
        assert r[i] == ms[d..][i] && r[j] == ms[d..][j];
      } else if n - d <= i {
        assert r[i] == ms[..d][i - (n - d)] && r[j] == ms[..d][j - (n - d)];
      } else {
        assert r[i] == ms[d..][i] && r[j] == ms[..d][j - (n - d)];
        LastIsLargest(ms[d..], i);
        FirstIsSmallest(ms[..d], j - (n - d));
      }
    }
    assert ms == ms[..d] + ms[d..];
  }

  lemma LastIsLargest(ms: seq<Message>, i: nat)
    requires Increasing(ms, BY_ID) && i < |ms|
    ensures ms[i].msgid <= ms[|ms| - 1].msgid
  {
    assert i < |ms| - 1 ==> BY_ID(ms[i]) < BY_ID(ms[|ms| - 1]);
  }

  lemma FirstIsSmallest(ms: seq<Message>, i: nat)
    requires Increasing(ms, BY_ID) && i < |ms|
    ensures ms[0].msgid <= ms[i].msgid
  {
    assert 0 < i ==> BY_ID(ms[0]) < BY_ID(ms[i]);
  }

  /** The gaps of a list are the gaps of its rotation, moved along, with the closing gap among them. */
  lemma RotatedGaps(ms: seq<Message>, w: nat)
    requires ms != [] && 0 < w < |ms|
    ensures var r := Rotated(ms, w);
            var n := |ms|;
            && |r| == n
            && ClosingGap(r) == Gap(ms, w)
            && ClosingGap(ms) == Gap(r, n - w)
            && (forall i :: 0 < i < w ==> Gap(r, n - w + i) == Gap(ms, i))
            && (forall i :: w < i < n ==> Gap(r, i - w) == Gap(ms, i))
  {
  }

  lemma Unrotated(ms: seq<Message>, w: nat)
    requires w <= |ms|
    ensures Rotated(Rotated(ms, w), |ms| - w) == ms
  {
    assert Rotated(ms, w)[|ms| - w..] == ms[..w];
    assert Rotated(ms, w)[..|ms| - w] == ms[w..];
  }

  lemma OrderKept(sent: seq<Message>, sorted: seq<Message>, d: nat)
    requires sent != [] && KeepsOrder(sent, d)
    requires Increasing(sorted, BY_ID) && SameMessages(sorted, sent)
    ensures WrapMsgID(sorted) == sent
  {
    RotatedIncreasing(sent, d);
    var r := Rotated(sent, d);
    IncreasingIsUnique(sorted, r, BY_ID);
    var w := |sent| - d;
    if d < |sent| {
      RotatedGaps(sent, d);
      forall j | 0 < j < |r|
        ensures j < w ==> Gap(r, j) < Gap(r, w)
        ensures w < j ==> Gap(r, j) <= Gap(r, w)
      {
        if j < w {
          assert Gap(r, j) == Gap(sent, j + d);
        } else if w < j {
          assert Gap(r, j) == Gap(sent, j - w);
        }
      }
      assert IsWrapPoint(r, w);
    } else {
      assert r == sent;
      assert IsWrapPoint(r, 0);
    }
    WrapPointSpec(r, w);
    Unrotated(sent, d);
  }

  lemma RotationDescends(sorted: seq<Message>, w: nat)
    requires Increasing(sorted, BY_ID) && 0 < w < |sorted|
    ensures IsDescent(Rotated(sorted, w), |sorted| - w)
  {
    var r := Rotated(sorted, w);
    var d := |sorted| - w;
    assert r[..d] == sorted[w..];
    assert r[d..] == sorted[..w];
    assert BY_ID(sorted[w - 1]) < BY_ID(sorted[w]);
  }

  lemma RotationGaps(sorted: seq<Message>, w: nat)
    requires 0 < w < |sorted| && IsWrapPoint(sorted, w)
    ensures var r := Rotated(sorted, w);
            && (forall i :: 0 < i < |r| ==> Gap(r, i) <= ClosingGap(r))
            && (forall i :: |r| - w <= i < |r| ==> Gap(r, i) < ClosingGap(r))
  {
    var r := Rotated(sorted, w);
    var d := |sorted| - w;
    RotatedGaps(sorted, w);
    forall i | 0 < i < |r|
      ensures Gap(r, i) <= ClosingGap(r)
      ensures d <= i ==> Gap(r, i) < ClosingGap(r)
    {
      if i < d {
        assert Gap(r, i) == Gap(sorted, i + w);
      } else if d < i {
        assert Gap(r, i) == Gap(sorted, i - d);
      }
    }
  }

  lemma OrderKeptOnly(sent: seq<Message>, sorted: seq<Message>) returns (d: nat)
    requires sent != [] && sorted != []
    requires Increasing(sorted, BY_ID) && WrapMsgID(sorted) == sent
    ensures KeepsOrder(sent, d)
  {
    var w := WrapPoint(sorted, |sorted|);
    WrapPointSpec(sorted, w);
    d := |sorted| - w;
    if w == 0 {
      assert sent == sorted;
    } else {
      RotationDescends(sorted, w);
      RotationGaps(sorted, w);
    }
  }

  /** Section 4.6 of MQTT 3.1.1: sorted insertion followed by the rotation gives back the order in which
      the messages were sent exactly when their ids ran forward once round the cycle with no gap larger
      than the closing one. */
  lemma SendOrderRestored(sent: seq<Message>, sorted: seq<Message>)
    requires sent != [] && Increasing(sorted, BY_ID) && SameMessages(sorted, sent)
    ensures WrapMsgID(sorted) == sent <==> exists d :: KeepsOrder(sent, d)
  {
    assert sent[0] in sorted;
    if d :| KeepsOrder(sent, d) {
      OrderKept(sent, sorted, d);
    }
    if WrapMsgID(sorted) == sent {
      var d := OrderKeptOnly(sent, sorted);
    }
  }

  /** How far an id lies ahead of the first one on the cycle. */
  function Offset(ms: seq<Message>, i: nat): int
    requires i < |ms|
  {
    if ms[0].msgid <= ms[i].msgid then ms[i].msgid - ms[0].msgid
    else ms[i].msgid - ms[0].msgid + MAX_MSG_ID
  }

  /** Ids that ran forward through less than half of the cycle, wrapped or not, meet the condition. */
  lemma HalfCycleKeepsOrder(sent: seq<Message>) returns (d: nat)
    requires sent != []
    requires forall i, j :: 0 <= i < j < |sent| ==> Offset(sent, i) < Offset(sent, j)
    requires forall i :: 0 <= i < |sent| ==> 1 <= sent[i].msgid <= MAX_MSG_ID
    requires 2 * Offset(sent, |sent| - 1) < MAX_MSG_ID
    ensures KeepsOrder(sent, d)
  {
    d := 1;
    while d < |sent| && sent[0].msgid <= sent[d].msgid
      invariant 1 <= d <= |sent|
      invariant forall i :: 0 <= i < d ==> sent[0].msgid <= sent[i].msgid
    {
      d := d + 1;
    }
    forall i | d <= i < |sent|
      ensures sent[i].msgid < sent[0].msgid
    {
      assert Offset(sent, d) <= Offset(sent, i);
    }
    HalfCycleGaps(sent, d);
  }

  lemma HalfCycleGaps(sent: seq<Message>, d: nat)
    requires 0 < d <= |sent|
    requires forall i, j :: 0 <= i < j < |sent| ==> Offset(sent, i) < Offset(sent, j)
    requires forall i :: 0 <= i < d ==> sent[0].msgid <= sent[i].msgid
    requires forall i :: d <= i < |sent| ==> 1 <= sent[i].msgid < sent[0].msgid <= MAX_MSG_ID
    requires 2 * Offset(sent, |sent| - 1) < MAX_MSG_ID
    ensures KeepsOrder(sent, d)
  {
    var n := |sent|;
    forall i | 0 < i < n
      ensures Gap(sent, i) < ClosingGap(sent)
    {
      assert Gap(sent, i) == Offset(sent, i) - Offset(sent, i - 1);
      assert Offset(sent, i) <= Offset(sent, n - 1);
      assert ClosingGap(sent) == MAX_MSG_ID - Offset(sent, n - 1);
    }
    forall i, j | 0 <= i < j < d
      ensures BY_ID(sent[i]) < BY_ID(sent[j])
    {
      assert Offset(sent, i) < Offset(sent, j);
    }
    forall i, j | d <= i < j < n
      ensures BY_ID(sent[i]) < BY_ID(sent[j])
    {
      assert Offset(sent, i) < Offset(sent, j);
    }
  }

  // ---------- the store as a mirror of the session ----------

  ghost predicate StoredPublish(r: Record, m: Message) {
    r.PacketRecord? && r.packet.Publish?
    && r.packet == Publish(r.packet.dup, m.qos, m.retain, m.msgid, m.pub)
  }

  /** The `s-` and `sc-` records are those of the outbound messages, and of the ones past PUBREC. */
  ghost predicate SentMirrored(out: map<nat, Message>, store: Store) {
    && (forall id :: SentKey(id) in store <==> id in out)
    && (forall id :: id in out ==> out[id].msgid == id && StoredPublish(store[SentKey(id)], out[id]))
    && (forall id :: id in out ==> out[id].nextMessageType == (if out[id].qos == 2 then PUBREC else Unset)
                                   || (out[id].qos == 2 && out[id].nextMessageType == PUBCOMP))
    && (forall id :: RelKey(id) in store <==> id in out && out[id].nextMessageType == PUBCOMP)
    && (forall id :: RelKey(id) in store ==> store[RelKey(id)] == PacketRecord(Pubrel(false, id)))
  }

  /** The `r-` records are those of the inbound messages. */
  ghost predicate RecvMirrored(inb: map<nat, Message>, store: Store) {
    && (forall id :: RecvKey(id) in store <==> id in inb)
    && (forall id :: id in inb ==> inb[id].msgid == id && inb[id].nextMessageType == PUBREL
                                   && StoredPublish(store[RecvKey(id)], inb[id]))
  }

  /** The `q-` records are those of the message queue, which is in the order of its sequence numbers. */
  ghost predicate QueueMirrored(queue: seq<QEntry>, store: Store) {
    && Increasing(queue, BY_SEQNO)
    && (forall e :: e in queue ==> QueueKey(e.seqno) in store && store[QueueKey(e.seqno)] == QueueRecord(e))
    && (forall n :: QueueKey(n) in store ==> exists e :: e in queue && e.seqno == n)
  }

  /** `keys` lists the keys of the store, each once, in any order. */
  ghost predicate Lists(keys: seq<Key>, store: Store) {
    && (forall k :: k in keys <==> k in store)
    && NoRepeats(keys)
  }

  ghost predicate NoRepeats(keys: seq<Key>) {
    forall i, j :: 0 <= i < j < |keys| ==> keys[i] != keys[j]
  }

  ghost predicate Listed(out: map<nat, Message>, m: Message) {
    m.msgid in out && out[m.msgid] == m
  }

  lemma {:induction false} RestoresOutbound(store: Store, keys: seq<Key>, out: map<nat, Message>)
    requires SentMirrored(out, store) && NoRepeats(keys)
    requires forall k :: k in keys ==> k in store
    ensures var r := RestoreKeys(store, keys);
            && r.store == store
            && Increasing(r.outbound, BY_ID)
            && (forall m :: m in r.outbound <==> Listed(out, m) && SentKey(m.msgid) in keys)
    decreases |keys|
  {
    if keys != [] {
      var n := |keys| - 1;
      var k := keys[n];
      assert keys == keys[..n] + [k];
      RestoresOutbound(store, keys[..n], out);
      var r := RestoreKeys(store, keys[..n]);
      if k.SentKey? {
        assert StoredPublish(store[k], out[k.id]);
        var x := RestoredSent(store, store[k].packet);
        assert x == out[k.id];
        assert forall i :: 0 <= i < |r.outbound| ==> r.outbound[i] in r.outbound;
        InsertKeepsOrder(r.outbound, x, BY_ID);
        forall m
          ensures m in InsertInOrder(r.outbound, x, BY_ID) <==> Listed(out, m) && SentKey(m.msgid) in keys
        {
          InsertAddsElement(r.outbound, x, BY_ID, m);
        }
      }
    }
  }

  lemma {:induction false} RestoresInbound(store: Store, keys: seq<Key>, inb: map<nat, Message>)
    requires RecvMirrored(inb, store) && NoRepeats(keys)
    requires forall k :: k in keys ==> k in store
    requires forall ks :: ks <= keys ==> RestoreKeys(store, ks).store == store
    ensures var r := RestoreKeys(store, keys);
            && DistinctIds(r.inbound)
            && (forall m :: m in r.inbound <==> Listed(inb, m) && RecvKey(m.msgid) in keys)
    decreases |keys|
  {
    hide InsertInOrder, RestoredSent;
    if keys != [] {
      var n := |keys| - 1;
      var k := keys[n];
      assert keys == keys[..n] + [k];
      RestoresInbound(store, keys[..n], inb);
      var r := RestoreKeys(store, keys[..n]);
      assert keys[..n] <= keys;
      if k.RecvKey? {
        assert StoredPublish(store[k], inb[k.id]);
        assert CreateMessage(store[k].packet).(nextMessageType := PUBREL) == inb[k.id];
        assert forall i :: 0 <= i < |r.inbound| ==> r.inbound[i] in r.inbound;
      }
    }
  }

  lemma {:induction false} RestoresQueue(store: Store, keys: seq<Key>, queue: seq<QEntry>)
    requires QueueMirrored(queue, store) && NoRepeats(keys)
    requires forall k :: k in keys ==> k in store
    ensures var q := RestoreQueueKeys(store, keys);
            && Increasing(q, BY_SEQNO)
            && (forall e :: e in q <==> e in queue && QueueKey(e.seqno) in keys)
    decreases |keys|
  {
    if keys != [] {
      var n := |keys| - 1;
      var k := keys[n];
      assert keys == keys[..n] + [k];
      RestoresQueue(store, keys[..n], queue);
      var q := RestoreQueueKeys(store, keys[..n]);
      if k.QueueKey? {
        var x :| x in queue && x.seqno == k.seqno;
        assert forall i :: 0 <= i < |q| ==> q[i] in q;
        InsertKeepsOrder(q, x, BY_SEQNO);
        forall e
          ensures e in InsertInOrder(q, x, BY_SEQNO) <==> e in queue && QueueKey(e.seqno) in keys
        {
          InsertAddsElement(q, x, BY_SEQNO, e);
        }
      }
    }
  }
}
