/**
 The values the MQTT client keeps and exchanges: publications, control packets, the entries of the
 in-flight lists, the entries of the incoming message queue, and the records of the persistent store.
 */
module Messages {

  const MAX_MSG_ID := 65535

  type Byte = b: nat | b < 256

  datatype Option<+T> = None | Some(value: T)

  /** What an application publishes. `serial` is a history variable: the position of the publication in
      the log of its publisher. It travels with the message, and no handler reads it. */
  datatype Publication = Publication(topic: seq<Byte>, payload: seq<Byte>, serial: nat)

  datatype Packet =
    | Publish(dup: bool, qos: nat, retain: bool, msgId: nat, pub: Publication)
    | Puback(msgId: nat)
    | Pubrec(dup: bool, msgId: nat)
    | Pubrel(dup: bool, msgId: nat)
    | Pubcomp(dup: bool, msgId: nat)

  /** The packet an in-flight entry waits for. A QoS 1 entry never sets it. */
  datatype Expected = Unset | PUBREC | PUBREL | PUBCOMP

  /** An entry of `outboundMsgs` or `inboundMsgs`. */
  datatype Message = Message(msgid: nat, qos: nat, retain: bool, pub: Publication, nextMessageType: Expected)

  /** What the packets can carry and the store can keep: a topic is a string without NUL whose length fits in two
      bytes, and the remaining length of its PUBLISH is below 2^28. */
  predicate Sendable(topic: seq<Byte>, payload: seq<Byte>) {
    |topic| <= 65535 && 0 !in topic && 4 + |topic| + |payload| < 0x1000_0000
  }

  /** An entry of `messageQueue`, the messages that wait for the application. */
  datatype QEntry = QEntry(pub: Publication, qos: nat, retain: bool, dup: bool, msgid: nat, seqno: nat)

  /** Keys of the persistent store: `s-<id>`, `sc-<id>`, `r-<id>` and `q-<seqno>`. */
  datatype Key = SentKey(id: nat) | RelKey(id: nat) | RecvKey(id: nat) | QueueKey(seqno: nat)

  datatype Record = PacketRecord(packet: Packet) | QueueRecord(entry: QEntry)

  type Store = map<Key, Record>

  // ---------- message lists, looked up by message id ----------

  function Ids(ms: seq<Message>): set<nat> {
    set m | m in ms :: m.msgid
  }

  /** The place of the first entry with the given id, or the length of the list. */
  function IndexOf(ms: seq<Message>, id: nat): (i: nat)
    ensures i <= |ms|
    ensures forall j :: 0 <= j < i ==> ms[j].msgid != id
    ensures i < |ms| ==> ms[i].msgid == id
    ensures i < |ms| <==> id in Ids(ms)
  {
    if ms == [] then 0
    else if ms[0].msgid == id then
      assert ms[0] in ms;
      0
    else
      var i := 1 + IndexOf(ms[1..], id);
      assert i < |ms| ==> ms[i] in ms;
      assert forall m :: m in ms ==> m == ms[0] || m in ms[1..];
      i
  }

  function Removed(ms: seq<Message>, id: nat): seq<Message> {
    var i := IndexOf(ms, id);
    if i < |ms| then ms[..i] + ms[i + 1..] else ms
  }

  /** The list with the first entry that has the id of `m` replaced by `m`. */
  function Replaced(ms: seq<Message>, m: Message): seq<Message> {
    var i := IndexOf(ms, m.msgid);
    if i < |ms| then ms[i := m] else ms
  }

  ghost predicate DistinctIds(ms: seq<Message>) {
    forall i, j :: 0 <= i < j < |ms| ==> ms[i].msgid != ms[j].msgid
  }

  /** The list as a map from message ids to their first entry. */
  function ById(ms: seq<Message>): (r: map<nat, Message>)
    ensures r.Keys == Ids(ms)
    ensures forall id :: id in r ==> r[id] in ms && r[id].msgid == id
  {
    map id | id in Ids(ms) :: ms[IndexOf(ms, id)]
  }

  lemma ByIdAt(ms: seq<Message>, i: nat)
    requires DistinctIds(ms) && i < |ms|
    ensures ms[i].msgid in ById(ms) && ById(ms)[ms[i].msgid] == ms[i]
  {
    assert ms[i] in ms;
  }

  lemma ByIdIs(ms: seq<Message>, r: map<nat, Message>)
    requires DistinctIds(ms)
    requires forall i :: 0 <= i < |ms| ==> ms[i].msgid in r && r[ms[i].msgid] == ms[i]
    requires forall id :: id in r ==> exists i :: 0 <= i < |ms| && ms[i].msgid == id
    ensures ById(ms) == r
  {
    forall id | id in r
      ensures id in ById(ms) && ById(ms)[id] == r[id]
    {
      var i :| 0 <= i < |ms| && ms[i].msgid == id;
      ByIdAt(ms, i);
    }
  }

  lemma Appended(ms: seq<Message>, m: Message)
    requires DistinctIds(ms) && m.msgid !in Ids(ms)
    ensures DistinctIds(ms + [m])
    ensures ById(ms + [m]) == ById(ms)[m.msgid := m]
  {
    forall i | 0 <= i < |ms|
      ensures ms[i].msgid in ById(ms) && ById(ms)[ms[i].msgid] == ms[i] && ms[i].msgid != m.msgid
    {
      ByIdAt(ms, i);
    }
    var r := ById(ms)[m.msgid := m];
    forall id | id in r
      ensures exists i :: 0 <= i < |ms + [m]| && (ms + [m])[i].msgid == id
    {
      if id == m.msgid {
        assert (ms + [m])[|ms|].msgid == id;
      } else {
        assert (ms + [m])[IndexOf(ms, id)].msgid == id;
      }
    }
    ByIdIs(ms + [m], r);
  }

  lemma RemovedById(ms: seq<Message>, id: nat)
    requires DistinctIds(ms)
    ensures DistinctIds(Removed(ms, id))
    ensures ById(Removed(ms, id)) == ById(ms) - {id}
  {
    if id in Ids(ms) {
      var rs, r := Removed(ms, id), ById(ms) - {id};
      forall i | 0 <= i < |rs|
        ensures rs[i].msgid in r && r[rs[i].msgid] == rs[i]
      {
        RemovedAt(ms, id, i);
      }
      forall other | other in r
        ensures exists i :: 0 <= i < |rs| && rs[i].msgid == other
      {
        RemovedKeeps(ms, id, other);
      }
      RemovedDistinct(ms, id);
      ByIdIs(rs, r);
    }
  }

  lemma RemovedDistinct(ms: seq<Message>, id: nat)
    requires DistinctIds(ms)
    ensures DistinctIds(Removed(ms, id))
  {
  }

  lemma RemovedAt(ms: seq<Message>, id: nat, i: nat)
    requires DistinctIds(ms) && i < |Removed(ms, id)| && id in Ids(ms)
    ensures var x := Removed(ms, id)[i];
            x.msgid != id && x.msgid in ById(ms) && ById(ms)[x.msgid] == x
  {
    var k := IndexOf(ms, id);
    ByIdAt(ms, if i < k then i else i + 1);
  }

  lemma RemovedKeeps(ms: seq<Message>, id: nat, other: nat)
    requires id in Ids(ms) && other in Ids(ms) && other != id
    ensures exists i :: 0 <= i < |Removed(ms, id)| && Removed(ms, id)[i].msgid == other
  {
    var k, j := IndexOf(ms, id), IndexOf(ms, other);
    var rs := Removed(ms, id);
    assert rs == ms[..k] + ms[k + 1..];
    if j < k {
      assert rs[j] == ms[j];
    } else {
      assert rs[j - 1] == ms[j];
    }
  }

  lemma ReplacedById(ms: seq<Message>, m: Message)
    requires DistinctIds(ms) && m.msgid in Ids(ms)
    ensures DistinctIds(Replaced(ms, m))
    ensures ById(Replaced(ms, m)) == ById(ms)[m.msgid := m]
  {
    var k := IndexOf(ms, m.msgid);
    var rs := Replaced(ms, m);
    var r := ById(ms)[m.msgid := m];
    forall i | 0 <= i < |rs|
      ensures rs[i].msgid in r && r[rs[i].msgid] == rs[i]
    {
      ByIdAt(ms, i);
    }
    forall id | id in r
      ensures exists i :: 0 <= i < |rs| && rs[i].msgid == id
    {
      assert rs[IndexOf(ms, id)].msgid == id;
    }
    ByIdIs(rs, r);
  }
}
