/** The store as the program has it, strings to bytes, and restoring a client from it. */
module ByteStore {
  // The other modules keep packets and queue entries in the store. Here the store holds their bytes under the strings
  // of their keys, and restoring goes by these; for the store of any run it comes to the same.

  import opened Messages
  import opened SortedInsert
  import opened Restore
  import opened Sessions
  import opened Delivery
  import opened StoreBytes
  import opened Carried
  import C = Codec

  type Names = map<string, C.Bytes>

  // ---------- records as bytes ----------

  function Flag(b: bool): int {
    if b then 1 else 0
  }

  function StoredOf(e: QEntry): StoredEntry {
    StoredEntry(e.pub.payload, e.qos, Flag(e.retain), Flag(e.dup), e.msgid, e.pub.topic, |e.pub.topic|)
  }

  function RecordBytes(k: Key, r: Record): C.Bytes
    requires FitsRecord(k, r)
  {
    match r
    case PacketRecord(p) => C.Raw(WireFrame(p))
    case QueueRecord(e) => EntryBytes(StoredOf(e))
  }

  /** The four bytes of a small number that is not negative. */
  function Small(n: nat): C.Bytes
    requires n < 65536
  {
    [n % 256, n / 256, 0, 0]
  }

  lemma SmallIs(n: nat)
    requires n < 65536
    ensures IntBytes(n) == Small(n)
  {
  }

  /** The record of a queued message: its payload behind the length of it, its flags as numbers, its id, its topic with
      a NUL after it, and the length of that. */
  lemma QueueRecordBytes(k: Key, e: QEntry)
    requires FitsRecord(k, QueueRecord(e))
    ensures var b := RecordBytes(k, QueueRecord(e));
            var p, t := 4 + |e.pub.payload|, |e.pub.topic|;
            && |b| == p + 16 + t + 1 + 4
            && b[..4] == IntBytes(|e.pub.payload|) && b[4..p] == e.pub.payload
            && b[p..p + 4] == [e.qos, 0, 0, 0]
            && b[p + 4..p + 8] == [if e.retain then 1 else 0, 0, 0, 0]
            && b[p + 8..p + 12] == [if e.dup then 1 else 0, 0, 0, 0]
            && b[p + 12..p + 16] == Small(e.msgid)
            && b[p + 16..p + 16 + t] == e.pub.topic && b[p + 16 + t] == 0 && b[p + 17 + t..] == Small(t)
  {
    hide IntBytes, EntryBytes, CString, StoredOf, Small;
    StoredFields(k, e);
    EntryLayout(StoredOf(e));
    SmallFlags(e);
  }

  lemma StoredFields(k: Key, e: QEntry)
    requires FitsRecord(k, QueueRecord(e))
    ensures var x := StoredOf(e);
            && EntryOk(x) && RecordBytes(k, QueueRecord(e)) == EntryBytes(x)
            && x.payload == e.pub.payload && CString(x.topic) == e.pub.topic
            && IntBytes(x.qos) == Small(e.qos) && IntBytes(x.retained) == Small(Flag(e.retain))
            && IntBytes(x.dup) == Small(Flag(e.dup)) && IntBytes(x.msgid) == Small(e.msgid)
            && IntBytes(x.topicLen) == Small(|e.pub.topic|)
  {
    hide IntBytes, EntryBytes, CString, Small;
    CStringStops(e.pub.topic, []);
    SmallIs(e.qos);
    SmallIs(Flag(e.retain));
    SmallIs(Flag(e.dup));
    SmallIs(e.msgid);
    SmallIs(|e.pub.topic|);
  }

  lemma SmallFlags(e: QEntry)
    requires e.qos < 256
    ensures Small(e.qos) == [e.qos, 0, 0, 0]
    ensures Small(Flag(e.retain)) == [if e.retain then 1 else 0, 0, 0, 0]
    ensures Small(Flag(e.dup)) == [if e.dup then 1 else 0, 0, 0, 0]
  {
  }

  /** The strings are those of the keys, and each has the bytes of its record. */
  ghost predicate Mirrors(names: Names, store: Store) {
    && FitsStore(store)
    && (forall k :: k in store ==> KeyString(k) in names && names[KeyString(k)] == RecordBytes(k, store[k]))
    && (forall n :: n in names ==> exists k :: k in store && KeyString(k) == n)
  }

  lemma KeyIsName(names: Names, store: Store, k: Key)
    requires Mirrors(names, store)
    ensures KeyString(k) in names <==> k in store
  {
    if KeyString(k) in names {
      var j :| j in store && KeyString(j) == KeyString(k);
      KeysDiffer(j, k);
    }
  }

  /** Putting a record and removing one keep the mirror, so that the handlers do. */
  lemma PutMirrors(names: Names, store: Store, k: Key, r: Record)
    requires Mirrors(names, store) && FitsRecord(k, r)
    ensures Mirrors(names[KeyString(k) := RecordBytes(k, r)], store[k := r])
  {
    hide KeyString, RecordBytes, FitsRecord;
    var names', store' := names[KeyString(k) := RecordBytes(k, r)], store[k := r];
    forall j | j in store'
      ensures KeyString(j) in names' && FitsRecord(j, store'[j]) && names'[KeyString(j)] == RecordBytes(j, store'[j])
    {
      KeysDiffer(j, k);
    }
    forall n | n in names'
      ensures exists j :: j in store' && KeyString(j) == n
    {
      if n != KeyString(k) {
        var j :| j in store && KeyString(j) == n;
        assert j in store';
      } else {
        assert k in store';
      }
    }
  }

  lemma RemoveMirrors(names: Names, store: Store, k: Key)
    requires Mirrors(names, store)
    ensures Mirrors(names - {KeyString(k)}, store - {k})
  {
    hide KeyString, RecordBytes, FitsRecord;
    var names', store' := names - {KeyString(k)}, store - {k};
    forall j | j in store'
      ensures KeyString(j) in names'
    {
      KeysDiffer(j, k);
    }
    forall n | n in names'
      ensures exists j :: j in store' && KeyString(j) == n
    {
      var j :| j in store && KeyString(j) == n;
      assert j in store';
    }
  }

  // ---------- restoring the lists ----------

  datatype ByteState = ByteState(names: Names, outbound: seq<Message>, inbound: seq<Message>)

  /** MQTTProtocol_createMessage applied to a PUBLISH that was read. */
  function MessageRead(p: C.Parsed): Message
    requires p.PublishPacket?
  {
    CreateMessage(Publish(p.dup, p.qos, p.retain, p.msgId, Publication(p.topic, p.payload, 0)))
  }

  /** One key string of the loop of MQTTPersistence_restore. A record that is not a packet of the expected type does
      not occur: no code writes one. */
  function RestoreName(s: ByteState, name: string): ByteState
    requires name in s.names
  {
    if KindOf(name) in {Command, Queue} then s
    else
      match RestorePacket(s.names[name])
      case None => s.(names := s.names - {name})
      case Some(pack) =>
        match (KindOf(name), pack)
        case (Received, PublishPacket(_, _, _, _, _, _)) =>
          s.(inbound := s.inbound + [MessageRead(pack).(nextMessageType := PUBREL)])
        case (Sent, PublishPacket(_, _, _, id, _, _)) =>
          var m := MessageRead(pack);
          var released := "sc-" + Decimal(id) in s.names;
          s.(outbound := InsertInOrder(s.outbound, if released then m.(nextMessageType := PUBCOMP) else m, BY_ID))
        case (Rel, AckPacket(_, id)) =>
          if "s-" + Decimal(id) in s.names then s else s.(names := s.names - {name})
        case _ => s
  }

  function RestoreNames(names: Names, ns: seq<string>): ByteState
    decreases |ns|
  {
    if ns == [] then ByteState(names, [], [])
    else
      var n := |ns| - 1;
      var r := RestoreNames(names, ns[..n]);
      if ns[n] in r.names then RestoreName(r, ns[n]) else r
  }

  const BARE: Message -> Message := (m: Message) => m.(pub := BarePub(m.pub))
  const NAME: Key -> string := (k: Key) => KeyString(k)

  /** The two restorations have come to the same, but for the history variable. */
  ghost predicate Matches(b: ByteState, s: InFlight) {
    && Mirrors(b.names, s.store)
    && b.outbound == Mapped(s.outbound, BARE) && b.inbound == Mapped(s.inbound, BARE)
  }

  /** The record of a key other than that of a queue entry is read back as its packet. */
  lemma RecordIsRead(k: Key, r: Record)
    requires FitsRecord(k, r) && !k.QueueKey?
    ensures r.PacketRecord? && RestorePacket(RecordBytes(k, r)) == Some(ReadBack(r.packet))
  {
    hide RestorePacket, WireFrame, C.Raw, C.Parse;
    PacketIsCarried(r.packet);
    PacketRecordRoundTrip(WireFrame(r.packet));
  }

  lemma NameMatches(b: ByteState, s: InFlight, k: Key)
    requires Matches(b, s) && k in s.store
    ensures KeyString(k) in b.names && Matches(RestoreName(b, KeyString(k)), RestoreKey(s, k))
  {
    hide KeyString, KindOf, RestorePacket, RecordBytes, InsertInOrder, Mirrors, Mapped;
    KeyIsName(b.names, s.store, k);
    KeysAreRecognised(k);
    RecordFits(b.names, s.store, k);
    if !k.QueueKey? {
      RecordIsRead(k, s.store[k]);
      var p := s.store[k].packet;
      RelName(p.msgId);
      KeyIsName(b.names, s.store, RelKey(p.msgId));
      KeyIsName(b.names, s.store, SentKey(p.msgId));
      match k
      case SentKey(_) =>
        InsertMapped(s.outbound, RestoredSent(s.store, p), BARE, BY_ID, BY_ID);
      case RecvKey(_) =>
        AppendMapped(s.inbound, CreateMessage(p).(nextMessageType := PUBREL));
      case RelKey(_) =>
        RemoveMirrors(b.names, s.store, k);
    }
  }

  lemma RelName(id: nat)
    ensures KeyString(RelKey(id)) == "sc-" + Decimal(id) && KeyString(SentKey(id)) == "s-" + Decimal(id)
  {
  }

  lemma RecordFits(names: Names, store: Store, k: Key)
    requires Mirrors(names, store) && k in store
    ensures KeyString(k) in names && FitsRecord(k, store[k]) && names[KeyString(k)] == RecordBytes(k, store[k])
  {
  }

  lemma AppendMapped(ms: seq<Message>, m: Message)
    ensures Mapped(ms + [m], BARE) == Mapped(ms, BARE) + [BARE(m)]
  {
  }

  lemma {:induction false} NamesMatch(names: Names, store: Store, keys: seq<Key>)
    requires Mirrors(names, store)
    ensures Matches(RestoreNames(names, Mapped(keys, NAME)), RestoreKeys(store, keys))
    decreases |keys|
  {
    hide KeyString, Mirrors, RestoreName, RestoreKey;
    if keys != [] {
      var n := |keys| - 1;
      var ns := Mapped(keys, NAME);
      assert ns[..n] == Mapped(keys[..n], NAME);
      NamesMatch(names, store, keys[..n]);
      var b, s := RestoreNames(names, ns[..n]), RestoreKeys(store, keys[..n]);
      KeyIsName(b.names, s.store, keys[n]);
      if keys[n] in s.store {
        NameMatches(b, s, keys[n]);
      }
    }
  }

  // ---------- the rotation ----------

  lemma {:induction false} WrapPointOfBare(ms: seq<Message>, n: nat)
    requires 1 <= n <= |ms|
    ensures WrapPoint(Mapped(ms, BARE), n) == WrapPoint(ms, n)
  {
    if n != 1 {
      WrapPointOfBare(ms, n - 1);
    }
  }

  lemma WrapOfBare(ms: seq<Message>)
    ensures WrapMsgID(Mapped(ms, BARE)) == Mapped(WrapMsgID(ms), BARE)
  {
    if ms != [] {
      WrapPointOfBare(ms, |ms|);
    }
  }

  // ---------- restoring the queue ----------

  datatype NumberedEntry = NumberedEntry(entry: StoredEntry, seqno: int)

  const BY_NUMBER: NumberedEntry -> int := (e: NumberedEntry) => e.seqno
  const NUMBERED: QEntry -> NumberedEntry := (e: QEntry) => NumberedEntry(StoredOf(e), e.seqno)

  /** MQTTPersistence_restoreMessageQueue. */
  function RestoreQueueNames(names: Names, ns: seq<string>): seq<NumberedEntry>
    decreases |ns|
  {
    if ns == [] then []
    else
      var n := |ns| - 1;
      var q := RestoreQueueNames(names, ns[..n]);
      if "q-" <= ns[n] && ns[n] in names then
        match RestoreEntry(names[ns[n]])
        case None => q
        case Some(e) => InsertInOrder(q, NumberedEntry(e, Atoi(ns[n][2..])), BY_NUMBER)
      else q
  }

  lemma QueueNames(k: Key)
    ensures "q-" <= KeyString(k) <==> k.QueueKey?
    ensures k.QueueKey? ==> Atoi(KeyString(k)[2..]) == k.seqno
  {
    assert KeyString(k)[0] == Prefix(k)[0] && "q-"[0] == 'q';
    if k.QueueKey? {
      SeqnoOfKey(k.seqno);
      assert KeyString(k)[..2] == "q-";
    }
  }

  lemma EntryIsRead(k: Key, r: Record)
    requires FitsRecord(k, r) && k.QueueKey?
    ensures r.QueueRecord? && RestoreEntry(RecordBytes(k, r)) == Some(StoredOf(r.entry))
  {
    hide RestoreEntry, EntryBytes;
    EntryRoundTrip(StoredOf(r.entry));
  }

  lemma {:induction false} QueueMatches(names: Names, store: Store, keys: seq<Key>)
    requires Mirrors(names, store)
    ensures RestoreQueueNames(names, Mapped(keys, NAME)) == Mapped(RestoreQueueKeys(store, keys), NUMBERED)
    decreases |keys|
  {
    hide KeyString, Mirrors, RestoreEntry, InsertInOrder, RecordBytes, Atoi, StoredOf;
    if keys != [] {
      var n := |keys| - 1;
      var k, ns := keys[n], Mapped(keys, NAME);
      assert ns[..n] == Mapped(keys[..n], NAME);
      QueueMatches(names, store, keys[..n]);
      KeyIsName(names, store, k);
      QueueNames(k);
      if k.QueueKey? && k in store {
        RecordFits(names, store, k);
        EntryIsRead(k, store[k]);
        SameEntry(store[k].entry, k.seqno);
        InsertMapped(RestoreQueueKeys(store, keys[..n]), store[k].entry.(seqno := k.seqno), NUMBERED, BY_SEQNO,
                     BY_NUMBER);
      }
    }
  }

  lemma SameEntry(e: QEntry, n: nat)
    ensures StoredOf(e.(seqno := n)) == StoredOf(e)
  {
  }

  // ---------- every run ----------

  lemma StoreHasBytes(store: Store) returns (names: Names)
    requires FitsStore(store)
    ensures Mirrors(names, store)
    decreases |store|
  {
    if store == map[] {
      names := map[];
    } else {
      var k :| k in store;
      var fewer := store - {k};
      assert store == fewer[k := store[k]];
      assert |fewer| < |store| by {
        assert store.Keys == fewer.Keys + {k};
      }
      names := StoreHasBytes(fewer);
      PutMirrors(names, fewer, k, store[k]);
      names := names[KeyString(k) := RecordBytes(k, store[k])];
    }
  }

  /** In every run the store can be kept as bytes. */
  lemma EveryStoreHasBytes(limitHere: nat, limitThere: nat, actions: seq<Action>, w: World, s: Side)
    returns (names: Names)
    requires w == Run(Start(limitHere, limitThere), actions)
    ensures Mirrors(names, End(w, s).session.store)
  {
    hide Run, Start, FitsRecord, Mirrors;
    EveryRunFits(limitHere, limitThere, actions, w);
    names := StoreHasBytes(End(w, s).session.store);
  }

  /** In every run, creating a client again from the bytes of its store gives what the restart of the protocol model
      gives: both lists in the same order, the queue, and the store as it was. Only the history variable is not kept. */
  lemma EveryRunRestoresFromBytes(limitHere: nat, limitThere: nat, actions: seq<Action>, w: World, s: Side,
                                  names: Names, keys: seq<Key>)
    requires w == Run(Start(limitHere, limitThere), actions)
    requires Mirrors(names, End(w, s).session.store) && Lists(keys, End(w, s).session.store)
    ensures var t := Restart(End(w, s).session, keys);
            var b := RestoreNames(names, Mapped(keys, NAME));
            && WrapMsgID(b.outbound) == Mapped(t.outbound, BARE)
            && b.inbound == Mapped(t.inbound, BARE)
            && Mirrors(b.names, t.store)
            && RestoreQueueNames(names, Mapped(keys, NAME)) == Mapped(t.queue, NUMBERED)
  {
    hide KeyString, Mirrors, Run, Start, Lists;
    var store := End(w, s).session.store;
    NamesMatch(names, store, keys);
    QueueMatches(names, store, keys);
    WrapOfBare(RestoreKeys(store, keys).outbound);
  }
}
