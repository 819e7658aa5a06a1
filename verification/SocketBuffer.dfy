/** Reading packets from non-blocking sockets: the saved queues of SocketBuffer.c, the reads of Socket.c, and
    the reading part of MQTTPacket.c. */
module SocketBuffer {
  // A read can stop at any byte; the bytes that have arrived are saved, and the next attempt begins by going
  // through them again.

  import opened Messages
  import opened Codec
  import opened Reassembly

  const HEADER_SIZE := 5

  type FixedHeader = s: Bytes | |s| == HEADER_SIZE witness [0, 0, 0, 0, 0]

  datatype SocketQueue =
    SocketQueue(socket: int, index: int, headerlen: int, fixedHeader: FixedHeader, datalen: int, buf: Bytes)

  datatype Completion = COMPLETE | INTERRUPTED | ERROR

  /** What recv comes back with. */
  datatype Received = Data(bytes: Bytes) | WouldBlock | Closed | Failed

  /** One call of recv: how many bytes were asked for, and what it came back with. */
  datatype Call = Call(socket: int, asked: nat, result: Received)

  /** Only calls for this socket have been added. */
  ghost predicate Called(before: seq<Call>, after: seq<Call>, socket: int) {
    before <= after && forall i :: |before| <= i < |after| ==> after[i].socket == socket
  }

  /** The last of the calls added gave less than it was asked for, */
  ghost predicate WasShort(before: seq<Call>, after: seq<Call>) {
    |before| < |after|
    && var c := after[|after| - 1];
       c.result == WouldBlock || (c.result.Data? && |c.result.bytes| < c.asked)
  }

  /** nothing at all, */
  ghost predicate WasBlocked(before: seq<Call>, after: seq<Call>) {
    |before| < |after| && after[|after| - 1].result == WouldBlock
  }

  /** or told that the connection is gone. */
  ghost predicate WasLost(before: seq<Call>, after: seq<Call>) {
    |before| < |after| && (after[|after| - 1].result.Closed? || after[|after| - 1].result.Failed?)
  }

  // ---------- the queues as values ----------

  /** The place in the list of the queue of a socket, or the length of the list. */
  function Find(queues: seq<SocketQueue>, socket: int): (i: nat)
    ensures i <= |queues|
    ensures i < |queues| ==> queues[i].socket == socket
    ensures forall j :: 0 <= j < i ==> queues[j].socket != socket
  {
    if queues == [] then 0 else if queues[0].socket == socket then 0 else 1 + Find(queues[1..], socket)
  }

  datatype Held = Held(header: Bytes, index: int, data: Bytes)

  const NOTHING := Held([], 0, [])

  ghost predicate QueueOk(q: SocketQueue) {
    0 <= q.index <= q.headerlen <= HEADER_SIZE && 0 <= q.datalen <= |q.buf|
  }

  function HeldIn(q: SocketQueue): Held {
    if 0 <= q.headerlen <= HEADER_SIZE && 0 <= q.datalen <= |q.buf| then
      Held(q.fixedHeader[..q.headerlen], q.index, q.buf[..q.datalen])
    else NOTHING
  }

  /** What is held for a socket: by a queue in the list, or by the default queue. */
  function View(def: SocketQueue, queues: seq<SocketQueue>, socket: int): Held {
    var i := Find(queues, socket);
    if i < |queues| then HeldIn(queues[i]) else if def.socket == socket then HeldIn(def) else NOTHING
  }

  /** No socket has two queues, and only `socket` may be using the default queue. A queue with socket 0, which
      is what an attempt that reads nothing leaves behind, belongs to no socket. */
  ghost predicate Queues(def: SocketQueue, queues: seq<SocketQueue>, socket: int) {
    && (forall i :: 0 <= i < |queues| && queues[i].socket != 0 ==> QueueOk(queues[i]))
    && (forall i, j :: 0 <= i < j < |queues| && queues[i].socket != 0 ==> queues[i].socket != queues[j].socket)
    && (def.socket != 0 ==> && def.socket == socket && QueueOk(def) && Find(queues, socket) == |queues|
                            && def.index == def.headerlen && def.datalen == 0)
  }

  ghost predicate Others(def: SocketQueue, queues: seq<SocketQueue>, def': SocketQueue, queues': seq<SocketQueue>,
                         socket: int) {
    forall t :: t != socket && t != 0 ==> View(def', queues', t) == View(def, queues, t)
  }

  lemma OthersOn(def: SocketQueue, queues: seq<SocketQueue>, def': SocketQueue, queues': seq<SocketQueue>,
                 def'': SocketQueue, queues'': seq<SocketQueue>, socket: int)
    requires Others(def, queues, def', queues', socket) && Others(def', queues', def'', queues'', socket)
    ensures Others(def, queues, def'', queues'', socket)
  {
  }

  lemma FindUpdated(queues: seq<SocketQueue>, i: nat, q: SocketQueue, t: int)
    requires i < |queues| && q.socket == queues[i].socket
    ensures Find(queues[i := q], t) == Find(queues, t)
  {
    var queues' := queues[i := q];
    forall j | 0 <= j < |queues|
      ensures queues'[j].socket == queues[j].socket
    {
    }
  }

  lemma FindAppended(queues: seq<SocketQueue>, q: SocketQueue, t: int)
    ensures Find(queues + [q], t) == if Find(queues, t) < |queues| then Find(queues, t)
                                      else if q.socket == t then |queues| else |queues| + 1
  {
    var more := queues + [q];
    assert forall j :: 0 <= j < |queues| ==> more[j] == queues[j];
    assert more[|queues|] == q;
  }

  lemma FindRemoved(queues: seq<SocketQueue>, i: nat, t: int)
    requires i < |queues| && t != queues[i].socket
    ensures var k := Find(queues, t);
            Find(Without(queues, i), t) == if k < i then k else k - 1
  {
    var fewer := Without(queues, i);
    var k := Find(queues, t);
    assert forall j :: 0 <= j < i ==> fewer[j] == queues[j];
    assert forall j :: i <= j < |fewer| ==> fewer[j] == queues[j + 1];
    if k < i {
      assert fewer[k].socket == t;
    } else if k < |queues| {
      assert k != i && fewer[k - 1].socket == t;
    }
  }

  lemma FindGone(queues: seq<SocketQueue>, i: nat)
    requires i < |queues| && (forall j :: 0 <= j < |queues| && j != i ==> queues[j].socket != queues[i].socket)
    ensures Find(Without(queues, i), queues[i].socket) == |queues| - 1
  {
    var fewer := Without(queues, i);
    assert forall j :: 0 <= j < i ==> fewer[j] == queues[j];
    assert forall j :: i <= j < |fewer| ==> fewer[j] == queues[j + 1];
  }

  /** One queue in the list changes. */
  lemma QueueUpdated(def: SocketQueue, queues: seq<SocketQueue>, socket: int, q: SocketQueue)
    requires socket != 0 && Queues(def, queues, socket) && Find(queues, socket) < |queues|
    requires q.socket == socket && QueueOk(q)
    ensures var queues' := queues[Find(queues, socket) := q];
            && Queues(def, queues', socket) && View(def, queues', socket) == HeldIn(q)
            && Find(queues', socket) < |queues'| && Others(def, queues, def, queues', socket)
  {
    var i := Find(queues, socket);
    FindUpdated(queues, i, q, socket);
    forall t | t != socket && t != 0
      ensures View(def, queues[i := q], t) == View(def, queues, t)
    {
      FindUpdated(queues, i, q, t);
    }
  }

  /** The default queue changes. */
  lemma DefaultUpdated(def: SocketQueue, queues: seq<SocketQueue>, socket: int, q: SocketQueue)
    requires socket != 0 && Queues(def, queues, socket) && Find(queues, socket) == |queues|
    requires q.socket == 0 || (q.socket == socket && QueueOk(q) && q.index == q.headerlen && q.datalen == 0)
    ensures Queues(q, queues, socket)
    ensures View(q, queues, socket) == if q.socket == 0 then NOTHING else HeldIn(q)
    ensures Others(def, queues, q, queues, socket)
  {
  }

  /** The default queue goes to the list. */
  lemma QueueAppended(def: SocketQueue, queues: seq<SocketQueue>, socket: int, q: SocketQueue, new': SocketQueue)
    requires socket != 0 && Queues(def, queues, socket) && Find(queues, socket) == |queues|
    requires q.socket == def.socket && new'.socket == 0 && (q.socket != 0 ==> QueueOk(q))
    ensures Queues(new', queues + [q], socket)
    ensures View(new', queues + [q], socket) == if q.socket == 0 then NOTHING else HeldIn(q)
    ensures Others(def, queues, new', queues + [q], socket)
  {
    FindAppended(queues, q, socket);
    forall t | t != socket && t != 0
      ensures View(new', queues + [q], t) == View(def, queues, t)
    {
      FindAppended(queues, q, t);
    }
    forall i | 0 <= i < |queues| && queues[i].socket != 0
      ensures queues[i].socket != q.socket
    {
      assert q.socket == socket ==> queues[i].socket != socket;
    }
  }

  /** A queue leaves the list. */
  lemma QueueDetached(def: SocketQueue, queues: seq<SocketQueue>, socket: int, new': SocketQueue)
    requires socket != 0 && Queues(def, queues, socket) && Find(queues, socket) < |queues| && new'.socket == 0
    ensures var queues' := Without(queues, Find(queues, socket));
            && Queues(new', queues', socket) && View(new', queues', socket) == NOTHING
            && Others(def, queues, new', queues', socket)
  {
    var i := Find(queues, socket);
    assert forall j :: 0 <= j < |queues| && j != i ==> queues[j].socket != socket;
    FindGone(queues, i);
    forall t | t != socket && t != 0
      ensures View(new', Without(queues, i), t) == View(def, queues, t)
    {
      DetachedView(def, queues, i, new', t);
    }
    DetachedQueues(def, queues, socket, i, new');
  }

  function Without(queues: seq<SocketQueue>, i: nat): seq<SocketQueue>
    requires i < |queues|
  {
    queues[..i] + queues[i + 1..]
  }

  lemma DetachedView(def: SocketQueue, queues: seq<SocketQueue>, i: nat, new': SocketQueue, t: int)
    requires i < |queues| && t != queues[i].socket && t != 0 && new'.socket == 0 && def.socket != t
    ensures View(new', Without(queues, i), t) == View(def, queues, t)
  {
    FindRemoved(queues, i, t);
    var k := Find(queues, t);
    assert k < i ==> Without(queues, i)[k] == queues[k];
    assert i < k < |queues| ==> Without(queues, i)[k - 1] == queues[k];
  }

  lemma DetachedQueues(def: SocketQueue, queues: seq<SocketQueue>, socket: int, i: nat, new': SocketQueue)
    requires Queues(def, queues, socket) && i < |queues| && new'.socket == 0
    ensures Queues(new', Without(queues, i), socket)
  {
    var fewer := Without(queues, i);
    forall a | 0 <= a < |fewer|
      ensures fewer[a] == queues[if a < i then a else a + 1]
    {
    }
  }

  // ---------- the module ----------

  class SocketBuffer {
    var defQueue: SocketQueue
    var queues: seq<SocketQueue>
    /** The bytes that recv has given for each socket, the packets handed on, and the calls of recv. */
    ghost var received: map<int, Bytes>
    ghost var taken: map<int, seq<Frame>>
    ghost var calls: seq<Call>

    // ---------- SocketBuffer.c ----------

    /** SocketBuffer_newDefQ, which does not set `headerlen`. */
    method NewDefQ()
      modifies this`defQueue
      ensures defQueue.socket == 0
    {
      var headerlen: int, fixedHeader: FixedHeader := *, *;
      defQueue := SocketQueue(0, 0, headerlen, fixedHeader, 0, []);
    }

    /** SocketBuffer_getQueuedChar. */
    method GetQueuedChar(socket: int) returns (rc: Completion, c: Byte)
      requires socket != 0 && Queues(defQueue, queues, socket)
      modifies this`queues
      ensures Queues(defQueue, queues, socket) && Others(defQueue, old(queues), defQueue, queues, socket)
      ensures var v := old(View(defQueue, queues, socket));
              && (rc == COMPLETE <==> v.index < |v.header|)
              && (rc == COMPLETE ==>
                    c == v.header[v.index] && View(defQueue, queues, socket) == v.(index := v.index + 1))
              && (rc != COMPLETE ==> queues == old(queues))
              && (rc == ERROR ==> v.index > 4)
    {
      rc, c := INTERRUPTED, 0;
      var i := Find(queues, socket);
      if i < |queues| {
        var queue := queues[i];
        if queue.index < queue.headerlen {
          c := queue.fixedHeader[queue.index];
          QueueUpdated(defQueue, queues, socket, queue.(index := queue.index + 1));
          queues := queues[i := queue.(index := queue.index + 1)];
          rc := COMPLETE;
        } else if queue.index > 4 {
          rc := ERROR;
        }
      }
    }

    /** SocketBuffer_queueChar. */
    method QueueChar(socket: int, c: Byte)
      requires socket != 0 && Queues(defQueue, queues, socket)
      requires var v := View(defQueue, queues, socket);
               v.index == |v.header| < HEADER_SIZE && v.data == []
      modifies this`defQueue, this`queues
      ensures Queues(defQueue, queues, socket) && Others(old(defQueue), old(queues), defQueue, queues, socket)
      ensures var v := old(View(defQueue, queues, socket));
              View(defQueue, queues, socket) == Held(v.header + [c], v.index + 1, [])
    {
      var i := Find(queues, socket);
      if i < |queues| {
        var curq := queues[i];
        if curq.index <= 4 {
          var q := WithChar(curq, c);
          QueueUpdated(defQueue, queues, socket, q);
          queues := queues[i := q];
        }
      } else {
        ghost var def0 := defQueue;
        if defQueue.socket == 0 {
          defQueue := defQueue.(socket := socket, index := 0, datalen := 0);
        }
        if defQueue.index <= 4 {
          var q := WithChar(defQueue, c);
          DefaultUpdated(def0, queues, socket, q);
          defQueue := q;
        }
      }
    }

    /** SocketBuffer_getQueuedData: a buffer that is large enough, which keeps the data in it. */
    method GetQueuedData(socket: int, bytes: nat) returns (actual: int)
      requires socket != 0 && Queues(defQueue, queues, socket) && QueueOf(defQueue, queues, socket).socket == socket
      modifies this`defQueue, this`queues
      ensures Queues(defQueue, queues, socket) && Others(old(defQueue), old(queues), defQueue, queues, socket)
      ensures View(defQueue, queues, socket) == old(View(defQueue, queues, socket))
      ensures actual == |View(defQueue, queues, socket).data| && QueueOf(defQueue, queues, socket).socket == socket
      ensures bytes <= |QueueOf(defQueue, queues, socket).buf|
      ensures actual <= |QueueOf(defQueue, queues, socket).buf|
              && QueueOf(defQueue, queues, socket).buf[..actual] == View(defQueue, queues, socket).data
    {
      var i := Find(queues, socket);
      var queue := if i < |queues| then queues[i] else defQueue;
      actual := if i < |queues| then queue.datalen else 0;
      if bytes > |queue.buf| {
        var rest: Bytes := *;
        if |rest| != bytes - queue.datalen {
          rest := seq(bytes - queue.datalen, _ => 0);
        }
        queue := queue.(buf := queue.buf[..queue.datalen] + rest);
      }
      if i < |queues| {
        QueueUpdated(defQueue, queues, socket, queue);
        queues := queues[i := queue];
      } else {
        DefaultUpdated(defQueue, queues, socket, queue);
        defQueue := queue;
      }
    }

    /** The write of recv into the buffer. */
    method Fill(socket: int, at: nat, bytes: Bytes)
      requires socket != 0 && Queues(defQueue, queues, socket) && QueueOf(defQueue, queues, socket).socket == socket
      requires at == QueueOf(defQueue, queues, socket).datalen
      requires at + |bytes| <= |QueueOf(defQueue, queues, socket).buf|
      modifies this`defQueue, this`queues
      ensures Queues(defQueue, queues, socket) && Others(old(defQueue), old(queues), defQueue, queues, socket)
      ensures View(defQueue, queues, socket) == old(View(defQueue, queues, socket))
      ensures QueueOf(defQueue, queues, socket).socket == socket
      ensures var b := QueueOf(defQueue, queues, socket).buf;
              at + |bytes| <= |b| && b[..at + |bytes|] == old(QueueOf(defQueue, queues, socket).buf)[..at] + bytes
    {
      var i := Find(queues, socket);
      var queue := if i < |queues| then queues[i] else defQueue;
      queue := queue.(buf := queue.buf[..at] + bytes + queue.buf[at + |bytes|..]);
      assert queue.buf[..at + |bytes|] == queue.buf[..at] + bytes;
      if i < |queues| {
        QueueUpdated(defQueue, queues, socket, queue);
        queues := queues[i := queue];
      } else {
        DefaultUpdated(defQueue, queues, socket, queue);
        defQueue := queue;
      }
    }

    /** SocketBuffer_interrupted. */
    method Interrupted(socket: int, actual: nat)
      requires socket != 0 && Queues(defQueue, queues, socket) && actual <= |QueueOf(defQueue, queues, socket).buf|
      modifies this`defQueue, this`queues
      ensures Queues(defQueue, queues, socket) && Others(old(defQueue), old(queues), defQueue, queues, socket)
      ensures defQueue.socket == 0
      ensures View(defQueue, queues, socket) ==
                var q := old(QueueOf(defQueue, queues, socket));
                if q.socket == socket then Held(old(View(defQueue, queues, socket)).header, 0, q.buf[..actual])
                else NOTHING
    {
      var i := Find(queues, socket);
      if i < |queues| {
        var queue := queues[i].(index := 0, datalen := actual);
        QueueUpdated(defQueue, queues, socket, queue);
        queues := queues[i := queue];
      } else {
        var queue := defQueue.(index := 0, datalen := actual);
        ghost var def0, queues0 := defQueue, queues;
        NewDefQ();
        QueueAppended(def0, queues0, socket, queue, defQueue);
        queues := queues + [queue];
      }
    }

    /** SocketBuffer_complete. */
    method Complete(socket: int) returns (buf: Bytes)
      requires socket != 0 && Queues(defQueue, queues, socket)
      modifies this`defQueue, this`queues
      ensures Queues(defQueue, queues, socket) && Others(old(defQueue), old(queues), defQueue, queues, socket)
      ensures defQueue.socket == 0 && View(defQueue, queues, socket) == NOTHING
      ensures buf == old(QueueOf(defQueue, queues, socket).buf)
    {
      var i := Find(queues, socket);
      ghost var def0, queues0 := defQueue, queues;
      if i < |queues| {
        defQueue := queues[i];
        queues := Without(queues, i);
      }
      defQueue := defQueue.(socket := 0, index := 0, headerlen := 0, datalen := 0);
      buf := defQueue.buf;
      if i < |queues0| {
        QueueDetached(def0, queues0, socket, defQueue);
      } else {
        DefaultUpdated(def0, queues0, socket, defQueue);
      }
    }

    /** SocketBuffer_cleanup. */
    method Cleanup(socket: int)
      requires socket != 0 && Queues(defQueue, queues, socket)
      modifies this`defQueue, this`queues
      ensures Queues(defQueue, queues, socket) && Others(old(defQueue), old(queues), defQueue, queues, socket)
      ensures defQueue.socket == 0 && View(defQueue, queues, socket) == NOTHING
    {
      var i := Find(queues, socket);
      if i < |queues| {
        QueueDetached(defQueue, queues, socket, defQueue);
        queues := Without(queues, i);
      }
      if defQueue.socket == socket {
        DefaultUpdated(defQueue, queues, socket, defQueue.(socket := 0, index := 0, headerlen := 0, datalen := 0));
        defQueue := defQueue.(socket := 0, index := 0, headerlen := 0, datalen := 0);
      }
    }

    // ---------- Socket.c ----------

    /** recv: some of the bytes asked for, or none. */
    method Recv(socket: int, bytes: nat) returns (r: Received)
      requires bytes > 0
      modifies this`received, this`calls
      ensures calls == old(calls) + [Call(socket, bytes, r)] && (r.Data? ==> 1 <= |r.bytes| <= bytes)
      ensures Grows(old(received), received, socket, if r.Data? then r.bytes else [])
    {
      r := *;
      if r.Data? && !(1 <= |r.bytes| <= bytes) {
        r := WouldBlock;
      }
      calls := calls + [Call(socket, bytes, r)];
      received := received[socket := At(received, socket) + if r.Data? then r.bytes else []];
    }

    /** Socket_getch. */
    method Getch(socket: int) returns (rc: Completion, c: Byte)
      requires socket != 0 && Queues(defQueue, queues, socket) && HeldOk(View(defQueue, queues, socket))
      requires var v := View(defQueue, queues, socket);
               v.index == |v.header| ==> v.index < HEADER_SIZE && v.data == []
      modifies this`defQueue, this`queues, this`received, this`calls
      ensures Called(old(calls), calls, socket)
      ensures Queues(defQueue, queues, socket) && Others(old(defQueue), old(queues), defQueue, queues, socket)
      ensures var v, w := old(View(defQueue, queues, socket)), View(defQueue, queues, socket);
              && v.header <= w.header && Grows(old(received), received, socket, w.header[|v.header|..])
              && match rc
                 case COMPLETE => w == WithByte(v, c) && w.header[v.index] == c
                 case INTERRUPTED => && w == v.(index := 0) && v.index == |v.header| && defQueue.socket == 0
                                     && WasBlocked(old(calls), calls)
                 case ERROR => WasLost(old(calls), calls) && w == v
    {
      hide Queues, Others, View, Find, ReadStart, Grows;
      ghost var def0, queues0, received0 := defQueue, queues, received;
      NothingMore(received, socket);
      rc, c := GetQueuedChar(socket);
      assert View(defQueue, queues, socket).header[|View(defQueue, queues, socket).header|..] == [];
      if rc != INTERRUPTED {
        return;
      }
      HasQueue(defQueue, queues, socket);
      var r := Recv(socket, 1);
      match r {
        case Failed => rc := ERROR;
        case Closed => rc := ERROR;
        case WouldBlock =>
          rc := INTERRUPTED;
          Interrupted(socket, 0);
        case Data(bytes) =>
          c := bytes[0];
          assert bytes == [c];
          QueueChar(socket, c);
          rc := COMPLETE;
      }
    }

    /** The call of recv in Socket_getdata, for what is missing: `now` is how much there is then. */
    method Receive(socket: int, bytes: nat, actual: nat) returns (r: Received, now: nat)
      requires socket != 0 && Queues(defQueue, queues, socket) && QueueOf(defQueue, queues, socket).socket == socket
      requires actual == QueueOf(defQueue, queues, socket).datalen == |View(defQueue, queues, socket).data|
      requires actual < bytes <= |QueueOf(defQueue, queues, socket).buf|
      requires QueueOf(defQueue, queues, socket).buf[..actual] == View(defQueue, queues, socket).data
      modifies this`defQueue, this`queues, this`received, this`calls
      ensures Queues(defQueue, queues, socket) && Others(old(defQueue), old(queues), defQueue, queues, socket)
      ensures View(defQueue, queues, socket) == old(View(defQueue, queues, socket))
      ensures QueueOf(defQueue, queues, socket).socket == socket
      ensures var b, more := QueueOf(defQueue, queues, socket).buf, if r.Data? then r.bytes else [];
              && now == actual + |more| <= bytes && now <= |b| && b[..now] == View(defQueue, queues, socket).data + more
              && Grows(old(received), received, socket, more)
      ensures calls == old(calls) + [Call(socket, bytes - actual, r)]
    {
      hide Queues, Others, View, Find, Grows, QueueOf;
      now := actual;
      OthersKept(defQueue, queues, socket);
      Added(View(defQueue, queues, socket).data, []);
      r := Recv(socket, bytes - actual);
      if r.Data? {
        Fill(socket, actual, r.bytes);
        now := actual + |r.bytes|;
      }
    }

    /** The end of Socket_getdata: all is there, or what there is of it is held. */
    method Settle(socket: int, bytes: nat, actual: nat) returns (buf: Bytes)
      requires socket != 0 && Queues(defQueue, queues, socket) && QueueOf(defQueue, queues, socket).socket == socket
      requires actual <= bytes && actual <= |QueueOf(defQueue, queues, socket).buf|
      modifies this`defQueue, this`queues
      ensures Queues(defQueue, queues, socket) && Others(old(defQueue), old(queues), defQueue, queues, socket)
      ensures defQueue.socket == 0 && buf == old(QueueOf(defQueue, queues, socket).buf)
      ensures View(defQueue, queues, socket) ==
                if actual == bytes then NOTHING else Held(old(View(defQueue, queues, socket)).header, 0, buf[..actual])
    {
      hide Queues, Others, View, Find, QueueOf;
      buf := QueueOf(defQueue, queues, socket).buf;
      if actual == bytes {
        var _ := Complete(socket);
      } else {
        Interrupted(socket, actual);
      }
    }

    /** Socket_getdata. */
    method Getdata(socket: int, bytes: nat) returns (buf: Option<Bytes>, actual: nat)
      requires socket != 0 && Queues(defQueue, queues, socket) && View(defQueue, queues, socket).header != []
      requires var v := View(defQueue, queues, socket);
               v.index == |v.header| && (|v.data| < bytes || (v.data == [] && bytes == 0))
      modifies this`defQueue, this`queues, this`received, this`calls
      ensures Called(old(calls), calls, socket)
      ensures Queues(defQueue, queues, socket) && Others(old(defQueue), old(queues), defQueue, queues, socket)
      ensures var v, w := old(View(defQueue, queues, socket)), View(defQueue, queues, socket);
              match buf
              case None => WasLost(old(calls), calls) && Grows(old(received), received, socket, [])
              case Some(b) =>
                if actual == bytes then
                  && |b| >= bytes && v.data <= b[..bytes] && w == NOTHING && defQueue.socket == 0
                  && Grows(old(received), received, socket, b[|v.data|..bytes])
                else
                  && w.header == v.header && w.index == 0 && v.data <= w.data && |w.data| < bytes
                  && defQueue.socket == 0 && WasShort(old(calls), calls)
                  && Grows(old(received), received, socket, w.data[|v.data|..])
    {
      hide Queues, Others, View, Find, Grows;
      ghost var v := View(defQueue, queues, socket);
      actual := 0;
      if bytes == 0 {
        NothingMore(received, socket);
        var b := Complete(socket);
        assert b[0..0] == [];
        return Some(b), 0;
      }
      HasQueue(defQueue, queues, socket);
      actual := GetQueuedData(socket, bytes);
      ghost var def1, queues1 := defQueue, queues;
      HasQueue(defQueue, queues, socket);
      var r, now := Receive(socket, bytes, actual);
      OthersOn(old(defQueue), old(queues), def1, queues1, defQueue, queues, socket);
      if r.Failed? || r.Closed? {
        return None, actual;
      }
      ghost var def2, queues2, more := defQueue, queues, if r.Data? then r.bytes else [];
      Added(v.data, more);
      var b := Settle(socket, bytes, now);
      OthersOn(old(defQueue), old(queues), def2, queues2, defQueue, queues, socket);
      assert b[..now] == v.data + more;
      assert now == bytes ==> b[|v.data|..bytes] == b[..now][|v.data|..];
      return Some(b), now;
    }

    // ---------- MQTTPacket.c ----------

    /** MQTTPacket_decode. */
    method Decode(socket: int) returns (rc: Completion, value: nat)
      requires socket != 0 && Queues(defQueue, queues, socket)
      requires HeldOk(View(defQueue, queues, socket)) && View(defQueue, queues, socket).index == 1
      modifies this`defQueue, this`queues, this`received, this`calls
      ensures Called(old(calls), calls, socket)
      ensures Queues(defQueue, queues, socket) && Others(old(defQueue), old(queues), defQueue, queues, socket)
      ensures var v, w := old(View(defQueue, queues, socket)), View(defQueue, queues, socket);
              && v.header <= w.header && w.data == v.data
              && Grows(old(received), received, socket, w.header[|v.header|..])
              && match rc
                 case COMPLETE => HeldOk(w) && w.index == |w.header| && ReadStart(w.header) == Start(|w.header|, value)
                 case INTERRUPTED => && ReadStart(w.header) == Short && w.data == [] && w.index == 0
                                     && defQueue.socket == 0 && WasBlocked(old(calls), calls)
                 case ERROR => WasLost(old(calls), calls) || ReadStart(w.header) == Bad
    {
      hide Queues, Others, View, Find, Grows, ReadStart, Digits, Pow128, Continue, HeldOk;
      ghost var v := View(defQueue, queues, socket);
      rc, value := ERROR, 0;
      var multiplier: nat, len: nat, more := 1, 0, true;
      OthersKept(defQueue, queues, socket);
      NothingMore(received, socket);
      DecodeBegins(v);
      assert v.header[|v.header|..] == [];
      while more
        invariant Queues(defQueue, queues, socket) && Others(old(defQueue), old(queues), defQueue, queues, socket)
        invariant Decoding(v, View(defQueue, queues, socket), len, value, multiplier, more)
        invariant Grows(old(received), received, socket, View(defQueue, queues, socket).header[|v.header|..])
        invariant !more ==> rc == COMPLETE
        invariant Called(old(calls), calls, socket)
        decreases 5 - len, more
      {
        ghost var w, def0, queues0, received0 := View(defQueue, queues, socket), defQueue, queues, received;
        len := len + 1;
        DecodeCanGoOn(v, w, len - 1, value, multiplier);
        if len > MAX_REMAINING_LENGTH_BYTES {
          rc := ERROR;
          return;
        }
        var c: Byte;
        rc, c := Getch(socket);
        OthersOn(old(defQueue), old(queues), def0, queues0, defQueue, queues, socket);
        ghost var w' := View(defQueue, queues, socket);
        GrowsOn(old(received), received0, received, socket, w.header[|v.header|..], w'.header[|w.header|..]);
        assert w.header <= w'.header;
        assert w.header[|v.header|..] + w'.header[|w.header|..] == w'.header[|v.header|..];
        if rc != COMPLETE {
          DecodeStops(v, w, len - 1, value, multiplier);
          return;
        }
        DecodeByte(v, w, len - 1, value, multiplier, c);
        value := value + c % 128 * multiplier;
        multiplier := multiplier * 128;
        more := c >= 128;
      }
      DecodeEnds(v, View(defQueue, queues, socket), len, value, multiplier);
    }

    /** The reading of MQTTPacket_Factory. `more` is what recv gave; a packet has the header `h` and the data `d`. */
    method ReadBytes(socket: int) returns (rc: Completion, packet: Option<Frame>, ghost more: Bytes, ghost h: Bytes)
      requires socket != 0 && Queues(defQueue, queues, socket)
      requires var v := View(defQueue, queues, socket);
               v.index == 0 && IsPart(v.header, v.data)
      modifies this`defQueue, this`queues, this`received, this`calls
      ensures Called(old(calls), calls, socket)
      ensures Queues(defQueue, queues, socket) && Others(old(defQueue), old(queues), defQueue, queues, socket)
      ensures Grows(old(received), received, socket, more)
      ensures var v, w := old(View(defQueue, queues, socket)), View(defQueue, queues, socket);
              match rc
              case COMPLETE => && packet.Some? && w == NOTHING && defQueue.socket == 0 && h != []
                               && h + packet.value.data == v.header + v.data + more
                               && ReadStart(h) == Start(|h|, |packet.value.data|) && packet.value.header == h[0]
              case INTERRUPTED => && w.index == 0 && defQueue.socket == 0 && IsPart(w.header, w.data)
                                  && w.header + w.data == v.header + v.data + more && WasShort(old(calls), calls)
              case ERROR => WasLost(old(calls), calls) || ReadStart(v.header + v.data + more) == Bad
    {
      hide Queues, Others, View, Find, Grows, ReadStart, HeldOk;
      ghost var def0, queues0, received0, v := defQueue, queues, received, View(defQueue, queues, socket);
      PartIsOk(v);
      packet := None;
      var header: Byte, length: nat, buf: Option<Bytes>, actual: nat;
      rc, header := Getch(socket);
      ghost var def1, queues1, received1, u := defQueue, queues, received, View(defQueue, queues, socket);
      more, h := u.header[|v.header|..], u.header;
      FirstByteMissing(v, u);
      if rc != COMPLETE {
          return;
      }
      FirstByte(v, header);
      rc, length := Decode(socket);
      ghost var def2, queues2, received2, w := defQueue, queues, received, View(defQueue, queues, socket);
      OthersOn(def0, queues0, def1, queues1, def2, queues2, socket);
      GrowsOn(received0, received1, received2, socket, more, w.header[|u.header|..]);
      more, h := more + w.header[|u.header|..], w.header;
      HeaderPieces(v, u, w);
      if rc != COMPLETE {
        return;
      }
      ReadyForData(w, length);
      buf, actual := Getdata(socket, length);
      OthersOn(def0, queues0, def2, queues2, defQueue, queues, socket);
      ghost var d := if buf == None then v.data else if actual == length then buf.value[..length]
                     else View(defQueue, queues, socket).data;
      GrowsOn(received0, received2, received, socket, more, d[|v.data|..]);
      more := more + d[|v.data|..];
      DataPieces(v, w, d);
      if buf == None {
        rc := ERROR;
      } else if actual != length {
        rc := INTERRUPTED;
      } else {
        packet := Some(Frame(header, buf.value[..length]));
      }
    }

    /** For every socket but, perhaps, one: what was received has been handed on as packets, but for a part of
        one that is held. */
    ghost predicate ValidBut(socket: int)
      reads this`defQueue, this`queues, this`received, this`taken
    {
      Queues(defQueue, queues, socket) && CleanBut(defQueue, queues, received, taken, socket)
    }

    ghost predicate Valid()
      reads this`defQueue, this`queues, this`received, this`taken
    {
      defQueue.socket == 0 && ValidBut(0)
    }

    constructor ()
      ensures Valid() && received == map[] && taken == map[]
    {
      var headerlen: int, fixedHeader: FixedHeader := *, *;
      defQueue := SocketQueue(0, 0, headerlen, fixedHeader, 0, []);
      queues := [];
      received, taken := map[], map[];
    }

    /** The reading of MQTTPacket_Factory. For every socket the packets handed on are those of the stream that
        was received for it, in order, whatever recv does. Only a lost connection or a bad length is an error. */
    method ReadPacket(socket: int) returns (rc: Completion, packet: Option<Frame>)
      requires Valid() && socket != 0
      modifies this
      ensures rc == COMPLETE <==> packet.Some?
      ensures At(taken, socket) == old(At(taken, socket)) + if packet.Some? then [packet.value] else []
      ensures forall t :: t != socket ==> At(received, t) == old(At(received, t)) && At(taken, t) == old(At(taken, t))
      ensures old(At(received, socket)) <= At(received, socket)
      ensures rc != ERROR ==> Valid() && Frames(At(received, socket)) == At(taken, socket)
      ensures Called(old(calls), calls, socket) && (rc == INTERRUPTED ==> WasShort(old(calls), calls))
      ensures rc == ERROR ==> && ValidBut(socket)
                              && (WasLost(old(calls), calls) || ReadStart(Rest(At(received, socket))) == Bad)
    {
      hide Queues, Others, Find, ReadStart, View, Holding, IsPart, Frames, Rest, CleanBut;
      ghost var def0, queues0, received0, taken0 := defQueue, queues, received, taken;
      AnySocket(defQueue, queues, socket);
      CleanSocket(defQueue, queues, received, taken, socket);
      ghost var v := View(defQueue, queues, socket);
      ghost var more, h;
      rc, packet, more, h := ReadBytes(socket);
      if rc == COMPLETE {
        HoldAll(At(received0, socket), At(taken0, socket), v.header, v.data, more, h, packet.value.data);
        taken := taken[socket := At(taken, socket) + [packet.value]];
      } else {
        packet := None;
        ghost var w := View(defQueue, queues, socket);
        if rc == INTERRUPTED {
          HoldMore(At(received0, socket), At(taken0, socket), v.header, v.data, more, w.header, w.data);
        } else {
          HoldBad(At(received0, socket), At(taken0, socket), v.header, v.data, more);
        }
      }
      NothingHeld();
      CleanOthers(def0, queues0, received0, taken0, defQueue, queues, received, taken, socket, more);
      NowClean(defQueue, queues, received, taken, socket);
    }

    /** The end of a connection: Socket_close calls SocketBuffer_cleanup, and a new stream can begin. */
    method Close(socket: int)
      requires socket != 0 && ValidBut(socket)
      modifies this
      ensures Valid() && At(received, socket) == [] && At(taken, socket) == []
      ensures forall t :: t != socket ==> At(received, t) == old(At(received, t)) && At(taken, t) == old(At(taken, t))
    {
      hide Queues, Others, Find, View, CleanBut;
      ghost var def0, queues0, received0, taken0 := defQueue, queues, received, taken;
      Cleanup(socket);
      received, taken := received[socket := []], taken[socket := []];
      CleanKept(def0, queues0, received0, taken0, defQueue, queues, received, taken, socket);
      NothingHeld();
      NowClean(defQueue, queues, received, taken, socket);
    }
  }

  // ---------- every socket ----------

  ghost predicate CleanView(v: Held, received: Bytes, taken: seq<Frame>) {
    v.index == 0 && IsPart(v.header, v.data) && Holding(received, taken, v.header, v.data)
  }

  ghost predicate CleanBut(def: SocketQueue, queues: seq<SocketQueue>, received: map<int, Bytes>,
                           taken: map<int, seq<Frame>>, socket: int) {
    forall t :: t != 0 && t != socket ==> CleanView(View(def, queues, t), At(received, t), At(taken, t))
  }

  lemma AnySocket(def: SocketQueue, queues: seq<SocketQueue>, socket: int)
    requires Queues(def, queues, 0) && def.socket == 0
    ensures Queues(def, queues, socket)
  {
  }

  lemma CleanSocket(def: SocketQueue, queues: seq<SocketQueue>, received: map<int, Bytes>,
                    taken: map<int, seq<Frame>>, socket: int)
    requires CleanBut(def, queues, received, taken, 0) && socket != 0
    ensures CleanView(View(def, queues, socket), At(received, socket), At(taken, socket))
    ensures CleanBut(def, queues, received, taken, socket)
  {
  }

  lemma CleanKept(def: SocketQueue, queues: seq<SocketQueue>, received: map<int, Bytes>, taken: map<int, seq<Frame>>,
                  def': SocketQueue, queues': seq<SocketQueue>, received': map<int, Bytes>,
                  taken': map<int, seq<Frame>>,
                  socket: int)
    requires CleanBut(def, queues, received, taken, socket) && Others(def, queues, def', queues', socket)
    requires forall t :: t != socket ==> At(received', t) == At(received, t) && At(taken', t) == At(taken, t)
    ensures CleanBut(def', queues', received', taken', socket)
  {
  }

  lemma CleanOthers(def: SocketQueue, queues: seq<SocketQueue>, received: map<int, Bytes>, taken: map<int, seq<Frame>>,
                    def': SocketQueue, queues': seq<SocketQueue>, received': map<int, Bytes>,
                    taken': map<int, seq<Frame>>,
                    socket: int, more: Bytes)
    requires CleanBut(def, queues, received, taken, socket) && Others(def, queues, def', queues', socket)
    requires Grows(received, received', socket, more) && forall t :: t != socket ==> At(taken', t) == At(taken, t)
    ensures CleanBut(def', queues', received', taken', socket)
  {
  }

  lemma NowClean(def: SocketQueue, queues: seq<SocketQueue>, received: map<int, Bytes>, taken: map<int, seq<Frame>>,
                 socket: int)
    requires CleanBut(def, queues, received, taken, socket)
    ensures def.socket == 0 && Queues(def, queues, socket) ==> Queues(def, queues, 0)
    ensures CleanView(View(def, queues, socket), At(received, socket), At(taken, socket)) ==>
              CleanBut(def, queues, received, taken, 0) && Frames(At(received, socket)) == At(taken, socket)
  {
  }

  lemma NothingHeld()
    ensures IsPart([], []) && CleanView(NOTHING, [], [])
  {
  }

  // ---------- the steps of decoding ----------

  /** The loop of MQTTPacket_decode after `len` bytes. */
  ghost predicate Decoding(v: Held, w: Held, len: nat, value: nat, multiplier: nat, more: bool) {
    && HeldOk(w) && w.index == len + 1 && v.header <= w.header && w.data == v.data
    && multiplier == Pow128(len) && value == Digits(w.header[1..w.index])
    && if more then Continue(w.header[1..w.index])
       else len >= 1 && Continue(w.header[1..len]) && w.header[len] < 128
  }

  lemma DecodeBegins(v: Held)
    requires HeldOk(v) && v.index == 1
    ensures Decoding(v, v, 0, 0, 1, true)
  {
  }

  lemma DecodeCanGoOn(v: Held, w: Held, len: nat, value: nat, multiplier: nat)
    requires Decoding(v, w, len, value, multiplier, true)
    ensures HeldOk(w) && w.index == len + 1 && v.header <= w.header && w.data == v.data
    ensures w.index == |w.header| && len < 4 ==> w.data == []
    ensures len == 4 ==> ReadStart(w.header) == Bad
    ensures len <= 4
  {
    if w.index == |w.header| {
      assert w.header[1..w.index] == w.header[1..];
      HeaderGoesOn(w.header);
    }
  }

  lemma DecodeStops(v: Held, w: Held, len: nat, value: nat, multiplier: nat)
    requires Decoding(v, w, len, value, multiplier, true) && len < 4
    ensures w.index == |w.header| ==> ReadStart(w.header) == Short && w.data == []
  {
    if w.index == |w.header| {
      assert w.header[1..w.index] == w.header[1..];
      HeaderGoesOn(w.header);
    }
  }

  lemma DecodeByte(v: Held, w: Held, len: nat, value: nat, multiplier: nat, c: Byte)
    requires Decoding(v, w, len, value, multiplier, true) && len < 4
    requires WithByte(w, c).header[w.index] == c
    ensures Decoding(v, WithByte(w, c), len + 1, value + c % 128 * multiplier, multiplier * 128, c >= 128)
  {
    hide HeldOk, Digits, Pow128;
    HeldBounds(w);
    var w' := WithByte(w, c);
    assert w'.header[1..w'.index] == w.header[1..w.index] + [c];
    assert w'.header[1..len + 1] == w.header[1..w.index];
    OneMoreDigit(w.header[1..w.index], c, value, multiplier);
    ByteIsHeld(w, c);
  }

  lemma HeldBounds(w: Held)
    requires HeldOk(w)
    ensures 0 <= w.index <= |w.header| <= HEADER_SIZE
  {
  }

  lemma OneMoreDigit(s: Bytes, c: Byte, value: nat, multiplier: nat)
    requires value == Digits(s) && multiplier == Pow128(|s|)
    ensures value + c % 128 * multiplier == Digits(s + [c]) && multiplier * 128 == Pow128(|s| + 1)
  {
    hide Digits;
    DigitsAppend(s, c);
  }

  lemma ByteIsHeld(w: Held, c: Byte)
    requires HeldOk(w) && 1 <= w.index < HEADER_SIZE && Continue(w.header[1..w.index])
    ensures HeldOk(WithByte(w, c))
  {
    hide ReadStart;
    var w' := WithByte(w, c);
    if w.index == |w.header| {
      assert w.header[1..w.index] == w.header[1..] && w'.header[1..] == w.header[1..] + [c];
      HeaderGoesOn(w.header);
      if c < 128 {
        HeaderEnds(w'.header);
      } else {
        HeaderGoesOn(w'.header);
      }
    }
  }

  lemma DecodeEnds(v: Held, w: Held, len: nat, value: nat, multiplier: nat)
    requires Decoding(v, w, len, value, multiplier, false)
    ensures HeldOk(w) && w.index == |w.header| && ReadStart(w.header) == Start(|w.header|, value)
    ensures v.header <= w.header && w.data == v.data
  {
    var h := w.header[..w.index];
    assert h[1..|h| - 1] == w.header[1..len] && h[1..] == w.header[1..w.index];
    HeaderEnds(h);
    PartOfHeader(w.header, w.index);
  }

  // ---------- the pieces of one packet ----------

  lemma PartIsOk(v: Held)
    requires v.index == 0 && IsPart(v.header, v.data)
    ensures HeldOk(v) && (v.header == [] ==> v.data == [])
  {
    HeaderIsShort(v.header);
  }

  lemma FirstByteMissing(v: Held, u: Held)
    requires v.index == 0 && IsPart(v.header, v.data) && v.header <= u.header
    ensures u == v && v.header == [] ==> IsPart(u.header, u.data)
                                         && u.header + u.data == v.header + v.data + u.header[|v.header|..]
  {
  }

  lemma FirstByte(v: Held, c: Byte)
    requires v.index == 0 && IsPart(v.header, v.data)
    ensures HeldOk(WithByte(v, c)) && WithByte(v, c).index == 1 && WithByte(v, c).data == v.data
    ensures v.header <= WithByte(v, c).header
  {
    PartIsOk(v);
    if v.header == [] {
      HeaderGoesOn([c]);
    }
  }

  /** A part with data has its whole header. */
  lemma WholeHeader(v: Held, header: Bytes)
    requires IsPart(v.header, v.data) && v.data != [] && v.header <= header
    ensures ReadStart(header) == ReadStart(v.header) == Start(|v.header|, ReadStart(header).remaining)
  {
    StartIsStable(v.header, header[|v.header|..]);
    assert v.header + header[|v.header|..] == header;
  }

  lemma HeaderPieces(v: Held, u: Held, w: Held)
    requires IsPart(v.header, v.data) && v.header <= u.header <= w.header && w.data == v.data
    ensures u.header[|v.header|..] + w.header[|u.header|..] == w.header[|v.header|..]
    ensures ReadStart(w.header) == Bad ==> v.header + v.data + w.header[|v.header|..] == w.header
    ensures ReadStart(w.header) == Short && w.data == [] ==>
              v.header + v.data + w.header[|v.header|..] == w.header + w.data && IsPart(w.header, w.data)
  {
    if v.data != [] {
      WholeHeader(v, w.header);
    }
    assert v.header + w.header[|v.header|..] == w.header;
  }

  lemma ReadyForData(w: Held, length: nat)
    requires HeldOk(w) && ReadStart(w.header) == Start(|w.header|, length)
    ensures w.header != [] && (|w.data| < length || (w.data == [] && length == 0))
  {
  }

  lemma DataPieces(v: Held, w: Held, d: Bytes)
    requires IsPart(v.header, v.data) && v.header <= w.header && v.data <= d
    requires ReadStart(w.header).Start? && ReadStart(w.header).begin == |w.header|
    ensures w.header + d == v.header + v.data + (w.header[|v.header|..] + d[|v.data|..])
    ensures w.header != []
  {
    if v.data != [] {
      WholeHeader(v, w.header);
      assert w.header[|v.header|..] == [];
    }
    assert v.header + w.header[|v.header|..] == w.header;
    assert v.data + d[|v.data|..] == d;
  }

  lemma OthersKept(def: SocketQueue, queues: seq<SocketQueue>, socket: int)
    ensures Others(def, queues, def, queues, socket)
  {
  }

  /** `more` has come for the socket, and nothing for the others. */
  ghost predicate Grows(m: map<int, Bytes>, r: map<int, Bytes>, socket: int, more: Bytes) {
    forall s :: At(r, s) == if s == socket then At(m, s) + more else At(m, s)
  }

  lemma Added(data: Bytes, more: Bytes)
    ensures (data + more)[|data|..] == more && data + [] == data
  {
  }

  lemma NothingMore(m: map<int, Bytes>, socket: int)
    ensures Grows(m, m, socket, [])
  {
  }

  lemma GrowsOn(m: map<int, Bytes>, r: map<int, Bytes>, q: map<int, Bytes>, socket: int, a: Bytes, b: Bytes)
    requires Grows(m, r, socket, a) && Grows(r, q, socket, b)
    ensures Grows(m, q, socket, a + b)
  {
    var x, y, z := At(m, socket), At(r, socket), At(q, socket);
    assert y == x + a && z == y + b;
    Associative(x, a, b);
    forall s
      ensures At(q, s) == if s == socket then x + (a + b) else At(m, s)
    {
    }
  }

  lemma Associative(x: Bytes, a: Bytes, b: Bytes)
    ensures x + a + b == x + (a + b)
  {
  }

  lemma HasQueue(def: SocketQueue, queues: seq<SocketQueue>, socket: int)
    requires Queues(def, queues, socket) && socket != 0
    ensures var v, q := View(def, queues, socket), QueueOf(def, queues, socket);
            if q.socket == socket then q.datalen == |v.data| else v == NOTHING
  {
  }

  ghost predicate HeldOk(v: Held) {
    && 0 <= v.index <= |v.header| <= HEADER_SIZE
    && match ReadStart(v.header)
       case Start(begin, remaining) => begin == |v.header| && (v.data == [] || |v.data| < remaining)
       case Short => v.data == []
       case Bad => v.data == []
  }

  /** The next byte of the header is one that is held, or a new one. */
  ghost function WithByte(v: Held, c: Byte): Held {
    Held(if v.index < |v.header| then v.header else v.header + [c], v.index + 1, v.data)
  }

  function QueueOf(def: SocketQueue, queues: seq<SocketQueue>, socket: int): SocketQueue {
    var i := Find(queues, socket);
    if i < |queues| then queues[i] else def
  }

  function WithChar(q: SocketQueue, c: Byte): (r: SocketQueue)
    requires 0 <= q.index < HEADER_SIZE
  {
    q.(fixedHeader := q.fixedHeader[q.index := c], index := q.index + 1, headerlen := q.index + 1)
  }
}
