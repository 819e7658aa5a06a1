/**
 Writing packets to non-blocking sockets: the partial writes of Socket.c and SocketBuffer.c. What a socket does
 not take at once is kept as a pending write and offered again, and no other packet is written before it.
 */
module SocketWrites {
  import opened Messages
  import opened Codec
  import opened WriteTour

  const MAX_BUFFERS := 4

  datatype Completion = COMPLETE | INTERRUPTED | ERROR

  /** A buffer to write: the memory from a pointer on, of which `len` bytes count. */
  datatype IoVec = IoVec(base: Bytes, len: nat)

  datatype PendingWrite = PendingWrite(socket: int, total: nat, bytes: nat, iovecs: seq<IoVec>)

  datatype Written = Wrote(n: nat) | WouldBlock | Failed

  // ---------- buffers ----------

  predicate VecOk(v: IoVec) {
    v.len <= |v.base|
  }

  ghost predicate VecsOk(vs: seq<IoVec>) {
    forall i :: 0 <= i < |vs| ==> VecOk(vs[i])
  }

  function Content(v: IoVec): Bytes {
    if VecOk(v) then v.base[..v.len] else []
  }

  function Flat(vs: seq<IoVec>): Bytes {
    if vs == [] then [] else Content(vs[0]) + Flat(vs[1..])
  }

  lemma {:induction false} FlatAppend(vs: seq<IoVec>, ws: seq<IoVec>)
    ensures Flat(vs + ws) == Flat(vs) + Flat(ws)
  {
    if vs == [] {
      assert vs + ws == ws;
    } else {
      assert (vs + ws)[1..] == vs[1..] + ws;
      FlatAppend(vs[1..], ws);
    }
  }

  lemma FlatOne(v: IoVec)
    ensures Flat([v]) == Content(v)
  {
    assert [v][1..] == [];
    assert Content(v) + [] == Content(v);
  }

  // ---------- what a continuation offers ----------

  /** The buffers from the first unsent byte on. A buffer that has been sent in part is offered alone. */
  function Offer(vs: seq<IoVec>, bytes: nat): seq<IoVec> {
    if vs == [] || bytes == 0 then vs
    else if bytes < vs[0].len then
      if VecOk(vs[0]) then [IoVec(vs[0].base[bytes..], vs[0].len - bytes)] else []
    else Offer(vs[1..], bytes - vs[0].len)
  }

  lemma OfferAll(vs: seq<IoVec>)
    ensures Offer(vs, 0) == vs && vs[0..] == vs && vs[|vs|..] == [] && forall left: nat :: Offer([], left) == []
  {
  }

  lemma OfferNext(vs: seq<IoVec>, i: nat, left: nat)
    requires i < |vs| && VecOk(vs[i]) && left > 0
    ensures Offer(vs[i..], left) == if left < vs[i].len then [IoVec(vs[i].base[left..], vs[i].len - left)]
                                    else Offer(vs[i + 1..], left - vs[i].len)
    ensures left == vs[i].len ==> Offer(vs[i..], left) == vs[i + 1..]
  {
    assert vs[i..][1..] == vs[i + 1..];
  }

  /** The offer begins with the first unsent byte, and is not empty while there is one. */
  lemma {:induction false} OfferIsUnsent(vs: seq<IoVec>, bytes: nat)
    requires VecsOk(vs) && bytes <= |Flat(vs)|
    ensures VecsOk(Offer(vs, bytes))
    ensures Flat(Offer(vs, bytes)) <= Flat(vs)[bytes..]
    ensures bytes < |Flat(vs)| ==> Flat(Offer(vs, bytes)) != []
  {
    if vs != [] && bytes != 0 {
      assert VecOk(vs[0]);
      if bytes < vs[0].len {
        FlatOne(IoVec(vs[0].base[bytes..], vs[0].len - bytes));
        assert Content(IoVec(vs[0].base[bytes..], vs[0].len - bytes)) == Content(vs[0])[bytes..];
      } else {
        OfferIsUnsent(vs[1..], bytes - vs[0].len);
        assert Flat(vs)[bytes..] == Flat(vs[1..])[bytes - vs[0].len..];
      }
    }
  }

  /** How far it goes: to the end of the packet if the first unsent byte begins a buffer, and otherwise to the end of
      the buffer it is in. */
  lemma {:induction false} OfferReaches(sent: seq<IoVec>, vs: seq<IoVec>, n: nat)
    requires VecsOk(sent) && VecsOk(vs) && (n > 0 ==> vs != [] && n < vs[0].len)
    ensures Flat(Offer(sent + vs, |Flat(sent)| + n)) == if n == 0 then Flat(vs) else Content(vs[0])[n..]
  {
    hide Content;
    if sent == [] {
      assert sent + vs == vs;
      OfferPart(vs, n);
    } else {
      assert VecOk(sent[0]);
      ContentLength(sent[0]);
      assert (sent + vs)[1..] == sent[1..] + vs;
      OfferReaches(sent[1..], vs, n);
      OfferAll(sent[1..] + vs);
    }
  }

  lemma ContentLength(v: IoVec)
    requires VecOk(v)
    ensures |Content(v)| == v.len
  {
  }

  lemma OfferPart(vs: seq<IoVec>, n: nat)
    requires VecsOk(vs) && (n > 0 ==> vs != [] && n < vs[0].len)
    ensures Flat(Offer(vs, n)) == if n == 0 then Flat(vs) else Content(vs[0])[n..]
  {
    if n > 0 {
      assert VecOk(vs[0]);
      FlatOne(IoVec(vs[0].base[n..], vs[0].len - n));
    }
  }

  // ---------- the state ----------

  function Find(writes: seq<PendingWrite>, socket: int): (i: nat)
    ensures i <= |writes|
    ensures i < |writes| ==> writes[i].socket == socket
    ensures forall j :: 0 <= j < i ==> writes[j].socket != socket
  {
    if writes == [] then 0 else if writes[0].socket == socket then 0 else 1 + Find(writes[1..], socket)
  }

  function Unsent(writes: seq<PendingWrite>, socket: int): Bytes {
    var i := Find(writes, socket);
    if i < |writes| && writes[i].bytes <= |Flat(writes[i].iovecs)| then Flat(writes[i].iovecs)[writes[i].bytes..]
    else []
  }

  ghost predicate WriteOk(w: PendingWrite) {
    VecsOk(w.iovecs) && w.total == |Flat(w.iovecs)| && w.bytes < w.total
  }

  /** Each pending socket has a write, the first one found for it. A socket that is not stale has one only while it is
      pending, and only one. */
  ghost predicate Writes(writes: seq<PendingWrite>, writePending: seq<int>, stale: set<int>) {
    && (forall i :: 0 <= i < |writes| ==> WriteOk(writes[i]))
    && Distinct(writePending)
    && (forall s :: s in writePending ==> Find(writes, s) < |writes|)
    && (forall s :: s !in stale && s !in writePending ==> Find(writes, s) == |writes|)
    && (forall i, j :: 0 <= i < j < |writes| && writes[i].socket == writes[j].socket ==> writes[i].socket in stale)
  }

  /** What the socket has taken, and then what is still to be sent, are the packets of the connection. */
  ghost predicate Balanced(writes: seq<PendingWrite>, taken: map<int, Bytes>, packets: map<int, Bytes>,
                           lost: set<int>) {
    forall s :: s !in lost ==> At(taken, s) + Unsent(writes, s) == At(packets, s)
  }

  lemma FindAppended(writes: seq<PendingWrite>, w: PendingWrite, t: int)
    ensures Find(writes + [w], t) == if Find(writes, t) < |writes| then Find(writes, t)
                                      else if w.socket == t then |writes| else |writes| + 1
  {
    var more := writes + [w];
    assert forall j :: 0 <= j < |writes| ==> more[j] == writes[j];
    assert more[|writes|] == w;
  }

  lemma NotPending(writes: seq<PendingWrite>, writePending: seq<int>, stale: set<int>, socket: int)
    requires Writes(writes, writePending, stale)
    ensures socket in writePending ==> Find(writes, socket) < |writes|
    ensures socket !in stale ==> (socket in writePending <==> Find(writes, socket) < |writes|)
  {
  }

  lemma PutNothing(writes: seq<PendingWrite>, taken: map<int, Bytes>, packets: map<int, Bytes>, lost: set<int>,
                   socket: int, taken': map<int, Bytes>)
    requires Balanced(writes, taken, packets, lost) && taken' == taken[socket := At(taken, socket) + []]
    ensures Balanced(writes, taken', packets, lost)
  {
    assert At(taken, socket) + [] == At(taken, socket);
    assert forall s :: At(taken', s) == At(taken, s);
  }

  lemma PutAll(writes: seq<PendingWrite>, writePending: seq<int>, stale: set<int>, taken: map<int, Bytes>,
               packets: map<int, Bytes>, lost: set<int>, socket: int, iovecs: seq<IoVec>,
               taken': map<int, Bytes>, packets': map<int, Bytes>)
    requires Writes(writes, writePending, stale) && Balanced(writes, taken, packets, lost)
    requires socket !in writePending && stale <= lost
    requires taken' == taken[socket := At(taken, socket) + Flat(iovecs)[..|Flat(iovecs)|]]
    requires packets' == packets[socket := At(packets, socket) + Flat(iovecs)]
    ensures Balanced(writes, taken', packets', lost)
  {
    hide Writes, Find, Unsent, Flat;
    NotPending(writes, writePending, stale, socket);
    assert Flat(iovecs)[..|Flat(iovecs)|] == Flat(iovecs);
    forall s | s !in lost
      ensures At(taken', s) + Unsent(writes, s) == At(packets', s)
    {
      assert At(taken, s) + Unsent(writes, s) == At(packets, s);
      if s == socket {
        NothingUnsent(writes, s);
      }
    }
  }

  lemma NothingUnsent(writes: seq<PendingWrite>, s: int)
    requires Find(writes, s) == |writes|
    ensures Unsent(writes, s) == [] && forall a: Bytes :: a + [] == a
  {
  }

  lemma PutSome(writes: seq<PendingWrite>, writePending: seq<int>, stale: set<int>, taken: map<int, Bytes>,
                packets: map<int, Bytes>, lost: set<int>, pw: PendingWrite,
                taken': map<int, Bytes>, packets': map<int, Bytes>)
    requires Writes(writes, writePending, stale) && Balanced(writes, taken, packets, lost)
    requires pw.socket !in writePending && stale <= lost && WriteOk(pw)
    requires taken' == taken[pw.socket := At(taken, pw.socket) + Flat(pw.iovecs)[..pw.bytes]]
    requires packets' == packets[pw.socket := At(packets, pw.socket) + Flat(pw.iovecs)]
    ensures Writes(writes + [pw], writePending + [pw.socket], stale)
    ensures Balanced(writes + [pw], taken', packets', lost)
  {
    hide Writes, Find, Unsent, Flat;
    NotPending(writes, writePending, stale, pw.socket);
    forall s | s !in lost
      ensures At(taken', s) + Unsent(writes + [pw], s) == At(packets', s)
    {
      assert s == pw.socket ==> Find(writes, s) == |writes|;
      UnsentAppended(writes, pw, s);
      assert At(taken, s) + Unsent(writes, s) == At(packets, s);
      Parts(At(taken, s), Flat(pw.iovecs), pw.bytes);
    }
    WritesAppended(writes, writePending, stale, pw);
  }

  lemma Parts(a: Bytes, b: Bytes, n: nat)
    requires n <= |b|
    ensures a + b[..n] + b[n..] == a + b && a + [] == a
  {
  }

  lemma UnsentAppended(writes: seq<PendingWrite>, pw: PendingWrite, s: int)
    requires s == pw.socket ==> Find(writes, s) == |writes| && pw.bytes <= |Flat(pw.iovecs)|
    ensures Unsent(writes + [pw], s) == if s == pw.socket then Flat(pw.iovecs)[pw.bytes..] else Unsent(writes, s)
    ensures s == pw.socket ==> Unsent(writes, s) == []
  {
    FindAppended(writes, pw, s);
    var i := Find(writes, s);
    assert i < |writes| ==> (writes + [pw])[i] == writes[i];
  }

  lemma WritesAppended(writes: seq<PendingWrite>, writePending: seq<int>, stale: set<int>, pw: PendingWrite)
    requires Writes(writes, writePending, stale) && pw.socket !in writePending && WriteOk(pw)
    ensures Writes(writes + [pw], writePending + [pw.socket], stale)
  {
    var more, pending := writes + [pw], writePending + [pw.socket];
    forall s
      ensures s in pending ==> Find(more, s) < |more|
      ensures s !in stale && s !in pending ==> Find(more, s) == |more|
    {
      FindAppended(writes, pw, s);
    }
    forall i, j | 0 <= i < j < |more| && more[i].socket == more[j].socket
      ensures more[i].socket in stale
    {
      if j == |writes| {
        assert writes[i].socket == pw.socket;
        assert Find(writes, pw.socket) <= i;
      }
    }
  }

  // ---------- attempts ----------

  /** One call of writev: the bytes it was offered, how many were left of the packet, and what came of it. */
  datatype Attempt = Attempt(socket: int, bytes: Bytes, left: nat, result: Written)

  function Accepted(r: Written): nat {
    if r.Wrote? then r.n else 0
  }

  /** The write is over: nothing is left, or the socket has reported an error. */
  predicate Ends(a: Attempt) {
    a.result == Failed || Accepted(a.result) == a.left
  }

  ghost predicate Tried(before: seq<Attempt>, after: seq<Attempt>, socket: int, bytes: Bytes, left: nat) {
    && |after| == |before| + 1 && after == before + [after[|before|]]
    && after[|before|].socket == socket && after[|before|].bytes == bytes && after[|before|].left == left
  }

  /** A new packet is refused while a write is pending; otherwise it is offered whole, once, and what the socket makes
      of that decides the result. */
  ghost predicate IsPut(pending: bool, before: seq<Attempt>, after: seq<Attempt>, socket: int, bytes: Bytes,
                        rc: Completion) {
    if pending then rc == ERROR && after == before
    else
      && Tried(before, after, socket, bytes, |bytes|)
      && var r := after[|before|].result;
         rc == if r == Failed then ERROR else if Accepted(r) == |bytes| then COMPLETE else INTERRUPTED
  }

  /** What is left of a list of writes without one of them. */
  function Fewer(writes: seq<PendingWrite>, k: nat): seq<PendingWrite>
    requires k < |writes|
  {
    writes[..k] + writes[k + 1..]
  }

  /** One turn: the socket is offered the next bytes of its write, and gets those it takes. */
  ghost predicate IsTurn(writes: seq<PendingWrite>, taken: map<int, Bytes>, a: Attempt,
                         writes': seq<PendingWrite>, taken': map<int, Bytes>) {
    var k, n := Find(writes, a.socket), Accepted(a.result);
    && k < |writes| && WriteOk(writes[k])
    && a.bytes == Flat(Offer(writes[k].iovecs, writes[k].bytes)) && a.left == writes[k].total - writes[k].bytes
    && n <= |a.bytes| && taken' == taken[a.socket := At(taken, a.socket) + a.bytes[..n]]
    && writes' == if Ends(a) then Fewer(writes, k) else writes[k := writes[k].(bytes := writes[k].bytes + n)]
  }

  // ---------- a pass over the pending writes ----------

  /** How many bytes a socket has taken in these turns. */
  function Got(turns: seq<Attempt>, socket: int): nat {
    if turns == [] then 0
    else
      var n := |turns| - 1;
      Got(turns[..n], socket) + if turns[n].socket == socket then Accepted(turns[n].result) else 0
  }

  function Outcomes(turns: seq<Attempt>): (outcomes: seq<bool>)
    ensures |outcomes| == |turns| && forall j :: 0 <= j < |turns| ==> (outcomes[j] <==> Ends(turns[j]))
  {
    seq(|turns|, j requires 0 <= j < |turns| => Ends(turns[j]))
  }

  function Sockets(turns: seq<Attempt>): (sockets: seq<int>)
    ensures |sockets| == |turns| && forall j :: 0 <= j < |turns| ==> sockets[j] == turns[j].socket
  {
    seq(|turns|, j requires 0 <= j < |turns| => turns[j].socket)
  }

  /** The sockets that reported an error in these turns. */
  function FailedIn(turns: seq<Attempt>): set<int> {
    set a | a in turns && a.result == Failed :: a.socket
  }

  /** The turn offers the first of the bytes that were unsent before the pass and that the socket has not taken in its
      earlier turns, and at least one of them. */
  ghost predicate OffersNext(writes: seq<PendingWrite>, turns: seq<Attempt>, j: nat)
    requires j < |turns|
  {
    var rest, n := Unsent(writes, turns[j].socket), Got(turns[..j], turns[j].socket);
    n < |rest| && turns[j].left == |rest| - n && turns[j].bytes != [] && turns[j].bytes <= rest[n..]
  }

  /** What the turns have done to one socket, whose unsent bytes were `rest` before. */
  ghost predicate Advanced(rest: Bytes, before: Bytes, got: nat, after: Bytes) {
    got <= |rest| && after == before + rest[..got]
  }

  /** What the turns have done. */
  ghost predicate IsPass(writes: seq<PendingWrite>, taken: map<int, Bytes>, turns: seq<Attempt>,
                         writes': seq<PendingWrite>, pending': seq<int>, taken': map<int, Bytes>) {
    && (forall j :: 0 <= j < |turns| ==> OffersNext(writes, turns, j))
    && (forall s :: Advanced(Unsent(writes, s), At(taken, s), Got(turns, s), At(taken', s)))
    && (forall s :: s in pending' && Got(turns, s) <= |Unsent(writes, s)| ==>
          Unsent(writes', s) == Unsent(writes, s)[Got(turns, s)..])
  }

  lemma PassBegins(writes: seq<PendingWrite>, taken: map<int, Bytes>, pending: seq<int>)
    ensures IsPass(writes, taken, [], writes, pending, taken)
  {
  }

  lemma TurnUnsent(writes: seq<PendingWrite>, taken: map<int, Bytes>, a: Attempt,
                   writes': seq<PendingWrite>, taken': map<int, Bytes>, s: int)
    requires IsTurn(writes, taken, a, writes', taken')
    ensures s != a.socket ==> Unsent(writes', s) == Unsent(writes, s)
    ensures s == a.socket ==>
              var rest := Unsent(writes, s);
              && a.left == |rest| > 0 && a.bytes != [] && a.bytes <= rest
              && (!Ends(a) ==> Unsent(writes', s) == rest[Accepted(a.result)..])
  {
    hide Flat, Offer, Find, Unsent;
    var k, n := Find(writes, a.socket), Accepted(a.result);
    var w := writes[k];
    FoundIs(writes, a.socket);
    FirstUnsent(w, a.bytes, n);
    if Ends(a) {
      if s != a.socket {
        UnsentRemoved(writes, k, s);
      }
    } else {
      UnsentUpdated(writes, k, w.(bytes := w.bytes + n), s);
    }
  }

  lemma FoundIs(writes: seq<PendingWrite>, s: int)
    requires Find(writes, s) < |writes| && WriteOk(writes[Find(writes, s)])
    ensures var w := writes[Find(writes, s)];
            w.socket == s && w.bytes <= |Flat(w.iovecs)| && Unsent(writes, s) == Flat(w.iovecs)[w.bytes..]
  {
  }

  lemma FirstUnsent(w: PendingWrite, bytes: Bytes, n: nat)
    requires WriteOk(w) && bytes == Flat(Offer(w.iovecs, w.bytes)) && n <= |bytes|
    ensures w.bytes + n <= |Flat(w.iovecs)| && bytes != [] && bytes <= Flat(w.iovecs)[w.bytes..]
    ensures Flat(w.iovecs)[w.bytes..][n..] == Flat(w.iovecs)[w.bytes + n..]
  {
    hide Flat, Offer;
    OfferIsUnsent(w.iovecs, w.bytes);
  }

  lemma TurnAdded(turns: seq<Attempt>, a: Attempt)
    ensures Outcomes(turns + [a]) == Outcomes(turns) + [Ends(a)]
    ensures Sockets(turns + [a]) == Sockets(turns) + [a.socket]
    ensures FailedIn(turns + [a]) == FailedIn(turns) + if a.result == Failed then {a.socket} else {}
  {
  }

  lemma GotMore(turns: seq<Attempt>, a: Attempt, s: int)
    ensures Got(turns + [a], s) == Got(turns, s) + if a.socket == s then Accepted(a.result) else 0
  {
    assert (turns + [a])[..|turns|] == turns;
  }

  lemma OffersOn(writes: seq<PendingWrite>, turns: seq<Attempt>, a: Attempt, j: nat)
    requires j < |turns| && OffersNext(writes, turns, j)
    ensures OffersNext(writes, turns + [a], j)
  {
    assert (turns + [a])[..j] == turns[..j];
  }

  /** One more turn of a pass. */
  lemma PassGoesOn(writes0: seq<PendingWrite>, taken0: map<int, Bytes>, turns: seq<Attempt>, writes: seq<PendingWrite>,
                   pending: seq<int>, taken: map<int, Bytes>, a: Attempt,
                   writes': seq<PendingWrite>, pending': seq<int>, taken': map<int, Bytes>)
    requires IsPass(writes0, taken0, turns, writes, pending, taken) && IsTurn(writes, taken, a, writes', taken')
    requires a.socket in pending && forall t :: t in pending' ==> t in pending && (Ends(a) ==> t != a.socket)
    ensures IsPass(writes0, taken0, turns + [a], writes', pending', taken')
  {
    hide Unsent, IsTurn, Got, OffersNext, Advanced, Ends;
    var more := turns + [a];
    forall s
      ensures Advanced(Unsent(writes0, s), At(taken0, s), Got(more, s), At(taken', s))
      ensures s in pending' && Got(more, s) <= |Unsent(writes0, s)| ==>
                Unsent(writes', s) == Unsent(writes0, s)[Got(more, s)..]
    {
      AdvancesOne(writes0, taken0, turns, writes, pending, taken, a, writes', pending', taken', s);
    }
    LastOffers(writes0, taken0, turns, writes, pending, taken, a, writes', taken');
    forall j | 0 <= j < |more|
      ensures OffersNext(writes0, more, j)
    {
      if j < |turns| {
        OffersOn(writes0, turns, a, j);
      }
    }
  }

  lemma AdvancesOne(writes0: seq<PendingWrite>, taken0: map<int, Bytes>, turns: seq<Attempt>, writes: seq<PendingWrite>,
                    pending: seq<int>, taken: map<int, Bytes>, a: Attempt,
                    writes': seq<PendingWrite>, pending': seq<int>, taken': map<int, Bytes>, s: int)
    requires IsPass(writes0, taken0, turns, writes, pending, taken) && IsTurn(writes, taken, a, writes', taken')
    requires a.socket in pending && forall t :: t in pending' ==> t in pending && (Ends(a) ==> t != a.socket)
    ensures var rest, got := Unsent(writes0, s), Got(turns + [a], s);
            && Advanced(rest, At(taken0, s), got, At(taken', s))
            && (s in pending' && got <= |rest| ==> Unsent(writes', s) == rest[got..])
  {
    hide Unsent, IsTurn, Got, OffersNext, Ends;
    assert Advanced(Unsent(writes0, s), At(taken0, s), Got(turns, s), At(taken, s));
    GotMore(turns, a, s);
    TurnUnsent(writes, taken, a, writes', taken', s);
    TurnTakes(writes, taken, a, writes', taken', s);
    if s == a.socket {
      Onward(At(taken0, s), Unsent(writes0, s), Got(turns, s), a.bytes, Accepted(a.result));
    }
  }

  lemma TurnTakes(writes: seq<PendingWrite>, taken: map<int, Bytes>, a: Attempt,
                  writes': seq<PendingWrite>, taken': map<int, Bytes>, s: int)
    requires IsTurn(writes, taken, a, writes', taken')
    ensures Accepted(a.result) <= |a.bytes|
    ensures At(taken', s) == At(taken, s) + if s == a.socket then a.bytes[..Accepted(a.result)] else []
  {
    assert At(taken, s) + [] == At(taken, s);
  }

  lemma LastOffers(writes0: seq<PendingWrite>, taken0: map<int, Bytes>, turns: seq<Attempt>, writes: seq<PendingWrite>,
                   pending: seq<int>, taken: map<int, Bytes>, a: Attempt,
                   writes': seq<PendingWrite>, taken': map<int, Bytes>)
    requires IsPass(writes0, taken0, turns, writes, pending, taken) && IsTurn(writes, taken, a, writes', taken')
    requires a.socket in pending
    ensures OffersNext(writes0, turns + [a], |turns|)
  {
    hide IsTurn, Got, Unsent;
    assert Advanced(Unsent(writes0, a.socket), At(taken0, a.socket), Got(turns, a.socket), At(taken, a.socket));
    TurnUnsent(writes, taken, a, writes', taken', a.socket);
    assert (turns + [a])[..|turns|] == turns;
  }

  lemma Onward(before: Bytes, rest: Bytes, g: nat, bytes: Bytes, n: nat)
    requires g <= |rest| && bytes <= rest[g..] && n <= |bytes|
    ensures g + n <= |rest| && rest[g..][n..] == rest[g + n..]
    ensures before + rest[..g] + bytes[..n] == before + rest[..g + n]
  {
    assert bytes[..n] == rest[g..g + n] && rest[..g] + rest[g..g + n] == rest[..g + n];
  }

  class SocketWriter {
    var writes: seq<PendingWrite>
    var writePending: seq<int>
    /** The socket that was last found in the list of pending sockets: the `current` of that list. */
    var current: Option<int>
    /** The bytes each connection has taken, the packets whose writing began, the sockets whose write failed, and those
        for which a write of an earlier connection is still in the list. */
    ghost var taken: map<int, Bytes>
    ghost var packets: map<int, Bytes>
    ghost var failed: set<int>
    ghost var stale: set<int>
    ghost var attempts: seq<Attempt>

    ghost predicate Valid()
      reads this
    {
      && Writes(writes, writePending, stale) && Balanced(writes, taken, packets, failed + stale)
      && (current.Some? ==> current.value in writePending)
    }

    constructor ()
      ensures Valid() && packets == map[] && failed == {} && stale == {}
    {
      writes, writePending, current := [], [], None;
      taken, packets, failed, stale, attempts := map[], map[], {}, {}, [];
    }

    /** Socket_writev: the socket takes some of the bytes, or none. */
    method Writev(socket: int, iovecs: seq<IoVec>, ghost left: nat) returns (rc: Written)
      requires VecsOk(iovecs)
      modifies this`taken, this`attempts
      ensures Accepted(rc) <= |Flat(iovecs)|
      ensures taken == old(taken)[socket := old(At(taken, socket)) + Flat(iovecs)[..Accepted(rc)]]
      ensures attempts == old(attempts) + [Attempt(socket, Flat(iovecs), left, rc)]
    {
      var n: nat, blocked: bool := *, *;
      if n <= |Flat(iovecs)| {
        rc := Wrote(n);
      } else {
        rc := if blocked then WouldBlock else Failed;
      }
      taken := taken[socket := At(taken, socket) + Flat(iovecs)[..Accepted(rc)]];
      attempts := attempts + [Attempt(socket, Flat(iovecs), left, rc)];
    }

    /** Socket_noPendingWrites; what the search finds becomes the current element of the list. */
    method NoPendingWrites(socket: int) returns (b: bool)
      modifies this`current
      ensures b <==> socket !in writePending
      ensures current == if b then old(current) else Some(socket)
    {
      b := socket !in writePending;
      if !b {
        current := Some(socket);
      }
    }

    /** The array that Socket_putdatas makes of its buffers, and their total length. */
    static method Gather(buf0: IoVec, buffers: seq<IoVec>) returns (iovecs: seq<IoVec>, total: nat)
      requires VecOk(buf0) && VecsOk(buffers)
      ensures iovecs == [buf0] + buffers && VecsOk(iovecs) && total == |Flat(iovecs)|
    {
      iovecs, total := [buf0], buf0.len;
      FlatOne(buf0);
      var i := 0;
      while i < |buffers|
        invariant 0 <= i <= |buffers| && iovecs == [buf0] + buffers[..i]
        invariant VecsOk(iovecs) && total == |Flat(iovecs)|
      {
        FlatAppend(iovecs, [buffers[i]]);
        FlatOne(buffers[i]);
        assert buffers[..i + 1] == buffers[..i] + [buffers[i]];
        iovecs := iovecs + [buffers[i]];
        total := total + buffers[i].len;
        i := i + 1;
      }
      assert buffers[..i] == buffers;
    }

    /** Socket_putdatas: `buf0` and the buffers after it, in one go. */
    method PutDatas(socket: int, buf0: IoVec, buffers: seq<IoVec>) returns (rc: Completion)
      requires Valid() && VecOk(buf0) && VecsOk(buffers) && |buffers| <= MAX_BUFFERS
      modifies this
      ensures Valid() && failed == old(failed) && stale == old(stale)
      ensures IsPut(socket in old(writePending), old(attempts), attempts, socket, Flat([buf0] + buffers), rc)
      ensures rc == ERROR ==> packets == old(packets) && forall s :: At(taken, s) == old(At(taken, s))
      ensures rc != ERROR ==> packets == old(packets)[socket := old(At(packets, socket)) + Flat([buf0] + buffers)]
      ensures current == if socket in old(writePending) then Some(socket) else old(current)
      ensures rc != INTERRUPTED ==> writePending == old(writePending) && writes == old(writes)
      ensures rc == INTERRUPTED ==> writePending == old(writePending) + [socket]
      ensures rc in {COMPLETE, INTERRUPTED} ==> var n := Accepted(attempts[|old(attempts)|].result);
                && n <= |Flat([buf0] + buffers)|
                && taken == old(taken)[socket := old(At(taken, socket)) + Flat([buf0] + buffers)[..n]]
                && (rc == INTERRUPTED ==>
                      writes == old(writes) + [PendingWrite(socket, |Flat([buf0] + buffers)|, n, [buf0] + buffers)])
    {
      hide Writes, Balanced, Flat, VecsOk;
      rc := INTERRUPTED;
      var none := NoPendingWrites(socket);
      if !none {
        return ERROR;
      }
      var iovecs, total := Gather(buf0, buffers);
      ghost var taken0, packets0 := taken, packets;
      var r := Writev(socket, iovecs, total);
      if r == Failed {
        rc := ERROR;
        PutNothing(writes, taken0, packets0, failed + stale, socket, taken);
      } else {
        var bytes := Accepted(r);
        packets := packets[socket := At(packets, socket) + Flat(iovecs)];
        if bytes == total {
          rc := COMPLETE;
          PutAll(writes, writePending, stale, taken0, packets0, failed + stale, socket, iovecs, taken, packets);
        } else {
          var pw := PendingWrite(socket, total, bytes, iovecs);
          PutSome(writes, writePending, stale, taken0, packets0, failed + stale, pw, taken, packets);
          writes, writePending := writes + [pw], writePending + [socket];
          rc := INTERRUPTED;
        }
      }
    }

    /** The buffers that Socket_continueWrite puts together. */
    method Remaining(pw: PendingWrite) returns (iovecs1: seq<IoVec>)
      requires WriteOk(pw)
      ensures iovecs1 == Offer(pw.iovecs, pw.bytes)
    {
      hide Offer, Flat, Content;
      OfferAll(pw.iovecs);
      var curbuflen := 0;
      iovecs1 := [];
      var i := 0;
      while i < |pw.iovecs|
        invariant 0 <= i <= |pw.iovecs|
        invariant if pw.bytes <= curbuflen then Offer(pw.iovecs, pw.bytes) == iovecs1 + pw.iovecs[i..]
                  else Offer(pw.iovecs, pw.bytes) == iovecs1 + Offer(pw.iovecs[i..], pw.bytes - curbuflen)
      {
        var v := pw.iovecs[i];
        assert VecOk(v);
        assert iovecs1 + [v] + pw.iovecs[i + 1..] == iovecs1 + pw.iovecs[i..];
        if pw.bytes > curbuflen {
          OfferNext(pw.iovecs, i, pw.bytes - curbuflen);
        }
        if pw.bytes <= curbuflen {
          iovecs1 := iovecs1 + [v];
        } else if pw.bytes < curbuflen + v.len {
          var offset := pw.bytes - curbuflen;
          iovecs1 := iovecs1 + [IoVec(v.base[offset..], v.len - offset)];
          break;
        }
        curbuflen := curbuflen + v.len;
        i := i + 1;
      }
    }

    /** Socket_continueWrite, for a socket with a pending write. It is `done` when all is sent, and also when the
        socket reports an error, which makes the write `lost`. */
    method ContinueWrite(socket: int) returns (done: bool, ghost lost: bool)
      requires var k := Find(writes, socket); k < |writes| && WriteOk(writes[k])
      modifies this`writes, this`taken, this`attempts
      ensures var w := old(writes[Find(writes, socket)]);
              && Tried(old(attempts), attempts, socket, Flat(Offer(w.iovecs, w.bytes)), w.total - w.bytes)
              && var r := attempts[|old(attempts)|].result;
                 var b := w.bytes + Accepted(r);
                 && b <= |Flat(w.iovecs)| && Accepted(r) <= |Flat(Offer(w.iovecs, w.bytes))|
                 && writes == old(writes)[old(Find(writes, socket)) := w.(bytes := b)]
                 && taken == old(taken)[socket := old(At(taken, socket)) + Flat(w.iovecs)[w.bytes..b]]
                 && (lost <==> r == Failed) && (done <==> lost || b == w.total)
    {
      hide Flat, Offer, VecsOk;
      var i := Find(writes, socket);
      var pw := writes[i];
      var iovecs1 := Remaining(pw);
      OfferIsUnsent(pw.iovecs, pw.bytes);
      var r := Writev(socket, iovecs1, pw.total - pw.bytes);
      lost := r == Failed;
      if r != Failed {
        var bytes := Accepted(r);
        OfferedBytes(pw, iovecs1, bytes);
        pw := pw.(bytes := pw.bytes + bytes);
        writes := writes[i := pw];
        done := pw.bytes == pw.total;
      } else {
        OfferedBytes(pw, iovecs1, 0);
        done := true;
      }
    }

    /** The removal from the list of pending sockets. Its current element stays, or moves on if it goes. */
    method RemovePending(k: nat)
      requires k < |writePending|
      modifies this`writePending, this`current
      ensures writePending == Without(old(writePending), k) == old(writePending)[..k] + old(writePending)[k + 1..]
      ensures current == CurrentWithout(old(writePending), old(current), k)
      ensures current == if old(current) != Some(old(writePending)[k]) then old(current)
                         else if k + 1 < |old(writePending)| then Some(old(writePending)[k + 1]) else None
    {
      var next := if k + 1 < |writePending| then Some(writePending[k + 1]) else None;
      current := if current == Some(writePending[k]) then next else current;
      writePending := writePending[..k] + writePending[k + 1..];
    }

    /** Socket_continueWrites, for the sockets that can take more. After a removal it goes on from the current element
        of the list, which need not be the next one. The results of the turns decide which sockets get one, in which
        order, what is left of the list, and which connections fail. */
    method ContinueWrites(pwset: set<int>) returns (ghost turns: seq<Attempt>)
      requires Valid()
      modifies this
      ensures Valid() && packets == old(packets) && stale == old(stale) && attempts == old(attempts) + turns
      ensures failed == old(failed) + FailedIn(turns)
      ensures var tour := Toured(old(writePending), old(current), pwset, 0, Outcomes(turns));
              && Sockets(turns) == tour.offered && writePending == tour.pending && current == tour.current
              && (forall s :: s in tour.offered ==> s in pwset && s in old(writePending))
      ensures IsPass(old(writes), old(taken), turns, writes, writePending, taken)
    {
      hide Writes, Balanced, Toured, GoesOn, CurrentWithout, Cursor, Distinct, IsTurn, IsPass, FailedIn, Ends;
      turns := [];
      var i: nat := 0;
      TourBegins(writePending, current, pwset);
      PassBegins(writes, taken, writePending);
      NoTurns();
      while i < |writePending|
        invariant Valid() && packets == old(packets) && stale == old(stale) && attempts == old(attempts) + turns
        invariant failed == old(failed) + FailedIn(turns)
        invariant GoesOn(old(writePending), old(current), pwset, Outcomes(turns), writePending, current, i,
                         Sockets(turns))
        invariant IsPass(old(writes), old(taken), turns, writes, writePending, taken)
        decreases |writePending|, |writePending| - i
      {
        ghost var pending, cur, writes1, taken1 := writePending, current, writes, taken;
        if writePending[i] in pwset {
          TourTurns(old(writePending), old(current), pwset, Outcomes(turns), pending, cur, i, Sockets(turns), true);
          TourTurns(old(writePending), old(current), pwset, Outcomes(turns), pending, cur, i, Sockets(turns), false);
          ghost var a;
          i, a := ContinueAt(i);
          PassGoesOn(old(writes), old(taken), turns, writes1, pending, taken1, a, writes, writePending, taken);
          TurnAdded(turns, a);
          turns := turns + [a];
        } else {
          TourSkips(old(writePending), old(current), pwset, Outcomes(turns), pending, cur, i, Sockets(turns));
          i := i + 1;
        }
      }
      TourInside(old(writePending), old(current), pwset, 0, Outcomes(turns));
      TourEnds(old(writePending), old(current), pwset, Outcomes(turns), writePending, current, i, Sockets(turns));
    }

    /** One turn of its loop, for a socket that can take more: where the loop goes on. The turn removes the socket when
        all of its write is sent, or when the socket has failed. */
    method ContinueAt(i: nat) returns (next: nat, ghost a: Attempt)
      requires Valid() && i < |writePending|
      modifies this
      ensures Valid() && packets == old(packets) && stale == old(stale)
      ensures attempts == old(attempts) + [a] && a.socket == old(writePending)[i]
      ensures IsTurn(old(writes), old(taken), a, writes, taken)
      ensures failed == old(failed) + if a.result == Failed then {a.socket} else {}
      ensures if Ends(a) then && writePending == Without(old(writePending), i)
                              && current == CurrentWithout(old(writePending), old(current), i)
                              && next == Cursor(writePending, current)
              else writePending == old(writePending) && current == old(current) && next == i + 1
      ensures forall t :: t in writePending ==> t in old(writePending) && (Ends(a) ==> t != a.socket)
    {
      hide Writes, Balanced, Flat, Offer, Cursor;
      var socket := writePending[i];
      PendingHasWrite(writes, writePending, stale, i);
      ghost var writes0, pending0, taken0, saved, n := writes, writePending, taken, current, |attempts|;
      var k := Find(writes, socket);
      var complete;
      ghost var lost;
      complete, lost := ContinueWrite(socket);
      a := attempts[n];
      Continued(writes0, writePending, stale, taken0, packets, failed + stale, i, writes[k].bytes, lost, taken);
      OfferedBytes(writes0[k], Offer(writes0[k].iovecs, writes0[k].bytes), Accepted(a.result));
      if complete {
        writes := writes[..k] + writes[k + 1..];
        PendingDistinct(writes0, pending0, stale);
        Others(pending0, i);
        assert failed + stale + {socket} == failed + {socket} + stale;
        RemovePending(i);
        StillPending(pending0, i, saved);
        if lost {
          failed := failed + {socket};
        }
        next := Cursor(writePending, current);
      } else {
        next := i + 1;
      }
    }

    /** What Socket_close does to the writes: the socket leaves the list of pending sockets, but a write of it stays. So
        the next connection with this descriptor begins afresh exactly when the list has no write of the socket. */
    method Close(socket: int)
      requires Valid()
      modifies this
      ensures Valid() && writes == old(writes) && attempts == old(attempts)
      ensures stale == if Find(writes, socket) < |writes| then old(stale) + {socket} else old(stale) - {socket}
      ensures socket !in old(stale) ==> (socket in stale <==> socket in old(writePending))
      ensures taken == old(taken)[socket := []] && packets == old(packets)[socket := []]
      ensures failed == old(failed) - {socket}
      ensures socket !in writePending && forall t :: t != socket ==> (t in writePending <==> t in old(writePending))
    {
      hide Writes, Flat;
      NotPending(writes, writePending, stale, socket);
      Closed(writes, writePending, stale, taken, packets, failed, socket);
      if socket in writePending {
        var k := Cursor(writePending, Some(socket));
        ghost var pending0, saved := writePending, current;
        StillPending(pending0, k, saved);
        RemovePending(k);
      }
      taken, packets, failed := taken[socket := []], packets[socket := []], failed - {socket};
      stale := if Find(writes, socket) < |writes| then stale + {socket} else stale - {socket};
    }

    /** SocketBuffer_updateWrite: the pending PUBLISH of a QoS 0 message goes on from a stored copy. */
    method UpdateWrite(socket: int, topic: Bytes, payload: Bytes)
      requires Valid()
      requires var i := Find(writes, socket);
               i < |writes| && |writes[i].iovecs| == MAX_BUFFERS ==> IsCopy(writes[i].iovecs, topic, payload)
      modifies this`writes
      ensures Valid()
      ensures writes == var i := Find(old(writes), socket);
                        if i < |old(writes)| && |old(writes)[i].iovecs| == MAX_BUFFERS then
                          old(writes)[i := old(writes)[i].(iovecs := Swapped(old(writes)[i].iovecs, topic, payload))]
                        else old(writes)
      ensures forall s :: Unsent(writes, s) == old(Unsent(writes, s))
    {
      var i := Find(writes, socket);
      if i < |writes| {
        var pw := writes[i];
        if |pw.iovecs| == MAX_BUFFERS {
          ghost var writes0 := writes;
          var vs := Swapped(pw.iovecs, topic, payload);
          SwapChangesNothing(pw.iovecs, topic, payload);
          writes := writes[i := pw.(iovecs := vs)];
          SwappedWrites(writes0, writePending, stale, i, vs);
          BalancedBySwap(writes0, writes, taken, packets, failed + stale);
        }
      }
    }
  }

  lemma NoTurns()
    ensures Outcomes([]) == [] && Sockets([]) == [] && FailedIn([]) == {}
  {
  }

  // ---------- a connection that is closed while a write is pending ----------

  /** A packet is sent in part and the connection is closed: the rest stays in the list. */
  method ClosedInPart(w: SocketWriter, socket: int, buf0: IoVec, buffers: seq<IoVec>) returns (rc: Completion)
    requires w.Valid() && socket !in w.writePending && socket !in w.stale
    requires VecOk(buf0) && VecsOk(buffers) && |buffers| <= MAX_BUFFERS
    modifies w
    ensures w.Valid() && socket !in w.writePending
    ensures rc == INTERRUPTED ==>
              var n, packet := |old(w.attempts)|, Flat([buf0] + buffers);
              && socket in w.stale && At(w.taken, socket) == [] && |w.attempts| == n + 1
              && var x := Accepted(w.attempts[n].result);
                 x < |packet| && Unsent(w.writes, socket) == packet[x..]
  {
    hide Writes, Balanced, Flat, VecsOk, Unsent;
    NotPending(w.writes, w.writePending, w.stale, socket);
    rc := w.PutDatas(socket, buf0, buffers);
    if rc == INTERRUPTED {
      var pw := w.writes[|w.writes| - 1];
      UnsentAppended(old(w.writes), pw, socket);
      FindAppended(old(w.writes), pw, socket);
      w.Close(socket);
    }
  }

  /** While a write of an earlier connection is in the list, a packet of the next one is not refused, and goes out from
      its first byte. But if it goes out in part, what it goes on with is the rest of the old packet. */
  method GoesOnWithOld(w: SocketWriter, socket: int, buf0: IoVec, buffers: seq<IoVec>) returns (rc: Completion)
    requires w.Valid() && socket !in w.writePending && Unsent(w.writes, socket) != []
    requires VecOk(buf0) && VecsOk(buffers) && |buffers| <= MAX_BUFFERS
    modifies w
    ensures w.Valid()
    ensures var n, packet := |old(w.attempts)|, Flat([buf0] + buffers);
            && |w.attempts| == n + (if rc == INTERRUPTED then 2 else 1) && old(w.attempts) <= w.attempts
            && w.attempts[n].socket == socket && w.attempts[n].bytes == packet
            && (rc == INTERRUPTED ==>
                  var a, b, rest := w.attempts[n], w.attempts[n + 1], old(Unsent(w.writes, socket));
                  var x, y := Accepted(a.result), Accepted(b.result);
                  && x < |packet| && y <= |rest| && b.bytes != [] && b.bytes <= rest
                  && At(w.taken, socket) == old(At(w.taken, socket)) + packet[..x] + rest[..y])
  {
    hide Writes, Balanced, Flat, VecsOk, Unsent, Offer;
    rc := w.PutDatas(socket, buf0, buffers);
    if rc == INTERRUPTED {
      var pw := w.writes[|w.writes| - 1];
      StillUnsent(old(w.writes), pw, socket);
      ghost var writes1, taken1 := w.writes, w.taken;
      var _, a := w.ContinueAt(|w.writePending| - 1);
      TurnUnsent(writes1, taken1, a, w.writes, w.taken, socket);
      TurnTakes(writes1, taken1, a, w.writes, w.taken, socket);
    }
  }

  lemma StillUnsent(writes: seq<PendingWrite>, pw: PendingWrite, s: int)
    requires Unsent(writes, s) != []
    ensures Unsent(writes + [pw], s) == Unsent(writes, s)
  {
    FindAppended(writes, pw, s);
    assert (writes + [pw])[Find(writes, s)] == writes[Find(writes, s)];
  }

  /** The two together: the next connection is sent a part of its own packet and then a part of the old one. */
  method OldPacketGoesOn(w: SocketWriter, socket: int, old0: IoVec, olds: seq<IoVec>, new0: IoVec, news: seq<IoVec>)
    returns (rc1: Completion, rc2: Completion)
    requires w.Valid() && socket !in w.writePending && socket !in w.stale
    requires VecOk(old0) && VecsOk(olds) && |olds| <= MAX_BUFFERS && VecOk(new0) && VecsOk(news)
             && |news| <= MAX_BUFFERS
    modifies w
    ensures w.Valid()
    ensures rc1 == rc2 == INTERRUPTED ==>
              var n, before, after := |old(w.attempts)|, Flat([old0] + olds), Flat([new0] + news);
              && |w.attempts| == n + 3
              && var x, y, z := Accepted(w.attempts[n].result), Accepted(w.attempts[n + 1].result),
                                Accepted(w.attempts[n + 2].result);
                 && x < |before| && y < |after| && x + z <= |before|
                 && w.attempts[n + 1].bytes == after
                 && w.attempts[n + 2].bytes != [] && w.attempts[n + 2].bytes <= before[x..]
                 && At(w.taken, socket) == after[..y] + before[x..x + z]
  {
    hide Flat, VecsOk, Unsent;
    rc1 := ClosedInPart(w, socket, old0, olds);
    rc2 := rc1;
    if rc1 == INTERRUPTED {
      ghost var sent := w.attempts;
      rc2 := GoesOnWithOld(w, socket, new0, news);
      assert w.attempts[|old(w.attempts)|] == sent[|old(w.attempts)|];
    }
  }

  // ---------- removing and swapping ----------

  lemma PendingHasWrite(writes: seq<PendingWrite>, writePending: seq<int>, stale: set<int>, i: nat)
    requires Writes(writes, writePending, stale) && i < |writePending|
    ensures var k := Find(writes, writePending[i]); k < |writes| && WriteOk(writes[k])
  {
    assert writePending[i] in writePending;
  }

  lemma PendingDistinct(writes: seq<PendingWrite>, writePending: seq<int>, stale: set<int>)
    requires Writes(writes, writePending, stale)
    ensures Distinct(writePending)
  {
  }

  lemma Others(pending: seq<int>, k: nat)
    requires Distinct(pending) && k < |pending|
    ensures Distinct(Without(pending, k))
    ensures forall t :: t in Without(pending, k) <==> t in pending && t != pending[k]
  {
    var fewer := Without(pending, k);
    assert forall i :: 0 <= i < |fewer| ==> fewer[i] == pending[if i < k then i else i + 1];
    forall t
      ensures t in fewer <==> t in pending && t != pending[k]
    {
      if t in pending && t != pending[k] {
        var i :| 0 <= i < |pending| && pending[i] == t;
        assert fewer[if i < k then i else i - 1] == t;
      }
    }
  }

  lemma StillPending(pending: seq<int>, k: nat, saved: Option<int>)
    requires k < |pending| && (saved.Some? ==> saved.value in pending)
    ensures saved.Some? && saved.value != pending[k] ==> saved.value in pending[..k] + pending[k + 1..]
    ensures k + 1 < |pending| ==> pending[k + 1] in pending[..k] + pending[k + 1..]
  {
    var fewer := pending[..k] + pending[k + 1..];
    assert pending == pending[..k] + [pending[k]] + pending[k + 1..];
    assert k + 1 < |pending| ==> fewer[k] == pending[k + 1];
  }

  lemma OfferedBytes(pw: PendingWrite, iovecs1: seq<IoVec>, n: nat)
    requires WriteOk(pw) && iovecs1 == Offer(pw.iovecs, pw.bytes) && n <= |Flat(iovecs1)|
    ensures pw.bytes + n <= |Flat(pw.iovecs)| && Flat(iovecs1)[..n] == Flat(pw.iovecs)[pw.bytes..pw.bytes + n]
  {
    OfferIsUnsent(pw.iovecs, pw.bytes);
  }

  lemma UnsentUpdated(writes: seq<PendingWrite>, k: nat, w: PendingWrite, s: int)
    requires k < |writes| && Find(writes, w.socket) == k && w.bytes <= |Flat(w.iovecs)|
    ensures Unsent(writes[k := w], s) == if s == w.socket then Flat(w.iovecs)[w.bytes..] else Unsent(writes, s)
  {
    var more := writes[k := w];
    assert forall j :: 0 <= j < |writes| ==> more[j].socket == writes[j].socket;
    assert Find(more, s) == Find(writes, s);
  }

  lemma FindFewer(writes: seq<PendingWrite>, k: nat, s: int)
    requires k < |writes| && Find(writes, writes[k].socket) == k && s != writes[k].socket
    ensures var fewer, i := Fewer(writes, k), Find(writes, s);
            Find(fewer, s) == if i < k then i else i - 1
  {
    var fewer, i := Fewer(writes, k), Find(writes, s);
    assert forall j :: 0 <= j < k ==> fewer[j] == writes[j];
    assert forall j :: k <= j < |fewer| ==> fewer[j] == writes[j + 1];
    assert i != k;
    FindIs(fewer, s, if i < k then i else i - 1);
  }

  lemma FindIs(writes: seq<PendingWrite>, s: int, i: nat)
    requires i <= |writes| && (i < |writes| ==> writes[i].socket == s)
    requires forall j :: 0 <= j < i ==> writes[j].socket != s
    ensures Find(writes, s) == i
  {
  }

  lemma UnsentRemoved(writes: seq<PendingWrite>, k: nat, s: int)
    requires k < |writes| && Find(writes, writes[k].socket) == k && s != writes[k].socket
    ensures Unsent(Fewer(writes, k), s) == Unsent(writes, s)
  {
    FindFewer(writes, k, s);
  }

  lemma WritesUpdated(writes: seq<PendingWrite>, writePending: seq<int>, stale: set<int>, k: nat, w: PendingWrite)
    requires Writes(writes, writePending, stale) && k < |writes| && WriteOk(w) && w.socket == writes[k].socket
    ensures Writes(writes[k := w], writePending, stale)
  {
    forall s
      ensures Find(writes[k := w], s) == Find(writes, s)
    {
      FindIs(writes[k := w], s, Find(writes, s));
    }
  }

  lemma WritesRemoved(writes: seq<PendingWrite>, writePending: seq<int>, stale: set<int>, k: nat, i: nat)
    requires Writes(writes, writePending, stale) && k < |writes| && i < |writePending|
    requires writes[k].socket == writePending[i] && Find(writes, writePending[i]) == k
    ensures Writes(Fewer(writes, k), Without(writePending, i), stale)
    ensures writePending[i] !in stale ==> Find(Fewer(writes, k), writePending[i]) == |writes| - 1
  {
    hide Without;
    var fewer, fewerPending, s0 := Fewer(writes, k), Without(writePending, i), writePending[i];
    Others(writePending, i);
    RemovedWrites(writes, stale, k);
    forall s
      ensures s in fewerPending ==> Find(fewer, s) < |fewer|
      ensures s !in stale && s !in fewerPending ==> Find(fewer, s) == |fewer|
    {
      if s != s0 {
        FindFewer(writes, k, s);
      }
    }
  }

  lemma RemovedWrites(writes: seq<PendingWrite>, stale: set<int>, k: nat)
    requires k < |writes| && Find(writes, writes[k].socket) == k
    requires forall i :: 0 <= i < |writes| ==> WriteOk(writes[i])
    requires forall i, j :: 0 <= i < j < |writes| && writes[i].socket == writes[j].socket ==> writes[i].socket in stale
    ensures var fewer := Fewer(writes, k);
            && (forall i :: 0 <= i < |fewer| ==> WriteOk(fewer[i]))
            && (forall i, j :: 0 <= i < j < |fewer| && fewer[i].socket == fewer[j].socket ==> fewer[i].socket in stale)
            && (writes[k].socket !in stale ==> Find(fewer, writes[k].socket) == |fewer|)
  {
    hide WriteOk;
    var fewer, s0 := Fewer(writes, k), writes[k].socket;
    forall i | 0 <= i < |fewer|
      ensures fewer[i] == writes[if i < k then i else i + 1] && (s0 !in stale ==> fewer[i].socket != s0)
    {
    }
    if s0 !in stale {
      FindIs(fewer, s0, |fewer|);
    }
  }

  /** A continuation keeps the balance: the write goes on, or it leaves the lists. */
  lemma Continued(writes: seq<PendingWrite>, writePending: seq<int>, stale: set<int>, taken: map<int, Bytes>,
                  packets: map<int, Bytes>, lost: set<int>, i: nat, b: nat, fails: bool, taken': map<int, Bytes>)
    requires Writes(writes, writePending, stale) && Balanced(writes, taken, packets, lost) && stale <= lost
    requires i < |writePending|
    requires var w := writes[Find(writes, writePending[i])];
             w.bytes <= b <= |Flat(w.iovecs)|
             && taken' == taken[w.socket := At(taken, w.socket) + Flat(w.iovecs)[w.bytes..b]]
    ensures var k := Find(writes, writePending[i]);
            && k < |writes| && writes[k].socket == writePending[i]
            && var w := writes[k];
               var writes', fewer := writes[k := w.(bytes := b)], Fewer(writes, k);
               && Fewer(writes', k) == fewer && b <= w.total
               && (b < w.total ==> Writes(writes', writePending, stale) && Balanced(writes', taken', packets, lost))
               && Writes(fewer, Without(writePending, i), stale)
               && (b == w.total ==> Balanced(fewer, taken', packets, lost))
               && (fails ==> Balanced(fewer, taken', packets, lost + {w.socket}))
  {
    hide Writes;
    PendingHasWrite(writes, writePending, stale, i);
    var k := Find(writes, writePending[i]);
    var w := writes[k];
    if b < w.total {
      WritesUpdated(writes, writePending, stale, k, w.(bytes := b));
    }
    WritesRemoved(writes, writePending, stale, k, i);
    assert Fewer(writes[k := w.(bytes := b)], k) == Fewer(writes, k);
    forall s | s !in lost
      ensures At(taken', s) + Unsent(writes[k := w.(bytes := b)], s) == At(packets, s)
      ensures b == w.total || s != w.socket ==> At(taken', s) + Unsent(Fewer(writes, k), s) == At(packets, s)
    {
      assert At(taken, s) + Unsent(writes, s) == At(packets, s);
      ContinuedSocket(writes, taken, packets, k, b, taken', s);
    }
  }

  lemma ContinuedSocket(writes: seq<PendingWrite>, taken: map<int, Bytes>, packets: map<int, Bytes>, k: nat, b: nat,
                        taken': map<int, Bytes>, s: int)
    requires k < |writes| && WriteOk(writes[k]) && Find(writes, writes[k].socket) == k
    requires s == writes[k].socket ==> Find(Fewer(writes, k), s) == |writes| - 1
    requires At(taken, s) + Unsent(writes, s) == At(packets, s)
    requires var w := writes[k];
             w.bytes <= b <= |Flat(w.iovecs)|
             && taken' == taken[w.socket := At(taken, w.socket) + Flat(w.iovecs)[w.bytes..b]]
    ensures At(taken', s) + Unsent(writes[k := writes[k].(bytes := b)], s) == At(packets, s)
    ensures b == writes[k].total || s != writes[k].socket ==>
              At(taken', s) + Unsent(Fewer(writes, k), s) == At(packets, s)
  {
    var w := writes[k];
    UnsentUpdated(writes, k, w.(bytes := b), s);
    if s != w.socket {
      UnsentRemoved(writes, k, s);
    }
    Pieces(At(taken, s), Flat(w.iovecs), w.bytes, b);
  }

  /** Closing keeps the order of all connections, and that of the next one when no write is left of this. */
  lemma Closed(writes: seq<PendingWrite>, writePending: seq<int>, stale: set<int>, taken: map<int, Bytes>,
               packets: map<int, Bytes>, failed: set<int>, socket: int)
    requires Writes(writes, writePending, stale) && Balanced(writes, taken, packets, failed + stale)
    ensures var stale' := if Find(writes, socket) < |writes| then stale + {socket} else stale - {socket};
            var k := Cursor(writePending, Some(socket));
            && (socket in writePending ==>
                  && k < |writePending| && Writes(writes, Without(writePending, k), stale')
                  && forall t :: t in Without(writePending, k) <==> t in writePending && t != socket)
            && (socket !in writePending ==> Writes(writes, writePending, stale'))
            && Balanced(writes, taken[socket := []], packets[socket := []], failed - {socket} + stale')
  {
    hide Writes, Find, Without, Balanced;
    var stale' := if Find(writes, socket) < |writes| then stale + {socket} else stale - {socket};
    ClosedBalance(writes, stale, taken, packets, failed, socket, stale');
    PendingDistinct(writes, writePending, stale);
    if socket in writePending {
      var k := Cursor(writePending, Some(socket));
      Others(writePending, k);
      ClosedWrites(writes, writePending, stale, socket, Without(writePending, k), stale');
    } else {
      ClosedWrites(writes, writePending, stale, socket, writePending, stale');
    }
  }

  lemma ClosedWrites(writes: seq<PendingWrite>, writePending: seq<int>, stale: set<int>, socket: int,
                     fewer: seq<int>, stale': set<int>)
    requires Writes(writes, writePending, stale) && Distinct(fewer)
    requires stale' == if Find(writes, socket) < |writes| then stale + {socket} else stale - {socket}
    requires forall t :: t in fewer <==> t in writePending && t != socket
    ensures Writes(writes, fewer, stale')
  {
    hide WriteOk;
    forall i, j | 0 <= i < j < |writes| && writes[i].socket == writes[j].socket
      ensures writes[i].socket in stale'
    {
      assert writes[i].socket == socket ==> Find(writes, socket) <= i;
    }
  }

  lemma ClosedBalance(writes: seq<PendingWrite>, stale: set<int>, taken: map<int, Bytes>, packets: map<int, Bytes>,
                      failed: set<int>, socket: int, stale': set<int>)
    requires Balanced(writes, taken, packets, failed + stale)
    requires stale' == if Find(writes, socket) < |writes| then stale + {socket} else stale - {socket}
    ensures Balanced(writes, taken[socket := []], packets[socket := []], failed - {socket} + stale')
  {
    hide Find, Unsent;
    forall s | s !in failed - {socket} + stale'
      ensures At(taken[socket := []], s) + Unsent(writes, s) == At(packets[socket := []], s)
    {
      if s == socket {
        NothingUnsent(writes, s);
      } else {
        assert At(taken, s) + Unsent(writes, s) == At(packets, s);
      }
    }
  }

  lemma Pieces(a: Bytes, f: Bytes, from: nat, to: nat)
    requires from <= to <= |f|
    ensures a + f[from..to] + f[to..] == a + f[from..]
    ensures a + f[from..to] + [] == a + f[from..to] && f[from..|f|] == f[from..]
  {
    assert f[from..to] + f[to..] == f[from..];
  }

  // ---------- the stored copy of a QoS 0 message ----------

  /** The copies have the bytes of the topic and of the payload that are being written. */
  ghost predicate IsCopy(vs: seq<IoVec>, topic: Bytes, payload: Bytes)
    requires |vs| == MAX_BUFFERS
  {
    && vs[2].len <= |topic| && topic[..vs[2].len] == Content(vs[2])
    && vs[3].len <= |payload| && payload[..vs[3].len] == Content(vs[3])
  }

  function Swapped(vs: seq<IoVec>, topic: Bytes, payload: Bytes): seq<IoVec>
    requires |vs| == MAX_BUFFERS
  {
    vs[2 := vs[2].(base := topic)][3 := vs[3].(base := payload)]
  }

  lemma FlatFour(vs: seq<IoVec>)
    requires |vs| == MAX_BUFFERS
    ensures Flat(vs) == Content(vs[0]) + (Content(vs[1]) + (Content(vs[2]) + Content(vs[3])))
  {
    FlatOne(vs[3]);
    assert vs[1..][1..][1..] == [vs[3]];
    assert Flat(vs[1..][1..]) == Content(vs[2]) + Content(vs[3]);
    assert Flat(vs[1..]) == Content(vs[1]) + Flat(vs[1..][1..]);
  }

  /** Swapping in stored copies that are large enough changes no byte exactly when they are copies. */
  lemma SwapChangesNothing(vs: seq<IoVec>, topic: Bytes, payload: Bytes)
    requires |vs| == MAX_BUFFERS && VecsOk(vs) && vs[2].len <= |topic| && vs[3].len <= |payload|
    ensures VecsOk(Swapped(vs, topic, payload))
    ensures Flat(Swapped(vs, topic, payload)) == Flat(vs) <==> IsCopy(vs, topic, payload)
  {
    var ws := Swapped(vs, topic, payload);
    FlatFour(vs);
    FlatFour(ws);
    assert VecOk(vs[2]) && VecOk(vs[3]);
    SameParts(Content(vs[0]), Content(vs[1]) + (Content(vs[2]) + Content(vs[3])),
              Content(vs[1]) + (Content(ws[2]) + Content(ws[3])));
    SameParts(Content(vs[1]), Content(vs[2]) + Content(vs[3]), Content(ws[2]) + Content(ws[3]));
    SameTwo(Content(vs[2]), Content(vs[3]), Content(ws[2]), Content(ws[3]));
  }

  lemma SameParts(a: Bytes, b: Bytes, c: Bytes)
    ensures a + b == a + c <==> b == c
  {
    assert (a + b)[|a|..] == b && (a + c)[|a|..] == c;
  }

  lemma SameTwo(a: Bytes, b: Bytes, c: Bytes, d: Bytes)
    requires |a| == |c|
    ensures a + b == c + d <==> a == c && b == d
  {
    assert (a + b)[..|a|] == a && (a + b)[|a|..] == b;
    assert (c + d)[..|c|] == c && (c + d)[|c|..] == d;
  }

  lemma SwappedWrites(writes: seq<PendingWrite>, writePending: seq<int>, stale: set<int>, k: nat, vs: seq<IoVec>)
    requires Writes(writes, writePending, stale) && k < |writes| && Find(writes, writes[k].socket) == k
    requires VecsOk(vs) && Flat(vs) == Flat(writes[k].iovecs)
    ensures Writes(writes[k := writes[k].(iovecs := vs)], writePending, stale)
    ensures forall s :: Unsent(writes[k := writes[k].(iovecs := vs)], s) == Unsent(writes, s)
  {
    WritesUpdated(writes, writePending, stale, k, writes[k].(iovecs := vs));
    forall s
      ensures Unsent(writes[k := writes[k].(iovecs := vs)], s) == Unsent(writes, s)
    {
      UnsentUpdated(writes, k, writes[k].(iovecs := vs), s);
    }
  }

  lemma BalancedBySwap(writes: seq<PendingWrite>, writes': seq<PendingWrite>, taken: map<int, Bytes>,
                       packets: map<int, Bytes>, failed: set<int>)
    requires Balanced(writes, taken, packets, failed) && forall s :: Unsent(writes', s) == Unsent(writes, s)
    ensures Balanced(writes', taken, packets, failed)
  {
  }

  /** What a socket has taken is always a beginning of the packets of its connection, and all of them exactly
      when no write is pending. */
  lemma TakenIsPrefix(w: SocketWriter, socket: int)
    requires w.Valid() && socket !in w.failed && socket !in w.stale
    ensures At(w.taken, socket) <= At(w.packets, socket)
    ensures socket !in w.writePending <==> At(w.taken, socket) == At(w.packets, socket)
  {
    NotPending(w.writes, w.writePending, w.stale, socket);
    assert At(w.taken, socket) + Unsent(w.writes, socket) == At(w.packets, socket);
    var i := Find(w.writes, socket);
    assert i < |w.writes| ==> WriteOk(w.writes[i]);
  }
}
