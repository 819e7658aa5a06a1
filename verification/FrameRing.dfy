/**
 The ring of frames between the capturing thread, which waits while it is full, and the displaying thread,
 which waits while it is empty and skips to the newest frame when it is late.
 */
module FrameRing {

  const SIZE := 8

  /** The content of a frame. */
  type Frame = int

  /** The position `n` places after `p`. */
  function Pos(p: int, n: int): int {
    (p + n) % SIZE
  }

  lemma PosFacts(p: int, n: nat)
    requires 0 <= p < SIZE
    ensures 0 <= Pos(p, n) < SIZE && Pos(p, 0) == p && 0 <= Pos(p, 1) < SIZE && 0 <= Pos(p, n + 1) < SIZE
    ensures Pos(Pos(p, 1), n) == Pos(p, n + 1) == Pos(Pos(p, n), 1)
  {
  }

  lemma PosApart(p: int, i: nat, n: nat)
    requires 0 <= p < SIZE && i <= n <= SIZE
    ensures Pos(p, i) == Pos(p, n) <==> i == n || (i == 0 && n == SIZE)
  {
  }

  datatype Ring = Ring(buffer: seq<Frame>, writePos: int, readPos: int, count: int, full: bool)

  /** The positions and the count fit, whatever `full` says. */
  ghost predicate Positions(r: Ring) {
    && |r.buffer| == SIZE && 0 <= r.readPos < SIZE && 0 <= r.writePos < SIZE && 0 <= r.count <= SIZE
    && r.writePos == Pos(r.readPos, r.count)
  }

  ghost predicate RingOk(r: Ring) {
    Positions(r) && (r.full <==> r.count == SIZE)
  }

  function QueuePos(r: Ring, i: nat): (j: nat)
    requires Positions(r)
    ensures j < SIZE && j == Pos(r.readPos, i)
  {
    PosFacts(r.readPos, i);
    Pos(r.readPos, i)
  }

  /** The frames in the ring, oldest first. */
  ghost function Queued(r: Ring): seq<Frame>
    requires Positions(r)
  {
    seq(r.count, i requires 0 <= i < r.count => r.buffer[QueuePos(r, i)])
  }

  /** The count is the distance from the read to the write position, or 8 exactly when the ring is full. */
  lemma CountIsDistance(r: Ring)
    requires RingOk(r)
    ensures r.count == if r.full then 8 else (r.writePos - r.readPos + 8) % 8
    ensures r.writePos == r.readPos <==> r.count == 0 || r.full
  {
  }

  // ---------- one frame in ----------

  /** DVP_Send once the ring is not full. */
  function Sent(r: Ring, f: Frame): Ring {
    var w := Pos(r.writePos, 1);
    Ring(if 0 <= r.writePos < |r.buffer| then r.buffer[r.writePos := f] else r.buffer, w, r.readPos, r.count + 1,
         w == r.readPos || r.full)
  }

  lemma SentIsQueued(r: Ring, f: Frame)
    requires RingOk(r) && !r.full
    ensures RingOk(Sent(r, f)) && Queued(Sent(r, f)) == Queued(r) + [f]
  {
    hide Pos;
    var s := Sent(r, f);
    PosFacts(r.readPos, r.count);
    PosApart(r.readPos, 0, r.count + 1);
    forall i | 0 <= i < s.count
      ensures Queued(s)[i] == (Queued(r) + [f])[i]
    {
      PosApart(r.readPos, i, r.count);
    }
  }

  // ---------- one frame out ----------

  /** The loop that skips all frames but the newest. */
  function Skipped(r: Ring): Ring
    decreases r.count
  {
    if r.count > 1 then Skipped(r.(readPos := Pos(r.readPos, 1), count := r.count - 1)) else r
  }

  /** The frame at the read position. */
  function NextFrame(r: Ring): Frame {
    if 0 <= r.readPos < |r.buffer| then r.buffer[r.readPos] else 0
  }

  function Taken(r: Ring): Ring {
    r.(readPos := Pos(r.readPos, 1), count := r.count - 1, full := false)
  }

  /** SHM_VO_Copy once there is a frame: the ring after it. */
  function Copied(r: Ring, late: bool): Ring {
    Taken(if late then Skipped(r) else r)
  }

  lemma {:induction false} SkippedToNewest(r: Ring)
    requires Positions(r) && r.count > 0
    ensures var s := Skipped(r);
            && Positions(s) && s.count == 1 && s.buffer == r.buffer && s.writePos == r.writePos
            && s.readPos == Pos(r.readPos, r.count - 1)
    decreases r.count
  {
    hide Pos;
    PosFacts(r.readPos, 0);
    PosFacts(r.readPos, r.count - 1);
    if r.count > 1 {
      PosFacts(r.readPos, r.count - 2);
      SkippedToNewest(r.(readPos := Pos(r.readPos, 1), count := r.count - 1));
    }
  }

  lemma TakenIsQueued(r: Ring)
    requires Positions(r) && r.count > 0
    ensures RingOk(Taken(r)) && Queued(Taken(r)) == Queued(r)[1..]
    ensures r.buffer[r.readPos] == Queued(r)[0]
  {
    hide Pos;
    var s := Taken(r);
    PosFacts(r.readPos, 0);
    PosFacts(r.readPos, r.count - 1);
    forall i | 0 <= i < s.count
      ensures Queued(s)[i] == Queued(r)[i + 1]
    {
      PosFacts(r.readPos, i);
    }
  }

  /** A consumer in time takes the oldest frame; a late one takes the newest and drops those before it. */
  lemma CopiedIsQueued(r: Ring, late: bool)
    requires RingOk(r) && r.count > 0
    ensures RingOk(Copied(r, late))
    ensures Queued(Copied(r, late)) == if late then [] else Queued(r)[1..]
    ensures var s := if late then Skipped(r) else r;
            0 <= s.readPos < SIZE && r.buffer == s.buffer
            && s.buffer[s.readPos] == NextFrame(s) == Queued(r)[if late then r.count - 1 else 0]
  {
    hide Pos, RingOk, Taken;
    RingPositions(r);
    SkippedToNewest(r);
    var s := if late then Skipped(r) else r;
    TakenIsQueued(s);
    if late {
      PosFacts(r.readPos, r.count - 1);
      OneQueued(s);
    }
  }

  /** The read position goes round the eight places. */
  lemma PositionAfter(r: Ring)
    requires RingOk(r) && r.count > 0
    ensures Skipped(r).readPos == Pos(r.readPos, r.count - 1)
    ensures Pos(Pos(r.readPos, r.count - 1), 1) == (r.readPos + r.count) % 8
    ensures Pos(r.readPos, 1) == (r.readPos + 1) % 8
  {
    SkippedToNewest(r);
  }

  lemma OneQueued(s: Ring)
    requires Positions(s) && s.count == 1
    ensures Queued(s)[1..] == []
  {
  }

  lemma RingPositions(r: Ring)
    requires RingOk(r)
    ensures Positions(r) && r.count == |Queued(r)|
  {
  }

  // ---------- the shared structure ----------

  class FrameSync {
    const frameBuffer: array<Frame>
    var writePos: int
    var readPos: int
    var frameCount: int
    var bufferFull: bool

    constructor ()
      ensures fresh(frameBuffer) && RingOk(GetRing()) && Queued(GetRing()) == []
      ensures frameBuffer.Length == 8 && writePos == 0 && readPos == 0 && frameCount == 0 && !bufferFull
    {
      frameBuffer := new int[SIZE];
      writePos, readPos, frameCount, bufferFull := 0, 0, 0, false;
    }

    ghost function GetRing(): Ring
      reads this, frameBuffer
    {
      Ring(frameBuffer[..], writePos, readPos, frameCount, bufferFull)
    }

    /** DVP_Send after its wait, with the mutex held. */
    method Send(frame: Frame)
      requires RingOk(GetRing()) && !bufferFull
      modifies `writePos, `frameCount, `bufferFull, frameBuffer
      ensures GetRing() == Sent(old(GetRing()), frame)
      ensures writePos == (old(writePos) + 1) % 8 && frameCount == old(frameCount) + 1
      ensures frameBuffer[..] == old(frameBuffer[..])[old(writePos) := frame] && (bufferFull <==> frameCount == 8)
      ensures RingOk(GetRing()) && Queued(GetRing()) == old(Queued(GetRing())) + [frame]
    {
      SentIsQueued(GetRing(), frame);
      frameBuffer[writePos] := frame;
      writePos := Pos(writePos, 1);
      frameCount := frameCount + 1;
      if writePos == readPos {
        bufferFull := true;
      }
    }

    /** SHM_VO_Copy after its wait, with the mutex held. */
    method Copy(late: bool) returns (frame: Frame)
      requires RingOk(GetRing()) && frameCount > 0
      modifies `readPos, `frameCount, `bufferFull
      ensures GetRing() == Copied(old(GetRing()), late) && RingOk(GetRing())
      ensures frameCount == (if late then 0 else old(frameCount) - 1) && !bufferFull
      ensures readPos == (old(readPos) + if late then old(frameCount) else 1) % 8
      ensures var q := old(Queued(GetRing()));
              && frame == q[if late then |q| - 1 else 0] && Queued(GetRing()) == if late then [] else q[1..]
    {
      hide Pos;
      ghost var r := GetRing();
      CopiedIsQueued(r, late);
      PositionAfter(r);
      if late {
        while frameCount > 1
          invariant GetRing().buffer == r.buffer && writePos == r.writePos && bufferFull == r.full
          invariant Skipped(GetRing()) == Skipped(r) && frameCount > 0
        {
          readPos := Pos(readPos, 1);
          frameCount := frameCount - 1;
        }
      }
      frame := frameBuffer[readPos];
      readPos := Pos(readPos, 1);
      frameCount := frameCount - 1;
      bufferFull := false;
    }
  }

  // ---------- the two threads ----------

  /** Where a thread is: outside, before the test of its loop with the mutex held, blocked on its condition, or
      woken and waiting for the mutex. */
  datatype Thread = Outside | Holding | Blocked | Woken

  datatype Fate = Consumed | Dropped

  /** The ring, both threads, the frames produced so far, what became of those no longer in the ring, and the
      frames the consumer took. */
  datatype World = World(ring: Ring, producer: Thread, consumer: Thread,
                         produced: seq<Frame>, fates: seq<Fate>, consumed: seq<Frame>)

  datatype Action = ProducerLocks | ProducerRuns(frame: Frame) | ConsumerLocks | ConsumerRuns(late: bool)
                  | ProducerWakes | ConsumerWakes

  predicate MutexFree(w: World) {
    w.producer != Holding && w.consumer != Holding
  }

  /** A thread enters, or comes back from its wait, when the mutex is free; a wait may also end for no reason. */
  predicate Enabled(w: World, a: Action) {
    match a
    case ProducerLocks => MutexFree(w) && (w.producer == Outside || w.producer == Woken)
    case ConsumerLocks => MutexFree(w) && (w.consumer == Outside || w.consumer == Woken)
    case ProducerRuns(_) => w.producer == Holding
    case ConsumerRuns(_) => w.consumer == Holding
    case ProducerWakes => w.producer == Blocked
    case ConsumerWakes => w.consumer == Blocked
  }

  function Signalled(t: Thread): Thread {
    if t == Blocked then Woken else t
  }

  ghost function Drops(n: nat): seq<Fate> {
    seq(n, _ => Dropped)
  }

  /** With the mutex held a thread tests its condition: it either blocks, which frees the mutex, or does its
      work, signals the other and leaves. */
  ghost function Step(w: World, a: Action): World {
    match a
    case ProducerLocks => w.(producer := Holding)
    case ConsumerLocks => w.(consumer := Holding)
    case ProducerWakes => w.(producer := Woken)
    case ConsumerWakes => w.(consumer := Woken)
    case ProducerRuns(f) =>
      if w.ring.full then w.(producer := Blocked)
      else w.(ring := Sent(w.ring, f), producer := Outside, consumer := Signalled(w.consumer),
              produced := w.produced + [f])
    case ConsumerRuns(late) =>
      if w.ring.count == 0 then w.(consumer := Blocked)
      else
        var n := if late && w.ring.count > 1 then w.ring.count - 1 else 0;
        w.(ring := Copied(w.ring, late), consumer := Outside, producer := Signalled(w.producer),
           fates := w.fates + Drops(n) + [Consumed],
           consumed := w.consumed + [NextFrame(if late then Skipped(w.ring) else w.ring)])
  }

  /** The frames that were consumed, out of those that are no longer in the ring. */
  function Kept(frames: seq<Frame>, fates: seq<Fate>): seq<Frame>
    requires |frames| == |fates|
  {
    if frames == [] then []
    else
      var n := |frames| - 1;
      Kept(frames[..n], fates[..n]) + if fates[n] == Consumed then [frames[n]] else []
  }

  function Lost(fates: seq<Fate>): nat {
    if fates == [] then 0
    else
      var n := |fates| - 1;
      Lost(fates[..n]) + if fates[n] == Dropped then 1 else 0
  }

  /** A blocked producer finds the ring full and a blocked consumer finds it empty: no wakeup is lost. The
      produced frames are, in order, those consumed or dropped and then those in the ring. */
  ghost predicate Inv(w: World) {
    && RingOk(w.ring)
    && !(w.producer == Holding && w.consumer == Holding)
    && (w.producer == Blocked ==> w.ring.full)
    && (w.consumer == Blocked ==> w.ring.count == 0)
    && |w.fates| <= |w.produced|
    && w.produced == w.produced[..|w.fates|] + Queued(w.ring)
    && w.consumed == Kept(w.produced[..|w.fates|], w.fates)
  }

  lemma {:induction false} KeptAndLost(frames: seq<Frame>, fates: seq<Fate>)
    requires |frames| == |fates|
    ensures |Kept(frames, fates)| + Lost(fates) == |fates|
  {
    if frames != [] {
      var n := |frames| - 1;
      KeptAndLost(frames[..n], fates[..n]);
    }
  }

  lemma {:induction false} KeptAfterDrops(frames: seq<Frame>, fates: seq<Fate>, q: seq<Frame>, n: nat)
    requires |frames| == |fates| && n <= |q|
    ensures Kept(frames + q[..n], fates + Drops(n)) == Kept(frames, fates)
    decreases n
  {
    var more, moreFates := frames + q[..n], fates + Drops(n);
    if n > 0 {
      var k := |more| - 1;
      assert more[..k] == frames + q[..n - 1] && moreFates[..k] == fates + Drops(n - 1);
      KeptAfterDrops(frames, fates, q, n - 1);
    } else {
      assert more == frames && moreFates == fates;
    }
  }

  lemma KeptAfterTaking(frames: seq<Frame>, fates: seq<Fate>, q: seq<Frame>, n: nat)
    requires |frames| == |fates| && n < |q|
    ensures Kept(frames + q[..n + 1], fates + Drops(n) + [Consumed]) == Kept(frames, fates) + [q[n]]
  {
    KeptAfterDrops(frames, fates, q, n);
    var more, moreFates := frames + q[..n + 1], fates + Drops(n) + [Consumed];
    var k := |more| - 1;
    assert more[..k] == frames + q[..n] && moreFates[..k] == fates + Drops(n);
  }

  lemma StepKeepsInv(w: World, a: Action)
    requires Inv(w) && Enabled(w, a)
    ensures Inv(Step(w, a))
  {
    match a
    case ProducerRuns(f) =>
      if !w.ring.full {
        SentIsQueued(w.ring, f);
        assert (w.produced + [f])[..|w.fates|] == w.produced[..|w.fates|];
      }
    case ConsumerRuns(late) =>
      if w.ring.count > 0 {
        CopyKeepsInv(w, late);
      }
    case _ =>
  }

  lemma CopyKeepsInv(w: World, late: bool)
    requires Inv(w) && w.consumer == Holding && w.ring.count > 0
    ensures Inv(Step(w, ConsumerRuns(late)))
  {
    hide Queued, Copied, Positions, Kept, Skipped, NextFrame, Drops;
    RingPositions(w.ring);
    CopiedIsQueued(w.ring, late);
    var v := Step(w, ConsumerRuns(late));
    var q, n := Queued(w.ring), if late then w.ring.count - 1 else 0;
    FramesKept(w.produced, w.fates, q, n);
    assert v.fates == w.fates + Drops(n) + [Consumed];
    assert Queued(v.ring) == q[n + 1..];
    assert v.consumed == w.consumed + [q[n]];
  }

  /** Of the frames in the ring some are dropped and one is taken. */
  lemma FramesKept(produced: seq<Frame>, fates: seq<Fate>, q: seq<Frame>, n: nat)
    requires |fates| <= |produced| && produced == produced[..|fates|] + q && n < |q|
    ensures var more := fates + Drops(n) + [Consumed];
            && |more| <= |produced| && produced[|more|..] == q[n + 1..] && produced == produced[..|more|] + q[n + 1..]
            && Kept(produced[..|more|], more) == Kept(produced[..|fates|], fates) + [q[n]]
  {
    var done := |fates|;
    KeptAfterTaking(produced[..done], fates, q, n);
    assert produced[..done + n + 1] == produced[..done] + q[..n + 1];
    assert q == q[..n + 1] + q[n + 1..];
  }

  // ---------- runs ----------

  function Start(ring: Ring): World {
    World(ring, Outside, Outside, [], [], [])
  }

  ghost predicate IsRun(ring: Ring, actions: seq<Action>, worlds: seq<World>) {
    && |worlds| == |actions| + 1 && worlds[0] == Start(ring)
    && forall i :: 0 <= i < |actions| ==>
         Enabled(worlds[i], actions[i]) && worlds[i + 1] == Step(worlds[i], actions[i])
  }

  lemma EmptyRing(ring: Ring)
    requires RingOk(ring) && ring.count == 0
    ensures Inv(Start(ring))
  {
  }

  lemma {:induction false} RunsKeepInv(ring: Ring, actions: seq<Action>, worlds: seq<World>)
    requires RingOk(ring) && ring.count == 0 && IsRun(ring, actions, worlds)
    ensures forall i :: 0 <= i < |worlds| ==> Inv(worlds[i])
    decreases |actions|
  {
    hide Inv, Step, Enabled;
    EmptyRing(ring);
    if actions != [] {
      var n := |actions| - 1;
      assert IsRun(ring, actions[..n], worlds[..n + 1]);
      RunsKeepInv(ring, actions[..n], worlds[..n + 1]);
      StepKeepsInv(worlds[n], actions[n]);
      forall i | 0 <= i < |worlds|
        ensures Inv(worlds[i])
      {
        assert i < n + 1 ==> worlds[i] == worlds[..n + 1][i];
        assert worlds[n] == worlds[..n + 1][n];
      }
    }
  }

  /** No frame is lost but those dropped, the consumed ones keep their order, the two threads are not both blocked,
      and one of them can go on without a spurious wakeup. */
  ghost predicate Accounted(w: World) {
    && RingOk(w.ring)
    && |w.produced| == |w.consumed| + Lost(w.fates) + |Queued(w.ring)|
    && |w.fates| <= |w.produced| && w.consumed == Kept(w.produced[..|w.fates|], w.fates)
    && w.produced[|w.fates|..] == Queued(w.ring)
    && !(w.producer == Blocked && w.consumer == Blocked)
    && exists a :: Enabled(w, a) && a != ProducerWakes && a != ConsumerWakes
  }

  lemma InvAccounts(w: World)
    requires Inv(w)
    ensures Accounted(w)
  {
    KeptAndLost(w.produced[..|w.fates|], w.fates);
    assert Enabled(w, ProducerLocks) || Enabled(w, ConsumerLocks)
        || Enabled(w, ProducerRuns(0)) || Enabled(w, ConsumerRuns(false));
  }

  /** This holds at every point of every run. */
  lemma EveryRun(ring: Ring, actions: seq<Action>, worlds: seq<World>)
    requires RingOk(ring) && ring.count == 0 && IsRun(ring, actions, worlds)
    ensures forall i :: 0 <= i < |worlds| ==> Accounted(worlds[i])
  {
    hide Inv, Step, Enabled, Accounted;
    RunsKeepInv(ring, actions, worlds);
    forall i | 0 <= i < |worlds|
      ensures Accounted(worlds[i])
    {
      InvAccounts(worlds[i]);
    }
  }

  /** A late consumer gets the newest frame produced, one in time the oldest it has not passed over. */
  lemma ConsumerGets(w: World, late: bool)
    requires Inv(w) && w.consumer == Holding && w.ring.count > 0
    ensures var v := Step(w, ConsumerRuns(late));
            && |v.consumed| == |w.consumed| + 1 && |w.fates| < |w.produced|
            && v.consumed[|w.consumed|] == w.produced[if late then |w.produced| - 1 else |w.fates|]
  {
    RingPositions(w.ring);
    CopiedIsQueued(w.ring, late);
    assert w.produced[|w.fates|..] == Queued(w.ring);
  }
}
