/**
 Allocation of message ids: the cyclic scan of MQTTProtocol_assignMsgId over 1..MAX_MSG_ID, which starts
 after the last id given out and never tests that last id itself.
 */
module MessageIds {
  import opened Messages

  function NextId(id: nat): nat {
    if id == MAX_MSG_ID then 1 else id + 1
  }

  /** The id reached from `id` after `k` steps of the scan. */
  function Candidate(id: nat, k: nat): (r: nat)
    requires 1 <= id <= MAX_MSG_ID
    ensures 1 <= r <= MAX_MSG_ID
  {
    (id - 1 + k) % MAX_MSG_ID + 1
  }

  /** The number of steps the scan takes before it is back at the id it must not give out again. From the
      initial value 0 it never gets back there, so it ends only if it finds a free id. */
  function Candidates(start: nat): nat {
    if start == 0 then MAX_MSG_ID else MAX_MSG_ID - 1
  }

  function FirstFree(inUse: set<nat>, id: nat, n: nat): nat
    decreases n
  {
    if n == 0 then 0
    else if id !in inUse then id
    else FirstFree(inUse, NextId(id), n - 1)
  }

  /** The id the scan gives out, 0 when it gives up. */
  function AssignedId(inUse: set<nat>, start: nat): nat {
    FirstFree(inUse, NextId(start), Candidates(start))
  }

  lemma CandidateNext(id: nat, k: nat)
    requires 1 <= id <= MAX_MSG_ID
    ensures Candidate(id, k + 1) == NextId(Candidate(id, k))
    ensures Candidate(NextId(id), k) == Candidate(id, k + 1)
    ensures Candidate(id, 0) == id
  {
  }

  lemma {:induction false} FirstFreeFinds(inUse: set<nat>, id: nat, n: nat)
    requires 1 <= id <= MAX_MSG_ID
    decreases n
    ensures var r := FirstFree(inUse, id, n);
            if r == 0 then forall k: nat :: k < n ==> Candidate(id, k) in inUse
            else exists k: nat :: k < n && r == Candidate(id, k) && r !in inUse
                                  && forall j: nat :: j < k ==> Candidate(id, j) in inUse
  {
    CandidateNext(id, 0);
    if n != 0 && id in inUse {
      var next := NextId(id);
      FirstFreeFinds(inUse, next, n - 1);
      forall k: nat | 0 < k
        ensures Candidate(id, k) == Candidate(next, k - 1)
      {
        CandidateNext(id, k - 1);
      }
      var r := FirstFree(inUse, next, n - 1);
      if r != 0 {
        var k: nat :| k < n - 1 && r == Candidate(next, k) && r !in inUse
                      && forall j: nat :: j < k ==> Candidate(next, j) in inUse;
        assert r == Candidate(id, k + 1);
      }
    }
  }

  /** Every id but the starting one is a candidate. */
  lemma EveryOtherIdIsTried(start: nat, id: nat) returns (k: nat)
    requires start <= MAX_MSG_ID && 1 <= id <= MAX_MSG_ID && id != start
    ensures k < Candidates(start) && Candidate(NextId(start), k) == id
  {
    k := if start < id then id - start - 1 else id + MAX_MSG_ID - start - 1;
  }

  lemma StartIsNotTried(start: nat, k: nat)
    requires start <= MAX_MSG_ID && k < Candidates(start)
    ensures Candidate(NextId(start), k) != start
  {
  }

  /** What the scan promises: a usable id that no in-flight message has; and it gives up exactly when
      every id other than the last one given out is in use, whether or not that last one is free. */
  lemma AssignedIdIsFree(inUse: set<nat>, start: nat)
    requires start <= MAX_MSG_ID
    ensures var r := AssignedId(inUse, start);
            && (r != 0 ==> 1 <= r <= MAX_MSG_ID && r !in inUse && r != start)
            && (r == 0 <==> forall id :: 1 <= id <= MAX_MSG_ID && id != start ==> id in inUse)
  {
    var r := AssignedId(inUse, start);
    FirstFreeFinds(inUse, NextId(start), Candidates(start));
    if r == 0 {
      forall id | 1 <= id <= MAX_MSG_ID && id != start
        ensures id in inUse
      {
        var k := EveryOtherIdIsTried(start, id);
      }
    } else {
      var k: nat :| k < Candidates(start) && r == Candidate(NextId(start), k) && r !in inUse;
      StartIsNotTried(start, k);
    }
  }

  /** Going forward from `start` on the cycle of ids, `id` comes before `r`. */
  predicate Between(start: nat, id: nat, r: nat) {
    if start < r then start < id < r else start < id <= 65535 || 1 <= id < r
  }

  /** The scan goes forward and round from the last id given out: it passes over no free id. */
  lemma AssignedIdIsNext(inUse: set<nat>, start: nat)
    requires start <= MAX_MSG_ID
    ensures var r := AssignedId(inUse, start);
            r != 0 ==> 1 <= r <= 65535 && r != start && r !in inUse
                       && forall id :: Between(start, id, r) ==> id in inUse
  {
    AssignedIdIsFree(inUse, start);
    FirstFreeFinds(inUse, NextId(start), Candidates(start));
    var r := AssignedId(inUse, start);
    if r != 0 {
      var k: nat :| k < Candidates(start) && r == Candidate(NextId(start), k)
                    && forall j: nat :: j < k ==> Candidate(NextId(start), j) in inUse;
      forall id | Between(start, id, r)
        ensures id in inUse
      {
        var j := EveryOtherIdIsTried(start, id);
        StepsBefore(start, j, k);
      }
    }
  }

  lemma StepsBefore(start: nat, j: nat, k: nat)
    requires start <= MAX_MSG_ID && j < Candidates(start) && k < Candidates(start)
    requires Between(start, Candidate(NextId(start), j), Candidate(NextId(start), k))
    ensures j < k
  {
  }

  function Range(n: nat): (r: set<nat>)
    ensures forall id :: id in r <==> 1 <= id <= n
  {
    if n == 0 then {} else Range(n - 1) + {n}
  }

  lemma {:induction false} RangeSize(n: nat)
    ensures |Range(n)| == n
  {
    if n != 0 {
      RangeSize(n - 1);
    }
  }

  lemma SubsetSize(a: set<nat>, b: set<nat>)
    requires a <= b
    ensures |a| <= |b|
  {
    assert |b| == |a| + |b - a| by {
      assert b == a + (b - a);
    }
  }

  /** With fewer than 65534 messages in flight the scan succeeds. */
  lemma FewInFlightSucceeds(inUse: set<nat>, start: nat)
    requires start <= MAX_MSG_ID && |inUse| < MAX_MSG_ID - 1
    ensures AssignedId(inUse, start) != 0
  {
    AssignedIdIsFree(inUse, start);
    if AssignedId(inUse, start) == 0 {
      RangeSize(MAX_MSG_ID);
      var others := Range(MAX_MSG_ID) - {start};
      SubsetSize(others, inUse);
    }
  }

  /** The bound is tight: with 65534 ids in flight the scan can fail, although one id is free. */
  lemma OneFreeIdMayBeMissed(start: nat)
    requires 1 <= start <= MAX_MSG_ID
    ensures var inUse := Range(MAX_MSG_ID) - {start};
            |inUse| == MAX_MSG_ID - 1 && start !in inUse && AssignedId(inUse, start) == 0
  {
    RangeSize(MAX_MSG_ID);
    AssignedIdIsFree(Range(MAX_MSG_ID) - {start}, start);
  }

  /** A scan that starts from the initial value 0 with every id in use meets neither a free id nor its
      starting value, however long it goes on. */
  lemma FullScanFromZeroNeverEnds(inUse: set<nat>, k: nat)
    requires Range(MAX_MSG_ID) <= inUse
    ensures Candidate(NextId(0), k) in inUse && Candidate(NextId(0), k) != 0
  {
    assert Candidate(NextId(0), k) in Range(MAX_MSG_ID);
  }
}
