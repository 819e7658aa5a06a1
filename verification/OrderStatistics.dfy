/** The sorted list of some samples, and how the element of a given rank is recognised by counting. */
module OrderStatistics {
  import opened SortedInsert

  const ID: int -> int := (x: int) => x

  ghost function Sorted(s: seq<int>): seq<int> {
    if s == [] then [] else InsertInOrder(Sorted(s[1..]), s[0], ID)
  }

  /** The number of samples below `x`. */
  function Below(s: seq<int>, x: int): nat {
    if s == [] then 0 else (if s[0] < x then 1 else 0) + Below(s[1..], x)
  }

  lemma {:induction false} BelowAppend(s: seq<int>, t: seq<int>, x: int)
    ensures Below(s + t, x) == Below(s, x) + Below(t, x)
  {
    if s == [] {
      assert s + t == t;
    } else {
      assert (s + t)[1..] == s[1..] + t;
      BelowAppend(s[1..], t, x);
    }
  }

  lemma BelowOne(y: int, x: int)
    ensures Below([y], x) == if y < x then 1 else 0
  {
    assert [y][1..] == [];
  }

  lemma {:induction false} BelowMonotonic(s: seq<int>, x: int, y: int)
    requires x <= y
    ensures Below(s, x) <= Below(s, y) <= |s|
  {
    if s != [] {
      BelowMonotonic(s[1..], x, y);
    }
  }

  ghost predicate IsSorted(s: seq<int>) {
    forall i, j :: 0 <= i < j < |s| ==> s[i] <= s[j]
  }

  lemma InsertIsSorted(t: seq<int>, x: int)
    requires IsSorted(t)
    ensures IsSorted(InsertInOrder(t, x, ID))
  {
    var i := InsertPoint(t, x, ID);
    assert forall j :: 0 <= j < i ==> ID(t[j]) <= ID(x);
    assert i < |t| ==> ID(x) < ID(t[i]);
    SplicedIsSorted(t, x, i);
  }

  lemma SplicedIsSorted(t: seq<int>, x: int, i: nat)
    requires IsSorted(t) && i <= |t|
    requires (forall j :: 0 <= j < i ==> t[j] <= x) && (i < |t| ==> x < t[i])
    ensures IsSorted(t[..i] + [x] + t[i..])
  {
  }

  lemma InsertCounts(t: seq<int>, x: int)
    ensures multiset(InsertInOrder(t, x, ID)) == multiset(t) + multiset{x}
    ensures |InsertInOrder(t, x, ID)| == |t| + 1
  {
    var i := InsertPoint(t, x, ID);
    assert t == t[..i] + t[i..];
  }

  lemma {:induction false} SortedIsSorted(s: seq<int>)
    ensures IsSorted(Sorted(s)) && |Sorted(s)| == |s| && multiset(Sorted(s)) == multiset(s)
  {
    if s != [] {
      SortedIsSorted(s[1..]);
      InsertIsSorted(Sorted(s[1..]), s[0]);
      InsertCounts(Sorted(s[1..]), s[0]);
      assert s == [s[0]] + s[1..];
    }
  }

  lemma {:induction false} BelowSorted(s: seq<int>, x: int)
    ensures Below(Sorted(s), x) == Below(s, x)
  {
    if s != [] {
      BelowSorted(s[1..], x);
      var t := Sorted(s[1..]);
      var i := InsertPoint(t, s[0], ID);
      BelowAppend(t[..i] + [s[0]], t[i..], x);
      BelowAppend(t[..i], [s[0]], x);
      BelowAppend(t[..i], t[i..], x);
      BelowOne(s[0], x);
      assert t == t[..i] + t[i..];
    }
  }

  lemma {:induction false} RankInSorted(t: seq<int>, k: nat, x: int)
    requires IsSorted(t) && k < |t|
    ensures t[k] < x <==> k < Below(t, x)
  {
    if t[0] >= x {
      NoneBelow(t, x);
    } else if k > 0 {
      RankInSorted(t[1..], k - 1, x);
    }
  }

  lemma {:induction false} NoneBelow(t: seq<int>, x: int)
    requires forall i :: 0 <= i < |t| ==> t[i] >= x
    ensures Below(t, x) == 0
  {
    if t != [] {
      NoneBelow(t[1..], x);
    }
  }

  /** The element at index `k` of the sorted samples is below `x` exactly when more than `k` samples are. */
  lemma RankIsCount(s: seq<int>, k: nat, x: int)
    requires k < |s|
    ensures |Sorted(s)| == |s|
    ensures Sorted(s)[k] < x <==> k < Below(s, x)
  {
    SortedIsSorted(s);
    RankInSorted(Sorted(s), k, x);
    BelowSorted(s, x);
  }

  /** Counting does not depend on the order of the samples, */
  lemma {:induction false} BelowPermuted(s: seq<int>, t: seq<int>, x: int)
    requires multiset(s) == multiset(t)
    ensures Below(s, x) == Below(t, x)
    decreases |s|
  {
    if s == [] {
      assert |multiset(t)| == 0;
    } else {
      assert s[0] in multiset(t);
      var j :| 0 <= j < |t| && t[j] == s[0];
      var fewer := t[..j] + t[j + 1..];
      OneTaken(t, j, x);
      assert s == [s[0]] + s[1..];
      assert multiset(s) == multiset(s[1..]) + multiset{s[0]};
      SameWithout(multiset(fewer), multiset(s[1..]), s[0]);
      BelowPermuted(s[1..], fewer, x);
    }
  }

  lemma OneTaken(t: seq<int>, j: nat, x: int)
    requires j < |t|
    ensures var fewer := t[..j] + t[j + 1..];
            && multiset(t) == multiset(fewer) + multiset{t[j]}
            && Below(t, x) == Below(fewer, x) + if t[j] < x then 1 else 0
  {
    assert t == t[..j] + ([t[j]] + t[j + 1..]);
    BelowAppend(t[..j], [t[j]] + t[j + 1..], x);
    BelowAppend([t[j]], t[j + 1..], x);
    BelowAppend(t[..j], t[j + 1..], x);
    BelowOne(t[j], x);
  }

  lemma SameWithout(a: multiset<int>, b: multiset<int>, x: int)
    requires a + multiset{x} == b + multiset{x}
    ensures a == b
  {
    assert a == (a + multiset{x}) - multiset{x};
    assert b == (b + multiset{x}) - multiset{x};
  }

  /** and so neither does the sorted list. */
  lemma SortedPermuted(s: seq<int>, t: seq<int>)
    requires multiset(s) == multiset(t)
    ensures Sorted(s) == Sorted(t)
  {
    assert |s| == |t| by {
      assert |multiset(s)| == |s| && |multiset(t)| == |t|;
    }
    SortedIsSorted(s);
    SortedIsSorted(t);
    forall k | 0 <= k < |s|
      ensures Sorted(s)[k] == Sorted(t)[k]
    {
      BelowPermuted(s, t, Sorted(s)[k]);
      BelowPermuted(s, t, Sorted(t)[k]);
      RankIsCount(s, k, Sorted(t)[k]);
      RankIsCount(t, k, Sorted(s)[k]);
      RankIsCount(s, k, Sorted(s)[k]);
      RankIsCount(t, k, Sorted(t)[k]);
    }
  }

  /** An element with nothing larger before it and nothing smaller after it is where sorting would put it. */
  lemma SplitterIsRanked(s: seq<int>, k: nat)
    requires k < |s|
    requires (forall i :: 0 <= i < k ==> s[i] <= s[k]) && (forall i :: k < i < |s| ==> s[k] <= s[i])
    ensures |Sorted(s)| == |s| && Sorted(s)[k] == s[k]
  {
    var v := s[k];
    assert s == s[..k] + s[k..];
    BelowAppend(s[..k], s[k..], v);
    BelowAppend(s[..k], s[k..], v + 1);
    NoneBelow(s[k..], v);
    AllBelow(s[..k], v + 1);
    BelowMonotonic(s[..k], v, v + 1);
    assert Below(s[k..], v + 1) >= 1;
    RankIsCount(s, k, v);
    RankIsCount(s, k, v + 1);
  }

  lemma {:induction false} AllBelow(t: seq<int>, x: int)
    requires forall i :: 0 <= i < |t| ==> t[i] < x
    ensures Below(t, x) == |t|
  {
    if t != [] {
      AllBelow(t[1..], x);
    }
  }

  lemma SortedMonotonic(s: seq<int>, j: nat, k: nat)
    requires j <= k < |s|
    ensures |Sorted(s)| == |s| && Sorted(s)[j] <= Sorted(s)[k]
  {
    SortedIsSorted(s);
  }
}
