/** Insertion into lists kept in increasing order of a key, and the one thing that makes them useful here:
    a strictly increasing list is determined by its elements. */
module SortedInsert {

  /** The place before the first element with a larger key, or the end of the list. */
  function InsertPoint<T>(xs: seq<T>, x: T, key: T -> int): (i: nat)
    ensures i <= |xs|
    ensures forall j :: 0 <= j < i ==> key(xs[j]) <= key(x)
    ensures i < |xs| ==> key(x) < key(xs[i])
  {
    if xs == [] || key(x) < key(xs[0]) then 0 else 1 + InsertPoint(xs[1..], x, key)
  }

  function InsertInOrder<T>(xs: seq<T>, x: T, key: T -> int): seq<T> {
    var i := InsertPoint(xs, x, key);
    xs[..i] + [x] + xs[i..]
  }

  ghost predicate Increasing<T>(xs: seq<T>, key: T -> int) {
    forall i, j :: 0 <= i < j < |xs| ==> key(xs[i]) < key(xs[j])
  }

  lemma InsertKeepsOrder<T>(xs: seq<T>, x: T, key: T -> int)
    requires Increasing(xs, key)
    requires forall i :: 0 <= i < |xs| ==> key(xs[i]) != key(x)
    ensures Increasing(InsertInOrder(xs, x, key), key)
  {
    var i := InsertPoint(xs, x, key);
    if i < |xs| {
      assert forall j :: i <= j < |xs| ==> key(x) < key(xs[j]);
    }
  }

  lemma InsertAddsElement<T>(xs: seq<T>, x: T, key: T -> int, y: T)
    ensures y in InsertInOrder(xs, x, key) <==> y in xs || y == x
  {
    var i := InsertPoint(xs, x, key);
    assert xs == xs[..i] + xs[i..];
  }

  lemma {:induction false} IncreasingIsUnique<T>(xs: seq<T>, ys: seq<T>, key: T -> int)
    requires Increasing(xs, key) && Increasing(ys, key)
    requires forall x :: x in xs <==> x in ys
    ensures xs == ys
  {
    assert |xs| > 0 ==> xs[0] in ys;
    assert |ys| > 0 ==> ys[0] in xs;
    if xs != [] {
      var m, n := |xs| - 1, |ys| - 1;
      assert xs[m] in ys;
      assert ys[n] in xs;
      assert xs[m] == ys[n] by {
        var i :| 0 <= i < |ys| && ys[i] == xs[m];
        var j :| 0 <= j < |xs| && xs[j] == ys[n];
      }
      forall x
        ensures x in xs[..m] <==> x in ys[..n]
      {
        InFront(xs, key, x);
        InFront(ys, key, x);
      }
      IncreasingIsUnique(xs[..m], ys[..n], key);
      assert xs == xs[..m] + [xs[m]];
      assert ys == ys[..n] + [ys[n]];
    }
  }

  lemma InFront<T>(xs: seq<T>, key: T -> int, x: T)
    requires Increasing(xs, key) && xs != []
    ensures x in xs[..|xs| - 1] <==> x in xs && x != xs[|xs| - 1]
  {
    var m := |xs| - 1;
    assert xs == xs[..m] + [xs[m]];
    if x in xs[..m] {
      var i :| 0 <= i < m && xs[i] == x;
      assert key(xs[i]) < key(xs[m]);
    }
  }

  function Mapped<T, U>(xs: seq<T>, f: T -> U): (ys: seq<U>)
    ensures |ys| == |xs| && forall i :: 0 <= i < |xs| ==> ys[i] == f(xs[i])
  {
    seq(|xs|, i requires 0 <= i < |xs| => f(xs[i]))
  }

  lemma {:induction false} SamePoint<T, U>(xs: seq<T>, ys: seq<U>, x: T, y: U, key: T -> int, key': U -> int)
    requires |ys| == |xs| && key'(y) == key(x) && forall i :: 0 <= i < |xs| ==> key'(ys[i]) == key(xs[i])
    ensures InsertPoint(ys, y, key') == InsertPoint(xs, x, key)
  {
    if xs != [] {
      SamePoint(xs[1..], ys[1..], x, y, key, key');
    }
  }

  /** A change of the elements that leaves their keys alone does not matter to the place of insertion. */
  lemma InsertMapped<T, U>(xs: seq<T>, x: T, f: T -> U, key: T -> int, key': U -> int)
    requires forall y :: key'(f(y)) == key(y)
    ensures InsertInOrder(Mapped(xs, f), f(x), key') == Mapped(InsertInOrder(xs, x, key), f)
  {
    hide InsertPoint;
    SamePoint(xs, Mapped(xs, f), x, f(x), key, key');
  }
}
