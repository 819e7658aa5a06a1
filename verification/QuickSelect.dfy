/** Selection in place: partition and quickSelect. The repository has two copies, which differ in whether
    elements equal to the pivot go before it; `strict` tells them apart. */
module QuickSelect {
  import opened OrderStatistics

  /** Whether the loop of partition moves an element to the front. */
  predicate Front(x: int, pivot: int, strict: bool) {
    if strict then x < pivot else x <= pivot
  }

  /** The one is a rearrangement of the other within the segment. */
  ghost predicate Rearranged(s: seq<int>, t: seq<int>, left: int, right: int) {
    && |s| == |t| && multiset(s) == multiset(t)
    && (forall i :: 0 <= i < |s| && !(left <= i <= right) ==> t[i] == s[i])
  }

  lemma RearrangedFurther(s: seq<int>, t: seq<int>, u: seq<int>, left: int, right: int, l: int, r: int)
    requires Rearranged(s, t, left, right) && Rearranged(t, u, l, r) && left <= l && r <= right
    ensures Rearranged(s, u, left, right)
  {
  }

  lemma SegmentPermuted(s: seq<int>, t: seq<int>, left: nat, right: int)
    requires Rearranged(s, t, left, right) && left <= right + 1 <= |s|
    ensures multiset(t[left..right + 1]) == multiset(s[left..right + 1])
  {
    assert s == s[..left] + s[left..right + 1] + s[right + 1..];
    assert t == t[..left] + t[left..right + 1] + t[right + 1..];
    assert t[..left] == s[..left] && t[right + 1..] == s[right + 1..];
    Cancel(multiset(s[..left]), multiset(s[left..right + 1]), multiset(t[left..right + 1]), multiset(s[right + 1..]));
  }

  lemma Cancel(a: multiset<int>, s: multiset<int>, t: multiset<int>, b: multiset<int>)
    requires a + s + b == a + t + b
    ensures s == t
  {
    assert s == a + s + b - a - b;
    assert t == a + t + b - a - b;
  }

  /** Bounds on the elements of the segment survive. */
  lemma UpperSurvives(s: seq<int>, t: seq<int>, left: nat, right: int, high: int)
    requires Rearranged(s, t, left, right) && left <= right + 1 <= |s|
    requires forall i :: left <= i <= right ==> s[i] <= high
    ensures forall i :: left <= i <= right ==> t[i] <= high
  {
    forall i | left <= i <= right
      ensures t[i] <= high
    {
      var j := CameFrom(s, t, left, right, i);
    }
  }

  lemma LowerSurvives(s: seq<int>, t: seq<int>, left: nat, right: int, low: int)
    requires Rearranged(s, t, left, right) && left <= right + 1 <= |s|
    requires forall i :: left <= i <= right ==> low <= s[i]
    ensures forall i :: left <= i <= right ==> low <= t[i]
  {
    forall i | left <= i <= right
      ensures low <= t[i]
    {
      var j := CameFrom(s, t, left, right, i);
    }
  }

  lemma CameFrom(s: seq<int>, t: seq<int>, left: nat, right: int, i: int) returns (j: int)
    requires Rearranged(s, t, left, right) && left <= i <= right < |s|
    ensures left <= j <= right && s[j] == t[i]
  {
    SegmentPermuted(s, t, left, right);
    assert t[i] == t[left..right + 1][i - left];
    assert t[i] in multiset(t[left..right + 1]);
    var d :| 0 <= d < right + 1 - left && s[left..right + 1][d] == t[i];
    j := left + d;
  }

  method Swap(a: array<int>, i: nat, j: nat, ghost left: int, ghost right: int)
    requires left <= i <= right && left <= j <= right && i < a.Length && j < a.Length
    modifies a
    ensures a[i] == old(a[j]) && a[j] == old(a[i])
    ensures forall n :: 0 <= n < a.Length && n != i && n != j ==> a[n] == old(a[n])
    ensures Rearranged(old(a[..]), a[..], left, right)
  {
    a[i], a[j] := a[j], a[i];
  }

  /** partition. */
  method Partition(arr: array<int>, left: nat, right: nat, pivotIndex: nat, strict: bool) returns (storeIndex: nat)
    requires left <= pivotIndex <= right < arr.Length
    modifies arr
    ensures left <= storeIndex <= right && Rearranged(old(arr[..]), arr[..], left, right)
    ensures arr[storeIndex] == old(arr[pivotIndex])
    ensures forall i :: left <= i < storeIndex ==> Front(arr[i], arr[storeIndex], strict)
    ensures forall i :: storeIndex < i <= right ==> !Front(arr[i], arr[storeIndex], strict)
  {
    hide Rearranged;
    var pivotValue := arr[pivotIndex];
    Swap(arr, pivotIndex, right, left, right);
    storeIndex := left;
    for i := left to right
      invariant left <= storeIndex <= i && arr[right] == pivotValue
      invariant Rearranged(old(arr[..]), arr[..], left, right)
      invariant forall j :: left <= j < storeIndex ==> Front(arr[j], pivotValue, strict)
      invariant forall j :: storeIndex <= j < i ==> !Front(arr[j], pivotValue, strict)
    {
      if Front(arr[i], pivotValue, strict) {
        ghost var before := arr[..];
        Swap(arr, storeIndex, i, left, right);
        RearrangedFurther(old(arr[..]), before, arr[..], left, right, left, right);
        storeIndex := storeIndex + 1;
      }
    }
    ghost var before := arr[..];
    Swap(arr, right, storeIndex, left, right);
    RearrangedFurther(old(arr[..]), before, arr[..], left, right, left, right);
  }

  /** quickSelect: the element that sorting the segment would put at `k` is there, with no larger one before
      it and no smaller one after it. */
  method Select(arr: array<int>, left: nat, right: nat, k: nat, strict: bool) returns (v: int)
    requires left <= k <= right < arr.Length
    modifies arr
    ensures Rearranged(old(arr[..]), arr[..], left, right) && v == arr[k]
    ensures forall i :: left <= i <= k ==> arr[i] <= v
    ensures forall i :: k <= i <= right ==> v <= arr[i]
    decreases right - left
  {
    if left == right {
      return arr[left];
    }
    var pivotIndex := left + (right - left) / 2;
    pivotIndex := Partition(arr, left, right, pivotIndex, strict);
    ghost var before, pivot := arr[..], arr[pivotIndex];
    assert forall i :: left <= i <= pivotIndex ==> before[i] <= pivot;
    assert forall i :: pivotIndex <= i <= right ==> pivot <= before[i];
    if k == pivotIndex {
      v := arr[k];
    } else if k < pivotIndex {
      v := Select(arr, left, pivotIndex - 1, k, strict);
      UpperSurvives(before, arr[..], left, pivotIndex - 1, pivot);
      RearrangedFurther(old(arr[..]), before, arr[..], left, right, left, pivotIndex - 1);
      assert forall i :: pivotIndex <= i <= right ==> arr[i] == before[i];
    } else {
      v := Select(arr, pivotIndex + 1, right, k, strict);
      LowerSurvives(before, arr[..], pivotIndex + 1, right, pivot);
      RearrangedFurther(old(arr[..]), before, arr[..], left, right, pivotIndex + 1, right);
      assert forall i :: left <= i <= pivotIndex ==> arr[i] == before[i];
    }
  }

  /** Selection on a whole array finds the element at index `k` of the sorted array. */
  method SelectRank(arr: array<int>, k: nat, strict: bool) returns (v: int)
    requires k < arr.Length
    modifies arr
    ensures multiset(arr[..]) == multiset(old(arr[..]))
    ensures |Sorted(old(arr[..]))| == arr.Length && v == Sorted(old(arr[..]))[k]
  {
    v := Select(arr, 0, arr.Length - 1, k, strict);
    SplitterIsRanked(arr[..], k);
    SortedPermuted(old(arr[..]), arr[..]);
  }
}
