/**
 Subtrees, searching, neighbours in key order, and the height of a red-black tree. `Under` are the nodes of a
 subtree; they are found by recursion on the width of the range of keys that the subtree may hold, which gets
 smaller from each node to its children. A search keeps to the range the key lies in, so that what it passes by
 cannot hold the key; and the next key is found below on the right, or else above on the first way to the right.
 */
module TreeOrder {
  import opened TreeNodes

  ghost predicate Tree(m: Mem, root: Node?, g: map<Node, Range>) {
    Linked(m, root) && Ordered(m, g)
  }

  ghost function Width(g: map<Node, Range>, n: Node?): int {
    if n != null && n in g then g[n].hi - g[n].lo else 0
  }

  /** The nodes of the subtree at `n`. */
  ghost function Under(m: Mem, root: Node?, g: map<Node, Range>, n: Node?): set<Node>
    requires Tree(m, root, g) && (n != null ==> n in m)
    decreases Width(g, n)
  {
    if n == null then {}
    else
      assert NodeLinked(m, root, n) && NodeOrdered(m, g, n);
      {n} + Under(m, root, g, m[n].left) + Under(m, root, g, m[n].right)
  }

  lemma {:induction false} UnderInside(m: Mem, root: Node?, g: map<Node, Range>, n: Node?, x: Node)
    requires Tree(m, root, g) && (n != null ==> n in m) && x in Under(m, root, g, n)
    ensures x in m && n != null && n in g && x in g && g[n].lo <= g[x].lo && g[x].hi <= g[n].hi
    decreases Width(g, n)
  {
    assert NodeLinked(m, root, n) && NodeOrdered(m, g, n);
    if x in Under(m, root, g, m[n].left) {
      UnderInside(m, root, g, m[n].left, x);
    } else if x in Under(m, root, g, m[n].right) {
      UnderInside(m, root, g, m[n].right, x);
    }
  }

  /** A subtree contains the children of its nodes. */
  lemma {:induction false} UnderIsClosed(m: Mem, root: Node?, g: map<Node, Range>, n: Node?, x: Node, d: Dir)
    requires Tree(m, root, g) && (n != null ==> n in m) && x in Under(m, root, g, n)
    ensures x in m && (Child(m[x], d) != null ==> Child(m[x], d) in Under(m, root, g, n))
    decreases Width(g, n)
  {
    assert NodeLinked(m, root, n) && NodeOrdered(m, g, n);
    if x in Under(m, root, g, m[n].left) {
      UnderIsClosed(m, root, g, m[n].left, x, d);
    } else if x in Under(m, root, g, m[n].right) {
      UnderIsClosed(m, root, g, m[n].right, x, d);
    } else {
      var c := Child(m[n], d);
      assert c != null ==> c in Under(m, root, g, c);
    }
  }

  ghost function Wider(m: Mem, g: map<Node, Range>, n: Node): set<Node> {
    set x | x in m && Width(g, x) > Width(g, n)
  }

  lemma SmallerSet<T>(s: set<T>, t: set<T>)
    requires s < t
    ensures |s| < |t|
  {
    assert t == s + (t - s);
  }

  lemma ParentIsWider(m: Mem, root: Node?, g: map<Node, Range>, n: Node)
    requires Tree(m, root, g) && n in m && m[n].parent != null
    ensures m[n].parent in m && Wider(m, g, m[n].parent) < Wider(m, g, n)
  {
    var p := m[n].parent;
    assert NodeLinked(m, root, n) && NodeOrdered(m, g, p) && NodeOrdered(m, g, n);
    assert p in Wider(m, g, n) && p !in Wider(m, g, p);
  }

  /** Every node can be reached from the root. */
  lemma {:induction false} RootReachesAll(m: Mem, root: Node?, g: map<Node, Range>, n: Node)
    requires Tree(m, root, g) && n in m
    ensures root != null && n in Under(m, root, g, root)
    decreases Wider(m, g, n)
  {
    assert NodeLinked(m, root, n);
    var p := m[n].parent;
    if p != null {
      ParentIsWider(m, root, g, n);
      RootReachesAll(m, root, g, p);
      UnderIsClosed(m, root, g, root, p, LEFT);
      UnderIsClosed(m, root, g, root, p, RIGHT);
    }
  }

  /** The search for a key goes to the side on which its node is. */
  lemma SearchStep(m: Mem, root: Node?, g: map<Node, Range>, n: Node, x: Node)
    requires Tree(m, root, g) && n in m && x in Under(m, root, g, n)
    ensures x in m && ChildLinked(m, n, m[n].left) && ChildLinked(m, n, m[n].right)
    ensures Key(m[x]) < Key(m[n]) ==> x in Under(m, root, g, m[n].left)
    ensures Key(m[n]) < Key(m[x]) ==> x in Under(m, root, g, m[n].right)
    ensures Key(m[n]) == Key(m[x]) ==> x == n
  {
    assert NodeLinked(m, root, n) && NodeOrdered(m, g, n);
    UnderInside(m, root, g, n, x);
    assert NodeOrdered(m, g, x);
    if x in Under(m, root, g, m[n].left) {
      UnderInside(m, root, g, m[n].left, x);
    } else if x in Under(m, root, g, m[n].right) {
      UnderInside(m, root, g, m[n].right, x);
    }
  }

  /** A node with the key `k`, if there is one, is below `n`. */
  ghost predicate Seeks(m: Mem, root: Node?, g: map<Node, Range>, n: Node?, k: int) {
    && Tree(m, root, g) && (n != null ==> n in m)
    && forall x :: x in m && Key(m[x]) == k ==> x in Under(m, root, g, n)
  }

  lemma SeekBegins(m: Mem, root: Node?, g: map<Node, Range>, k: int)
    requires Tree(m, root, g)
    ensures Seeks(m, root, g, root, k)
  {
    forall x | x in m && Key(m[x]) == k
      ensures x in Under(m, root, g, root)
    {
      RootReachesAll(m, root, g, x);
    }
  }

  lemma SeekStep(m: Mem, root: Node?, g: map<Node, Range>, n: Node, k: int)
    requires Seeks(m, root, g, n, k) && n in m && Key(m[n]) != k
    ensures var c := if Key(m[n]) < k then m[n].right else m[n].left;
            Seeks(m, root, g, c, k) && Width(g, c) < Width(g, n) && 0 <= Width(g, c)
  {
    assert NodeLinked(m, root, n) && NodeOrdered(m, g, n);
    var c := if Key(m[n]) < k then m[n].right else m[n].left;
    if c != null {
      assert NodeOrdered(m, g, c);
    }
    forall x | x in m && Key(m[x]) == k
      ensures x in Under(m, root, g, c)
    {
      SearchStep(m, root, g, n, x);
    }
  }

  /** No two nodes have the same key. */
  lemma {:induction false} KeysDifferUnder(m: Mem, root: Node?, g: map<Node, Range>, n: Node?, x: Node, y: Node)
    requires Tree(m, root, g) && (n != null ==> n in m)
    requires x in Under(m, root, g, n) && y in Under(m, root, g, n)
    ensures x in m && y in m && (Key(m[x]) == Key(m[y]) ==> x == y)
    decreases Width(g, n)
  {
    assert NodeLinked(m, root, n) && NodeOrdered(m, g, n);
    SearchStep(m, root, g, n, x);
    SearchStep(m, root, g, n, y);
    if Key(m[x]) == Key(m[y]) && x != n {
      KeysDifferUnder(m, root, g, if Key(m[x]) < Key(m[n]) then m[n].left else m[n].right, x, y);
    }
  }

  lemma KeysDiffer(m: Mem, root: Node?, g: map<Node, Range>, x: Node, y: Node)
    requires Tree(m, root, g) && x in m && y in m && Key(m[x]) == Key(m[y])
    ensures x == y
  {
    RootReachesAll(m, root, g, x);
    RootReachesAll(m, root, g, y);
    KeysDifferUnder(m, root, g, root, x, y);
  }

  /** A node outside a subtree has a key outside its range. */
  lemma {:induction false} OutsideRange(m: Mem, root: Node?, g: map<Node, Range>, n: Node, x: Node)
    requires Tree(m, root, g) && n in m && x in m && x !in Under(m, root, g, n)
    ensures n in g
    ensures Key(m[x]) <= g[n].lo || g[n].hi <= Key(m[x])
    decreases Wider(m, g, n)
  {
    assert NodeLinked(m, root, n) && NodeOrdered(m, g, n);
    var p := m[n].parent;
    if p == null {
      RootReachesAll(m, root, g, x);
    } else {
      ParentIsWider(m, root, g, n);
      assert NodeLinked(m, root, p) && NodeOrdered(m, g, p);
      if x in Under(m, root, g, p) {
        SearchStep(m, root, g, p, x);
      } else {
        OutsideRange(m, root, g, p, x);
      }
    }
  }

  // ---------- neighbours ----------

  /** `y` holds the smallest key above that of `x`. */
  ghost predicate IsNext(m: Mem, x: Node, y: Node) {
    && x in m && y in m && Key(m[x]) < Key(m[y])
    && forall z :: z in m && Key(m[x]) < Key(m[z]) ==> Key(m[y]) <= Key(m[z])
  }

  ghost predicate IsLeast(m: Mem, y: Node) {
    y in m && forall z :: z in m ==> Key(m[y]) <= Key(m[z])
  }

  ghost predicate IsLeastUnder(m: Mem, root: Node?, g: map<Node, Range>, n: Node, y: Node)
    requires Tree(m, root, g) && n in m
  {
    y in Under(m, root, g, n) && y in m && m[y].left == null
    && forall z :: z in Under(m, root, g, n) ==> z in m && Key(m[y]) <= Key(m[z])
  }

  /** The leftmost node of a subtree is its least one. */
  lemma LeastStep(m: Mem, root: Node?, g: map<Node, Range>, n: Node, y: Node)
    requires Tree(m, root, g) && n in m
    ensures m[n].left == null ==> IsLeastUnder(m, root, g, n, n)
    ensures m[n].left != null ==> m[n].left in m
    ensures m[n].left != null && IsLeastUnder(m, root, g, m[n].left, y) ==> IsLeastUnder(m, root, g, n, y)
  {
    assert NodeLinked(m, root, n) && NodeOrdered(m, g, n);
    forall z | z in Under(m, root, g, n)
      ensures z in m
      ensures m[n].left == null ==> Key(m[n]) <= Key(m[z])
      ensures m[n].left != null && IsLeastUnder(m, root, g, m[n].left, y) ==> Key(m[y]) <= Key(m[z])
    {
      SearchStep(m, root, g, n, z);
      if m[n].left != null && IsLeastUnder(m, root, g, m[n].left, y) {
        SearchStep(m, root, g, n, y);
        UnderInside(m, root, g, m[n].left, y);
        assert NodeOrdered(m, g, y);
      }
    }
  }

  /** With a right child, the next node is the least of the right subtree. */
  lemma NextInRightSubtree(m: Mem, root: Node?, g: map<Node, Range>, x: Node, y: Node)
    requires Tree(m, root, g) && x in m && m[x].right != null && m[x].right in m
    requires IsLeastUnder(m, root, g, m[x].right, y)
    ensures IsNext(m, x, y) && y != x && y in g && g[y].lo >= Key(m[x]) && y in Under(m, root, g, x)
  {
    assert NodeLinked(m, root, x) && NodeOrdered(m, g, x);
    UnderInside(m, root, g, m[x].right, y);
    assert NodeOrdered(m, g, y);
    forall z | z in m && Key(m[x]) < Key(m[z])
      ensures Key(m[y]) <= Key(m[z])
    {
      if z in Under(m, root, g, x) {
        SearchStep(m, root, g, x, z);
      } else {
        OutsideRange(m, root, g, x, z);
      }
    }
  }

  /** `x` holds the largest key of the subtree at `n`. */
  ghost predicate IsGreatestUnder(m: Mem, root: Node?, g: map<Node, Range>, n: Node, x: Node)
    requires Tree(m, root, g) && n in m
  {
    x in Under(m, root, g, n) && x in m && forall z :: z in Under(m, root, g, n) ==> z in m && Key(m[z]) <= Key(m[x])
  }

  lemma GreatestBegins(m: Mem, root: Node?, g: map<Node, Range>, x: Node)
    requires Tree(m, root, g) && x in m && m[x].right == null
    ensures IsGreatestUnder(m, root, g, x, x)
  {
    assert NodeLinked(m, root, x);
    forall z | z in Under(m, root, g, x)
      ensures z in m && Key(m[z]) <= Key(m[x])
    {
      SearchStep(m, root, g, x, z);
    }
  }

  /** Going up from a right child, the greatest node stays the greatest. */
  lemma GreatestFromRight(m: Mem, root: Node?, g: map<Node, Range>, n: Node, x: Node)
    requires Tree(m, root, g) && n in m && IsGreatestUnder(m, root, g, n, x)
    requires m[n].parent != null && m[n].parent in m && m[m[n].parent].right == n
    ensures IsGreatestUnder(m, root, g, m[n].parent, x)
  {
    var p := m[n].parent;
    assert NodeLinked(m, root, p) && NodeOrdered(m, g, p);
    UnderInside(m, root, g, n, x);
    assert NodeOrdered(m, g, x);
    forall z | z in Under(m, root, g, p)
      ensures z in m && Key(m[z]) <= Key(m[x])
    {
      SearchStep(m, root, g, p, z);
    }
  }

  /** From a left child, the next node is the parent. */
  lemma NextFromLeft(m: Mem, root: Node?, g: map<Node, Range>, n: Node, x: Node)
    requires Tree(m, root, g) && n in m && IsGreatestUnder(m, root, g, n, x)
    requires m[n].parent != null && m[n].parent in m && m[m[n].parent].left == n
    ensures IsNext(m, x, m[n].parent)
  {
    var p := m[n].parent;
    assert NodeLinked(m, root, p) && NodeOrdered(m, g, p);
    UnderInside(m, root, g, n, x);
    assert NodeOrdered(m, g, x);
    forall z | z in m && Key(m[x]) < Key(m[z])
      ensures Key(m[p]) <= Key(m[z])
    {
      if z in Under(m, root, g, p) {
        SearchStep(m, root, g, p, z);
      } else {
        OutsideRange(m, root, g, p, z);
      }
    }
  }

  lemma GreatestOfAll(m: Mem, root: Node?, g: map<Node, Range>, n: Node, x: Node)
    requires Tree(m, root, g) && n in m && IsGreatestUnder(m, root, g, n, x) && m[n].parent == null
    ensures forall z :: z in m ==> Key(m[z]) <= Key(m[x])
  {
    assert NodeLinked(m, root, n);
    forall z | z in m
      ensures Key(m[z]) <= Key(m[x])
    {
      RootReachesAll(m, root, g, z);
    }
  }

  // ---------- height ----------

  ghost function Levels(m: Mem, root: Node?, g: map<Node, Range>, n: Node?): nat
    requires Tree(m, root, g) && (n != null ==> n in m)
    decreases Width(g, n)
  {
    if n == null then 0
    else
      assert NodeLinked(m, root, n) && NodeOrdered(m, g, n);
      var l, r := Levels(m, root, g, m[n].left), Levels(m, root, g, m[n].right);
      1 + if l < r then r else l
  }

  function Pow2(n: nat): nat {
    if n == 0 then 1 else 2 * Pow2(n - 1)
  }

  lemma {:induction false} UnderDisjoint(m: Mem, root: Node?, g: map<Node, Range>, n: Node)
    requires Tree(m, root, g) && n in m
    ensures ChildLinked(m, n, m[n].left) && ChildLinked(m, n, m[n].right)
    ensures Under(m, root, g, m[n].left) !! Under(m, root, g, m[n].right)
    ensures n !in Under(m, root, g, m[n].left) && n !in Under(m, root, g, m[n].right)
  {
    assert NodeLinked(m, root, n) && NodeOrdered(m, g, n);
    forall x | x in Under(m, root, g, m[n].left)
      ensures x in m && Key(m[x]) < Key(m[n])
    {
      UnderInside(m, root, g, m[n].left, x);
      assert NodeOrdered(m, g, x);
    }
    forall x | x in Under(m, root, g, m[n].right)
      ensures x in m && Key(m[n]) < Key(m[x])
    {
      UnderInside(m, root, g, m[n].right, x);
      assert NodeOrdered(m, g, x);
    }
  }

  lemma UnderSize(m: Mem, root: Node?, g: map<Node, Range>, n: Node)
    requires Tree(m, root, g) && n in m
    ensures ChildLinked(m, n, m[n].left) && ChildLinked(m, n, m[n].right)
    ensures |Under(m, root, g, n)| == 1 + |Under(m, root, g, m[n].left)| + |Under(m, root, g, m[n].right)|
  {
    assert NodeLinked(m, root, n) && NodeOrdered(m, g, n);
    UnderDisjoint(m, root, g, n);
    CardinalityOfThree(n, Under(m, root, g, m[n].left), Under(m, root, g, m[n].right));
  }

  lemma CardinalityOfThree(n: Node, s: set<Node>, t: set<Node>)
    requires s !! t && n !in s && n !in t
    ensures |{n} + s + t| == 1 + |s| + |t|
  {
    assert |{n} + s| == 1 + |s|;
  }

  lemma ChildHeights(m: Mem, h: map<Node, nat>, n: Node, a: nat, b: nat)
    requires n in m && NodeBalanced(m, h, n)
    requires a + 1 >= Pow2(Height(h, m[n].left)) && b + 1 >= Pow2(Height(h, m[n].right))
    ensures 1 + a + b + 1 >= Pow2(Height(h, n))
  {
  }

  /** A subtree of black height k has at least 2^k - 1 nodes. */
  lemma {:induction false} EnoughNodes(m: Mem, root: Node?, g: map<Node, Range>, h: map<Node, nat>, n: Node?)
    requires Tree(m, root, g) && Balanced(m, h) && (n != null ==> n in m)
    ensures |Under(m, root, g, n)| + 1 >= Pow2(Height(h, n))
    decreases Width(g, n)
  {
    if n != null {
      UnderSize(m, root, g, n);
      assert NodeOrdered(m, g, n) && NodeBalanced(m, h, n);
      EnoughNodes(m, root, g, h, m[n].left);
      EnoughNodes(m, root, g, h, m[n].right);
      ChildHeights(m, h, n, |Under(m, root, g, m[n].left)|, |Under(m, root, g, m[n].right)|);
    }
  }

  /** A subtree of black height k has at most 2k levels, one more if it is red. */
  lemma {:induction false} FewLevels(m: Mem, root: Node?, g: map<Node, Range>, h: map<Node, nat>, n: Node?)
    requires Tree(m, root, g) && NoRedRed(m) && Balanced(m, h) && (n != null ==> n in m)
    ensures Levels(m, root, g, n) <= 2 * Height(h, n) + if IsRed(m, n) then 1 else 0
    decreases Width(g, n)
  {
    if n != null {
      assert NodeLinked(m, root, n) && NodeOrdered(m, g, n) && NodeBalanced(m, h, n);
      FewLevels(m, root, g, h, m[n].left);
      FewLevels(m, root, g, h, m[n].right);
      assert m[n].red ==> !IsRed(m, Child(m[n], LEFT)) && !IsRed(m, Child(m[n], RIGHT));
    }
  }

  lemma {:induction false} Pow2Monotonic(a: nat, b: nat)
    requires a <= b
    ensures Pow2(a) <= Pow2(b)
  {
    if a < b {
      Pow2Monotonic(a, b - 1);
    }
  }

  lemma {:induction false} Pow2Square(k: nat)
    ensures Pow2(2 * k) == Pow2(k) * Pow2(k)
  {
    if k != 0 {
      Pow2Square(k - 1);
      assert Pow2(2 * k) == 4 * Pow2(2 * (k - 1));
    }
  }

  lemma SquareMonotonic(a: nat, b: nat)
    requires a <= b
    ensures a * a <= b * b
  {
  }

  /** The number of levels is at most 2 log2 (n + 1). */
  lemma LogarithmicHeight(m: Mem, root: Node?, g: map<Node, Range>, h: map<Node, nat>)
    requires RedBlack(m, root, g, h)
    ensures Pow2(Levels(m, root, g, root)) <= (|m| + 1) * (|m| + 1)
  {
    EnoughNodes(m, root, g, h, root);
    FewLevels(m, root, g, h, root);
    var k := Height(h, root);
    var nodes := Under(m, root, g, root);
    forall x | x in nodes
      ensures x in m.Keys
    {
      UnderInside(m, root, g, root, x);
    }
    forall x | x in m.Keys
      ensures x in nodes
    {
      RootReachesAll(m, root, g, x);
    }
    assert nodes == m.Keys;
    Pow2Monotonic(Levels(m, root, g, root), 2 * k);
    Pow2Square(k);
    SquareMonotonic(Pow2(k), |m| + 1);
  }
}
