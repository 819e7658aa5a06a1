/**
 Recolouring and rotation together, as rebalancing uses them: what they do to colours and black heights.
 A subtree may be one short: `BalancedBut(m, h, q, e)` says that all paths agree except that those through
 the child of `q` on side `e` have one black node too few.
 */
module TreeBalance {
  import opened TreeNodes
  import opened TreeRotation

  // ---------- recolouring ----------

  ghost function Paint(m: Mem, n: Node, red: bool): Mem
    requires n in m
  {
    m[n := m[n].(red := red)]
  }

  /** The two differ in colours only. */
  ghost predicate SameShape(m: Mem, r: Mem) {
    r.Keys == m.Keys && forall n :: n in m ==> r[n] == m[n].(red := r[n].red)
  }

  lemma ShapeKeepsTree(m: Mem, r: Mem, root: Node?, g: map<Node, Range>)
    requires Linked(m, root) && Ordered(m, g) && SameShape(m, r)
    ensures Linked(r, root) && Ordered(r, g) && SameNodes(m, r)
  {
    forall n | n in r
      ensures NodeLinked(r, root, n)
    {
      assert NodeLinked(m, root, n);
    }
    forall n | n in r
      ensures NodeOrdered(r, g, n)
    {
      assert NodeOrdered(m, g, n);
    }
  }

  // ---------- heights ----------

  ghost predicate NodeShort(m: Mem, h: map<Node, nat>, n: Node, e: Dir)
    requires n in m
  {
    && n in h
    && Height(h, Child(m[n], e)) + 1 == Height(h, Child(m[n], Opp(e)))
    && h[n] == Height(h, Child(m[n], Opp(e))) + Black(m[n])
  }

  ghost predicate NodeBalancedBut(m: Mem, h: map<Node, nat>, q: Node?, e: Dir, n: Node)
    requires n in m
  {
    if n == q then NodeShort(m, h, n, e) else NodeBalanced(m, h, n)
  }

  ghost predicate BalancedBut(m: Mem, h: map<Node, nat>, q: Node?, e: Dir) {
    forall n {:trigger NodeBalancedBut(m, h, q, e, n)} :: n in m ==> NodeBalancedBut(m, h, q, e, n)
  }

  lemma BalancedButNone(m: Mem, h: map<Node, nat>, e: Dir)
    ensures BalancedBut(m, h, null, e) <==> Balanced(m, h)
  {
    if BalancedBut(m, h, null, e) {
      forall n | n in m
        ensures NodeBalanced(m, h, n)
      {
        assert NodeBalancedBut(m, h, null, e, n);
      }
    }
  }

  // ---------- a red child changes colours with its black parent and is turned up over it ----------

  ghost predicate CanSwapTurn(m: Mem, x: Node, d: Dir) {
    CanRotate(m, x, d) && !m[x].red && m[Riser(m, x, d)].red
  }

  ghost function Swapped(m: Mem, x: Node, d: Dir): Mem
    requires CanRotate(m, x, d)
  {
    var y := Riser(m, x, d);
    m[y := m[y].(red := false)][x := m[x].(red := true)]
  }

  ghost function SwapTurn(m: Mem, x: Node, d: Dir): Mem
    requires CanRotate(m, x, d) && Riser(m, x, d) != x
  {
    Rotate(Swapped(m, x, d), x, d)
  }

  ghost function SwappedHeights(h: map<Node, nat>, x: Node, y: Node): map<Node, nat>
    requires x in h && y in h
  {
    h[x := h[y]][y := h[x]]
  }

  /** The turned tree, node by node, compared with the tree before its colours changed. */
  lemma SwapTurns(m: Mem, root: Node?, g: map<Node, Range>, x: Node, d: Dir)
    requires Linked(m, root) && Ordered(m, g) && CanRotate(m, x, d)
    ensures var y := Riser(m, x, d);
            && y != x
            && SameShape(m, Swapped(m, x, d))
            && Linked(Swapped(m, x, d), root) && Ordered(Swapped(m, x, d), g)
            && Turned(Swapped(m, x, d), SwapTurn(m, x, d), x, y, Child(m[y], d), m[x].parent, d)
  {
    RotationNodes(m, root, g, x, d);
    var m1 := Swapped(m, x, d);
    ShapeKeepsTree(m, m1, root, g);
    RotateTurns(m1, root, g, x, d);
  }

  lemma SwapTurnKeepsTree(m: Mem, root: Node?, g: map<Node, Range>, x: Node, d: Dir)
    requires Linked(m, root) && Ordered(m, g) && CanRotate(m, x, d) && x in g
    ensures Riser(m, x, d) != x
    ensures var r := SwapTurn(m, x, d);
            && Linked(r, RotatedRoot(m, root, x, d))
            && Ordered(r, RotatedRanges(m, g, x, d))
            && SameNodes(m, r)
  {
    SwapTurns(m, root, g, x, d);
    var m1 := Swapped(m, x, d);
    RotationKeepsLinks(m1, root, g, x, d);
    RotationKeepsOrder(m1, root, g, x, d);
    RotationKeepsContents(m1, root, g, x, d);
    assert RotatedRanges(m, g, x, d) == RotatedRanges(m1, g, x, d);
  }

  /** `x` is red and `y` is black; the other nodes keep their colours. */
  ghost predicate Recoloured(m: Mem, r: Mem, x: Node, y: Node) {
    r.Keys == m.Keys && x in r && y in r && r[x].red && !r[y].red
    && forall n :: n in m && n != x && n != y ==> r[n].red == m[n].red
  }

  lemma SwapTurnRecolours(m: Mem, root: Node?, g: map<Node, Range>, x: Node, d: Dir)
    requires Linked(m, root) && Ordered(m, g) && CanSwapTurn(m, x, d)
    ensures Riser(m, x, d) != x
    ensures Recoloured(m, SwapTurn(m, x, d), x, Riser(m, x, d))
  {
    SwapTurns(m, root, g, x, d);
  }

  /** No red node of the turned tree has a red child. */
  lemma SwapTurnColours(m: Mem, root: Node?, g: map<Node, Range>, x: Node, d: Dir)
    requires Linked(m, root) && Ordered(m, g) && CanSwapTurn(m, x, d)
    requires !IsRed(m, Child(m[x], d)) && !IsRed(m, Child(m[Riser(m, x, d)], d))
    requires NoRedRedBut(m, Riser(m, x, d))
    ensures Riser(m, x, d) != x
    ensures NoRedRed(SwapTurn(m, x, d))
  {
    SwapTurns(m, root, g, x, d);
    SwapTurnRecolours(m, root, g, x, d);
    SmallerRange(m, g, x, d);
    var y := Riser(m, x, d);
    var r := SwapTurn(m, x, d);
    forall n, e | n in r && r[n].red
      ensures !IsRed(r, Child(r[n], e))
    {
      if n != x {
        assert NodeLinked(m, root, n);
        TurnedOthersRed(m, Swapped(m, x, d), r, x, y, Child(m[y], d), m[x].parent, d, root, n, e);
      }
    }
  }

  lemma TurnedOthersRed(m: Mem, m1: Mem, r: Mem, x: Node, y: Node, b: Node?, p: Node?, d: Dir,
                        root: Node?, n: Node, e: Dir)
    requires Turned(m1, r, x, y, b, p, d) && SameShape(m, m1) && Recoloured(m, r, x, y)
    requires n in m && n != x && n != y && m[n].red && NodeLinked(m, root, n)
    requires NoRedRedBut(m, y)
    ensures !IsRed(r, Child(r[n], e))
  {
    assert !IsRed(m, Child(m[n], e));
    assert Child(m1[n], e) == Child(m[n], e);
  }

  /** The heights of the two change places, and a short place stays where it is. */
  lemma SwapTurnHeights(m: Mem, root: Node?, g: map<Node, Range>, x: Node, d: Dir,
                        h: map<Node, nat>, q: Node?, e: Dir)
    requires Linked(m, root) && Ordered(m, g) && CanSwapTurn(m, x, d) && BalancedBut(m, h, q, e)
    requires q != Riser(m, x, d) && (q == x ==> e == d)
    ensures Riser(m, x, d) != x && x in h && Riser(m, x, d) in h
    ensures BalancedBut(SwapTurn(m, x, d), SwappedHeights(h, x, Riser(m, x, d)), q, e)
  {
    SwapTurns(m, root, g, x, d);
    var y := Riser(m, x, d);
    var r := SwapTurn(m, x, d);
    assert NodeBalancedBut(m, h, q, e, x) && NodeBalancedBut(m, h, q, e, y);
    var h' := SwappedHeights(h, x, y);
    OuterChildren(m, root, g, x, d);
    SwapTurnPairHeights(m, Swapped(m, x, d), r, x, y, d, Child(m[y], d), m[x].parent, h, q, e);
    forall n | n in r
      ensures NodeBalancedBut(r, h', q, e, n)
    {
      if n != x && n != y {
        assert NodeBalancedBut(m, h, q, e, n) && NodeLinked(m, root, n);
        SwapTurnOtherHeights(m, r, x, y, d, h, q, e, root, n);
      }
    }
  }

  lemma SwapTurnOtherHeights(m: Mem, r: Mem, x: Node, y: Node, d: Dir, h: map<Node, nat>, q: Node?, e: Dir,
                             root: Node?, n: Node)
    requires CanRotate(m, x, d) && y == Riser(m, x, d) && x in h && y in h && x != y
    requires Turned(Swapped(m, x, d), r, x, y, Child(m[y], d), m[x].parent, d)
    requires n in m && n != x && n != y && NodeBalancedBut(m, h, q, e, n) && NodeLinked(m, root, n)
    ensures NodeBalancedBut(r, SwappedHeights(h, x, y), q, e, n)
  {
    hide Turned, NodeLinked, NodeBalancedBut;
    var m1 := Swapped(m, x, d);
    assert m1[n] == m[n];
    NodeLinkedSame(m, m1, root, n);
    SameNodeBalanced(m, m1, h, q, e, n);
    TurnedOthersBalanced(m1, r, x, y, Child(m[y], d), m[x].parent, d, h, SwappedHeights(h, x, y), q, e, root, n);
  }

  lemma SameNodeBalanced(m: Mem, m1: Mem, h: map<Node, nat>, q: Node?, e: Dir, n: Node)
    requires n in m && n in m1 && m1[n] == m[n] && NodeBalancedBut(m, h, q, e, n)
    ensures NodeBalancedBut(m1, h, q, e, n) && n in h
  {
  }

  lemma NodeLinkedSame(m: Mem, m1: Mem, root: Node?, n: Node)
    requires n in m && NodeLinked(m, root, n) && SameShape(m, m1)
    ensures NodeLinked(m1, root, n)
  {
  }

  /** A node that is not one of the two sees, if anything, the one in place of the other at the same height. */
  lemma TurnedOthersBalanced(m: Mem, r: Mem, x: Node, y: Node, b: Node?, p: Node?, d: Dir,
                             h: map<Node, nat>, h': map<Node, nat>, q: Node?, e: Dir, root: Node?, n: Node)
    requires Turned(m, r, x, y, b, p, d) && n in m && n != x && n != y
    requires NodeBalancedBut(m, h, q, e, n) && NodeLinked(m, root, n)
    requires x in h && y in h' && h'[y] == h[x]
    requires m[n].left != x && m[n].left != y ==> Height(h', m[n].left) == Height(h, m[n].left)
    requires m[n].right != x && m[n].right != y ==> Height(h', m[n].right) == Height(h, m[n].right)
    requires n in h' && h'[n] == h[n]
    ensures NodeBalancedBut(r, h', q, e, n)
  {
  }

  /** The outer children of the two are neither of the two. */
  lemma OuterChildren(m: Mem, root: Node?, g: map<Node, Range>, x: Node, d: Dir)
    requires Linked(m, root) && Ordered(m, g) && CanRotate(m, x, d)
    ensures var y := Riser(m, x, d);
            var a, c := Child(m[x], d), Child(m[y], Opp(d));
            a != x && a != y && c != x && c != y
  {
    var y := Riser(m, x, d);
    assert NodeLinked(m, root, x) && NodeLinked(m, root, y);
    SmallerRange(m, g, x, d);
    SmallerRange(m, g, x, Opp(d));
    SmallerRange(m, g, y, Opp(d));
  }

  lemma SwapTurnPairHeights(m: Mem, m1: Mem, r: Mem, x: Node, y: Node, d: Dir, b: Node?, p: Node?,
                            h: map<Node, nat>, q: Node?, e: Dir)
    requires Turned(m1, r, x, y, b, p, d) && SameShape(m, m1)
    requires !m[x].red && m[y].red && m1[x].red && !m1[y].red
    requires var a, c := Child(m[x], d), Child(m[y], Opp(d));
             a != x && a != y && c != x && c != y
    requires NodeBalancedBut(m, h, q, e, x) && NodeBalanced(m, h, y)
    requires q == x ==> e == d
    ensures NodeBalancedBut(r, SwappedHeights(h, x, y), q, e, x)
    ensures NodeBalanced(r, SwappedHeights(h, x, y), y)
  {
  }
}
