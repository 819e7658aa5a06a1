/**
 Rebalancing after a removal. The paths through the child of `q` on side `e`, which is `at` (null when the
 removed node was a leaf), are one black node short. Each step of TreeBARSub removes the shortage, moves it
 up, or prepares for a step that does.
 */
module TreeDelete {
  import opened TreeNodes
  import opened TreeRotation
  import opened TreeBalance
  import opened TreeOrder

  /** What holds of the tree at every turn of TreeBalanceAfterRemove; at the root nothing is short. */
  ghost predicate RemoveInv(m: Mem, root: Node?, g: map<Node, Range>, h: map<Node, nat>, at: Node?, q: Node?, e: Dir) {
    && Linked(m, root) && Ordered(m, g)
    && NoRedRedBut(m, at)
    && (IsRed(m, root) ==> root == at)
    && (at != null ==> at in m && m[at].parent == q)
    && (q != null ==> q in m && Child(m[q], e) == at)
    && (q == null ==> at == root && root != null)
    && BalancedBut(m, h, q, e)
  }

  /** In the loop the node is black, or the stack node. */
  ghost predicate Short(m: Mem, root: Node?, g: map<Node, Range>, h: map<Node, nat>, at: Node?, q: Node, e: Dir) {
    RemoveInv(m, root, g, h, at, q, e) && !IsRed(m, at)
  }

  lemma SiblingFacts(m: Mem, root: Node?, g: map<Node, Range>, h: map<Node, nat>, at: Node?, q: Node, e: Dir)
    requires Short(m, root, g, h, at, q, e)
    ensures var s := Child(m[q], Opp(e));
            && s != null && s in m && s in h && s != q && s != at && h[s] == Height(h, at) + 1 && m[s].parent == q
            && q in g && s in g && q in h
    ensures NoRedRed(m)
    ensures CanRotate(m, q, e) && Riser(m, q, e) == Child(m[q], Opp(e))
    ensures at != q
  {
    assert NodeBalancedBut(m, h, q, e, q);
    assert NodeLinked(m, root, q) && NodeOrdered(m, g, q);
    SmallerRange(m, g, q, Opp(e));
    SmallerRange(m, g, q, e);
  }

  // ---------- a red sibling ----------

  lemma RedSiblingStep(m: Mem, root: Node?, g: map<Node, Range>, h: map<Node, nat>, at: Node?, q: Node, e: Dir)
    requires Short(m, root, g, h, at, q, e)
    requires IsRed(m, Child(m[q], Opp(e)))
    ensures CanSwapTurn(m, q, e) && Riser(m, q, e) != q && q in g && q in h && Riser(m, q, e) in h
    ensures var s := Riser(m, q, e);
            var r := SwapTurn(m, q, e);
            && Short(r, RotatedRoot(m, root, q, e), RotatedRanges(m, g, q, e), SwappedHeights(h, q, s), at, q, e)
            && !IsRed(r, Child(r[q], Opp(e)))
            && SameNodes(m, r) && Recoloured(m, r, q, s)
  {
    SiblingFacts(m, root, g, h, at, q, e);
    var s := Riser(m, q, e);
    assert NodeLinked(m, root, s) && NodeLinked(m, root, q);
    SwapTurnKeepsTree(m, root, g, q, e);
    SwapTurnColours(m, root, g, q, e);
    SwapTurnRecolours(m, root, g, q, e);
    SwapTurnHeights(m, root, g, q, e, h, q, e);
    SwapTurns(m, root, g, q, e);
  }

  // ---------- a black sibling with black children: paint it red and move up ----------

  ghost function LoweredHeights(h: map<Node, nat>, s: Node, q: Node): map<Node, nat>
    requires s in h && q in h && h[s] > 0 && h[q] > 0
  {
    h[s := h[s] - 1][q := h[q] - 1]
  }

  ghost function SideOf(m: Mem, n: Node): Dir
    requires n in m
  {
    var p := m[n].parent;
    if p != null && p in m && m[p].left == n then LEFT else RIGHT
  }

  lemma PaintHeights(m: Mem, root: Node?, h: map<Node, nat>, q: Node, e: Dir, s: Node, n: Node)
    requires Linked(m, root) && BalancedBut(m, h, q, e) && q in m && s in m && s != q && n in m
    requires Child(m[q], Opp(e)) == s && Child(m[q], e) != s && !m[s].red
    requires s in h && q in h && h[s] > 0 && h[q] > 0 && m[s].parent == q
    requires m[q].parent != q && m[s].left != s && m[s].right != s
    ensures NodeBalancedBut(Paint(m, s, true), LoweredHeights(h, s, q), m[q].parent, SideOf(m, q), n)
  {
    assert NodeBalancedBut(m, h, q, e, n);
    assert NodeLinked(m, root, n) && NodeLinked(m, root, q) && NodeLinked(m, root, s);
    assert NodeBalancedBut(m, h, q, e, q) && NodeBalancedBut(m, h, q, e, s);
    if n == s || n == q {
      PaintHeightsPair(m, root, h, q, e, s);
    } else {
      PaintHeightsAbove(m, root, h, q, e, s, n);
    }
  }

  lemma PaintHeightsPair(m: Mem, root: Node?, h: map<Node, nat>, q: Node, e: Dir, s: Node)
    requires q in m && s in m && s != q && NodeShort(m, h, q, e) && NodeBalanced(m, h, s)
    requires NodeLinked(m, root, q) && NodeLinked(m, root, s)
    requires Child(m[q], Opp(e)) == s && Child(m[q], e) != s && !m[s].red
    requires h[s] > 0 && h[q] > 0
    requires m[q].parent != q && m[s].parent == q && m[s].left != s && m[s].right != s
    ensures NodeBalanced(Paint(m, s, true), LoweredHeights(h, s, q), q)
    ensures NodeBalanced(Paint(m, s, true), LoweredHeights(h, s, q), s)
  {
    assert m[s].left != q && m[s].right != q;
    assert Child(m[q], e) != q;
  }

  lemma PaintHeightsAbove(m: Mem, root: Node?, h: map<Node, nat>, q: Node, e: Dir, s: Node, n: Node)
    requires n in m && q in m && s in m && n != s && n != q
    requires NodeBalanced(m, h, n) && NodeLinked(m, root, n) && NodeLinked(m, root, q)
    requires s in h && q in h && h[s] > 0 && h[q] > 0 && m[s].parent == q
    ensures NodeBalancedBut(Paint(m, s, true), LoweredHeights(h, s, q), m[q].parent, SideOf(m, q), n)
  {
    var h' := LoweredHeights(h, s, q);
    assert m[n].left != s && m[n].right != s;
    if n == m[q].parent {
      assert Child(m[n], SideOf(m, q)) == q && Child(m[n], Opp(SideOf(m, q))) != q;
    } else {
      assert m[n].left != q && m[n].right != q;
    }
  }

  lemma BlackNephewsStep(m: Mem, root: Node?, g: map<Node, Range>, h: map<Node, nat>, at: Node?, q: Node, e: Dir)
    requires Short(m, root, g, h, at, q, e)
    requires var s := Child(m[q], Opp(e));
             s != null && s in m && !m[s].red && !IsRed(m, m[s].left) && !IsRed(m, m[s].right)
    ensures var s := Child(m[q], Opp(e));
            && s in h && q in h && h[s] > 0 && h[q] > 0
            && RemoveInv(Paint(m, s, true), root, g, LoweredHeights(h, s, q), q, m[q].parent, SideOf(m, q))
            && SameShape(m, Paint(m, s, true))
  {
    SiblingFacts(m, root, g, h, at, q, e);
    var s := Child(m[q], Opp(e));
    var r := Paint(m, s, true);
    assert NodeLinked(m, root, q) && NodeLinked(m, root, s);
    SmallerRange(m, g, s, LEFT);
    SmallerRange(m, g, s, RIGHT);
    assert m[q].parent != q by {
      if m[q].parent == q {
        SmallerRange(m, g, q, LEFT);
        SmallerRange(m, g, q, RIGHT);
      }
    }
    ShapeKeepsTree(m, r, root, g);
    assert NodeBalancedBut(m, h, q, e, q);
    forall n | n in r
      ensures NodeBalancedBut(r, LoweredHeights(h, s, q), m[q].parent, SideOf(m, q), n)
    {
      PaintHeights(m, root, h, q, e, s, n);
    }
    BlackNephewsColours(m, root, q, s);
  }

  lemma BlackNephewsColours(m: Mem, root: Node?, q: Node, s: Node)
    requires Linked(m, root) && NoRedRed(m) && s in m && m[s].parent == q
    requires !IsRed(m, m[s].left) && !IsRed(m, m[s].right) && m[s].left != s && m[s].right != s
    ensures NoRedRedBut(Paint(m, s, true), q)
  {
    var r := Paint(m, s, true);
    forall n, d | n in r && r[n].red && IsRed(r, Child(r[n], d))
      ensures n == q || Child(r[n], d) == q
    {
      assert NodeLinked(m, root, n);
    }
  }

  // ---------- a black sibling whose far child is black and whose near child is red ----------

  lemma NearNephewStep(m: Mem, root: Node?, g: map<Node, Range>, h: map<Node, nat>, at: Node?, q: Node, e: Dir, s: Node)
    requires Short(m, root, g, h, at, q, e)
    requires Child(m[q], Opp(e)) == s && s in m && !m[s].red
    requires !IsRed(m, Child(m[s], Opp(e))) && IsRed(m, Child(m[s], e))
    ensures CanSwapTurn(m, s, Opp(e)) && Riser(m, s, Opp(e)) != s && s in g && s in h && Riser(m, s, Opp(e)) in h
    ensures var y := Riser(m, s, Opp(e));
            var r := SwapTurn(m, s, Opp(e));
            && Short(r, root, RotatedRanges(m, g, s, Opp(e)), SwappedHeights(h, s, y), at, q, e)
            && Child(r[q], Opp(e)) == y && y in r && !r[y].red && IsRed(r, Child(r[y], Opp(e)))
            && SameNodes(m, r) && Recoloured(m, r, s, y)
  {
    SiblingFacts(m, root, g, h, at, q, e);
    var d := Opp(e);
    var y := Riser(m, s, d);
    assert NodeLinked(m, root, s) && NodeLinked(m, root, q) && NodeLinked(m, root, y);
    SwapTurnKeepsTree(m, root, g, s, d);
    SwapTurnColours(m, root, g, s, d);
    SwapTurnRecolours(m, root, g, s, d);
    SmallerRange(m, g, q, Opp(e));
    assert NodeOrdered(m, g, q) && NodeOrdered(m, g, s);
    SmallerRange(m, g, s, e);
    SwapTurnHeights(m, root, g, s, d, h, q, e);
    SwapTurns(m, root, g, s, d);
  }

  // ---------- a black sibling whose far child is red: the last turn ----------

  /** The sibling takes the colour of `q`; `q` and the far child become black. */
  ghost function Settled(m: Mem, q: Node, s: Node, far: Node): Mem
    requires q in m && s in m && far in m
  {
    m[s := m[s].(red := m[q].red)][q := m[q].(red := false)][far := m[far].(red := false)]
  }

  ghost function SettledHeights(h: map<Node, nat>, q: Node, s: Node, far: Node): map<Node, nat>
    requires q in h && s in h && far in h
  {
    h[q := h[s]][s := h[q]][far := h[far] + 1]
  }

  ghost predicate FarPlace(m: Mem, q: Node, e: Dir, s: Node, far: Node) {
    q in m && s in m && far in m && Child(m[q], Opp(e)) == s && Child(m[s], Opp(e)) == far
  }

  ghost predicate FarNephew(m: Mem, q: Node, e: Dir, s: Node, far: Node) {
    FarPlace(m, q, e, s, far) && !m[s].red && m[far].red
  }

  lemma SettledTurns(m: Mem, root: Node?, g: map<Node, Range>, q: Node, e: Dir, s: Node, far: Node)
    requires Linked(m, root) && Ordered(m, g) && FarPlace(m, q, e, s, far)
    ensures q != s && far != q && far != s && m[far].parent == s && m[s].parent == q
    ensures var m1 := Settled(m, q, s, far);
            && SameShape(m, m1) && CanRotate(m1, q, e) && Riser(m1, q, e) == s && q in g
            && RotatedRoot(m1, root, q, e) == (if m[q].parent == null then s else root)
            && Linked(m1, root) && Ordered(m1, g)
            && Turned(m1, Rotate(m1, q, e), q, s, Child(m[s], e), m[q].parent, e)
  {
    assert NodeLinked(m, root, q) && NodeLinked(m, root, s) && NodeOrdered(m, g, q);
    SmallerRange(m, g, q, Opp(e));
    SmallerRange(m, g, s, Opp(e));
    var m1 := Settled(m, q, s, far);
    ShapeKeepsTree(m, m1, root, g);
    RotateTurns(m1, root, g, q, e);
  }

  lemma SettledKeepsNodes(m: Mem, root: Node?, g: map<Node, Range>, q: Node, e: Dir, s: Node, far: Node)
    requires Linked(m, root) && Ordered(m, g) && FarPlace(m, q, e, s, far)
    ensures CanRotate(Settled(m, q, s, far), q, e)
    ensures SameNodes(m, Rotate(Settled(m, q, s, far), q, e))
  {
    SettledTurns(m, root, g, q, e, s, far);
    RotationKeepsContents(Settled(m, q, s, far), root, g, q, e);
  }

  lemma SettledHeightsPair(m: Mem, r: Mem, root: Node?, g: map<Node, Range>, h: map<Node, nat>, at: Node?,
                           q: Node, e: Dir, s: Node, far: Node)
    requires Linked(m, root) && Ordered(m, g) && BalancedBut(m, h, q, e) && FarNephew(m, q, e, s, far)
    requires Child(m[q], e) == at && q != s && far != q && far != s
    requires Turned(Settled(m, q, s, far), r, q, s, Child(m[s], e), m[q].parent, e)
    ensures q in h && s in h && far in h
    ensures NodeBalanced(r, SettledHeights(h, q, s, far), q)
    ensures NodeBalanced(r, SettledHeights(h, q, s, far), s)
  {
    assert NodeBalancedBut(m, h, q, e, q) && NodeBalancedBut(m, h, q, e, s) && NodeBalancedBut(m, h, q, e, far);
    assert NodeLinked(m, root, q) && NodeLinked(m, root, s);
    SmallerRange(m, g, q, e);
    SmallerRange(m, g, s, e);
    SmallerRange(m, g, s, Opp(e));
    assert at != s && at != q && at != far;
    assert Child(m[s], e) != far && Child(m[s], e) != q && Child(m[s], e) != s;
  }

  lemma SettledBalanced(m: Mem, root: Node?, g: map<Node, Range>, h: map<Node, nat>, at: Node?,
                        q: Node, e: Dir, s: Node, far: Node)
    requires Short(m, root, g, h, at, q, e) && FarNephew(m, q, e, s, far)
    ensures q in h && s in h && far in h && CanRotate(Settled(m, q, s, far), q, e)
    ensures Balanced(Rotate(Settled(m, q, s, far), q, e), SettledHeights(h, q, s, far))
  {
    SettledTurns(m, root, g, q, e, s, far);
    var m1 := Settled(m, q, s, far);
    var r := Rotate(m1, q, e);
    SettledHeightsPair(m, r, root, g, h, at, q, e, s, far);
    var h' := SettledHeights(h, q, s, far);
    forall n | n in r
      ensures NodeBalanced(r, h', n)
    {
      if n != q && n != s {
        assert NodeBalancedBut(m, h, q, e, n) && NodeLinked(m, root, n) && NodeLinked(m1, root, n);
        SettledOther(m, m1, r, root, g, h, q, e, s, far, n);
      }
    }
  }

  lemma SettledOther(m: Mem, m1: Mem, r: Mem, root: Node?, g: map<Node, Range>, h: map<Node, nat>,
                     q: Node, e: Dir, s: Node, far: Node, n: Node)
    requires FarNephew(m, q, e, s, far) && m1 == Settled(m, q, s, far)
    requires Turned(m1, r, q, s, Child(m[s], e), m[q].parent, e)
    requires n in m && n != q && n != s && NodeBalanced(m, h, n) && NodeLinked(m, root, n) && NodeLinked(m1, root, n)
    requires q in h && s in h && far in h && far != q && far != s && m[far].parent == s && Ordered(m, g)
    ensures NodeBalanced(r, SettledHeights(h, q, s, far), n)
  {
    if n == far {
      SettledFar(m, m1, root, g, h, q, s, far);
      SettledFarOther(m1, r, root, h, q, e, s, far, Child(m[s], e), m[q].parent);
    } else {
      assert m[n].left != far && m[n].right != far;
      SettledPlain(m1, r, root, h, q, e, s, far, Child(m[s], e), m[q].parent, n);
    }
  }

  lemma SettledFarOther(m1: Mem, r: Mem, root: Node?, h: map<Node, nat>, q: Node, e: Dir, s: Node, far: Node,
                        b: Node?, p: Node?)
    requires Turned(m1, r, q, s, b, p, e) && far in m1 && far != q && far != s
    requires q in h && s in h && far in h
    requires NodeBalanced(m1, h[far := h[far] + 1], far) && NodeLinked(m1, root, far)
    requires m1[far].left != far && m1[far].right != far
    ensures NodeBalanced(r, SettledHeights(h, q, s, far), far)
  {
    TurnedOthersBalanced(m1, r, q, s, b, p, e, h[far := h[far] + 1], SettledHeights(h, q, s, far), null, e, root, far);
  }

  lemma SettledPlain(m1: Mem, r: Mem, root: Node?, h: map<Node, nat>, q: Node, e: Dir, s: Node, far: Node,
                     b: Node?, p: Node?, n: Node)
    requires Turned(m1, r, q, s, b, p, e) && n in m1 && n != q && n != s && n != far && far != q && far != s
    requires q in h && s in h && far in h
    requires NodeBalanced(m1, h, n) && NodeLinked(m1, root, n)
    requires m1[n].left != far && m1[n].right != far
    ensures NodeBalanced(r, SettledHeights(h, q, s, far), n)
  {
    TurnedOthersBalanced(m1, r, q, s, b, p, e, h, SettledHeights(h, q, s, far), null, e, root, n);
  }

  lemma SettledFar(m: Mem, m1: Mem, root: Node?, g: map<Node, Range>, h: map<Node, nat>, q: Node, s: Node, far: Node)
    requires q in m && s in m && far in m && m1 == Settled(m, q, s, far)
    requires far != q && far != s && m[far].red && NodeBalanced(m, h, far) && NodeLinked(m, root, far) && Ordered(m, g)
    ensures NodeBalanced(m1, h[far := h[far] + 1], far)
    ensures m[far].left != far && m[far].right != far
  {
    SmallerRange(m, g, far, LEFT);
    SmallerRange(m, g, far, RIGHT);
  }

  lemma SettledColours(m: Mem, root: Node?, g: map<Node, Range>, h: map<Node, nat>, at: Node?,
                       q: Node, e: Dir, s: Node, far: Node)
    requires Short(m, root, g, h, at, q, e) && FarNephew(m, q, e, s, far)
    ensures CanRotate(Settled(m, q, s, far), q, e)
    ensures var r := Rotate(Settled(m, q, s, far), q, e);
            NoRedRed(r) && !IsRed(r, if m[q].parent == null then s else root)
  {
    SiblingFacts(m, root, g, h, at, q, e);
    SettledTurns(m, root, g, q, e, s, far);
    var m1 := Settled(m, q, s, far);
    var r := Rotate(m1, q, e);
    forall n, d | n in r && r[n].red
      ensures !IsRed(r, Child(r[n], d))
    {
      assert NodeLinked(m, root, n) && NodeLinked(m, root, q) && NodeLinked(m, root, s);
      SettledColour(m, m1, r, root, q, e, s, far, n, d);
    }
  }

  lemma SettledColour(m: Mem, m1: Mem, r: Mem, root: Node?, q: Node, e: Dir, s: Node, far: Node, n: Node, d: Dir)
    requires FarNephew(m, q, e, s, far) && m1 == Settled(m, q, s, far)
    requires Turned(m1, r, q, s, Child(m[s], e), m[q].parent, e) && NoRedRed(m)
    requires n in m && r[n].red && NodeLinked(m, root, n) && NodeLinked(m, root, q) && NodeLinked(m, root, s)
    requires far != q && far != s
    ensures !IsRed(r, Child(r[n], d))
  {
    hide NoRedRed;
    if n == s {
      SettledSibling(m, m1, r, root, q, e, s, far, d);
    } else {
      BlackUnderRed(m, root, q);
      NoRedChild(m, n, d);
      assert Child(m1[n], d) == Child(m[n], d);
    }
  }

  lemma NoRedChild(m: Mem, n: Node, d: Dir)
    requires NoRedRed(m) && n in m
    ensures m[n].red ==> !IsRed(m, Child(m[n], d))
  {
  }

  lemma BlackUnderRed(m: Mem, root: Node?, q: Node)
    requires NoRedRed(m) && q in m && NodeLinked(m, root, q)
    ensures m[q].parent != null ==> m[q].parent in m && (m[m[q].parent].red ==> !m[q].red)
  {
    if m[q].parent != null {
      NoRedChild(m, m[q].parent, LEFT);
      NoRedChild(m, m[q].parent, RIGHT);
    }
  }

  lemma SettledSibling(m: Mem, m1: Mem, r: Mem, root: Node?, q: Node, e: Dir, s: Node, far: Node, d: Dir)
    requires FarNephew(m, q, e, s, far) && m1 == Settled(m, q, s, far)
    requires Turned(m1, r, q, s, Child(m[s], e), m[q].parent, e)
    requires NodeLinked(m, root, q) && NodeLinked(m, root, s) && far != q && far != s
    ensures !IsRed(r, Child(r[s], d))
  {
  }

  lemma FarNephewStep(m: Mem, root: Node?, g: map<Node, Range>, h: map<Node, nat>, at: Node?,
                      q: Node, e: Dir, s: Node, far: Node)
    requires Short(m, root, g, h, at, q, e) && FarNephew(m, q, e, s, far)
    ensures q in h && s in h && far in h && q in g && CanRotate(Settled(m, q, s, far), q, e)
    ensures var r := Rotate(Settled(m, q, s, far), q, e);
            var root' := if m[q].parent == null then s else root;
            && RedBlack(r, root', RotatedRanges(Settled(m, q, s, far), g, q, e), SettledHeights(h, q, s, far))
            && SameNodes(m, r)
  {
    SettledTurns(m, root, g, q, e, s, far);
    var m1 := Settled(m, q, s, far);
    RotationKeepsLinks(m1, root, g, q, e);
    RotationKeepsOrder(m1, root, g, q, e);
    RotationKeepsContents(m1, root, g, q, e);
    SettledBalanced(m, root, g, h, at, q, e, s, far);
    SettledColours(m, root, g, h, at, q, e, s, far);
  }

  // ---------- the end of the loop ----------

  /** Once the loop ends, painting the node black leaves a red-black tree. */
  lemma RemoveEnds(m: Mem, root: Node?, g: map<Node, Range>, h: map<Node, nat>, at: Node, q: Node?, e: Dir)
    requires RemoveInv(m, root, g, h, at, q, e) && (at == root || m[at].red)
    ensures at in h
    ensures var r := m[at := m[at].(red := false)];
            && SameNodes(m, r)
            && RedBlack(r, root, g, h[at := h[at] + if m[at].red then 1 else 0])
  {
    var r := m[at := m[at].(red := false)];
    assert SameShape(m, r);
    ShapeKeepsTree(m, r, root, g);
    BlackenedHeights(m, root, g, h, at, q, e);
    forall n, d | n in r && r[n].red
      ensures !IsRed(r, Child(r[n], d))
    {
      assert IsRed(m, Child(m[n], d)) ==> n == at || Child(m[n], d) == at;
    }
  }

  lemma BlackenedHeights(m: Mem, root: Node?, g: map<Node, Range>, h: map<Node, nat>, at: Node, q: Node?, e: Dir)
    requires RemoveInv(m, root, g, h, at, q, e) && (at == root || m[at].red)
    ensures at in h
    ensures Balanced(m[at := m[at].(red := false)], h[at := h[at] + if m[at].red then 1 else 0])
  {
    var r := m[at := m[at].(red := false)];
    assert NodeBalancedBut(m, h, q, e, at) && NodeLinked(m, root, at);
    var h' := h[at := h[at] + if m[at].red then 1 else 0];
    SmallerRange(m, g, at, LEFT);
    SmallerRange(m, g, at, RIGHT);
    forall n | n in r
      ensures NodeBalanced(r, h', n)
    {
      assert NodeBalancedBut(m, h, q, e, n) && NodeLinked(m, root, n);
      if n != at {
        BlackenedAbove(m, root, h, at, q, e, n);
      }
    }
  }

  lemma BlackenedAbove(m: Mem, root: Node?, h: map<Node, nat>, at: Node, q: Node?, e: Dir, n: Node)
    requires n in m && at in m && n != at && NodeBalancedBut(m, h, q, e, n) && NodeLinked(m, root, n)
    requires at in h && m[at].parent == q && (q == null ==> at == root)
             && (q != null ==> q in m && Child(m[q], e) == at)
    requires (q != null ==> m[at].red)
    ensures NodeBalanced(m[at := m[at].(red := false)], h[at := h[at] + if m[at].red then 1 else 0], n)
  {
    if n == q {
      assert Child(m[n], Opp(e)) != at;
    } else {
      assert m[n].left != at && m[n].right != at;
    }
  }

  // ---------- the turns in any tree, balanced or not ----------

  /** The sibling turns up over the parent: the short place stays below the parent, which is red. */
  lemma SiblingTurnPlaces(m: Mem, root: Node?, g: map<Node, Range>, at: Node?, q: Node, e: Dir, s: Node)
    requires Linked(m, root) && Ordered(m, g) && q in m && Child(m[q], e) == at && Child(m[q], Opp(e)) == s
    ensures CanRotate(m, q, e) && Riser(m, q, e) == s && s != q && q in g
    ensures var r := SwapTurn(m, q, e);
            SameNodes(m, r) && q in r && r[q].red && Child(r[q], e) == at
  {
    assert NodeLinked(m, root, q) && NodeLinked(m, root, s) && NodeOrdered(m, g, q);
    SmallerRange(m, g, q, e);
    SmallerRange(m, g, s, e);
    SwapTurns(m, root, g, q, e);
    SwapTurnKeepsTree(m, root, g, q, e);
  }

  /** The near nephew turns up over the sibling, which becomes its far child. */
  lemma NephewTurnPlaces(m: Mem, root: Node?, g: map<Node, Range>, at: Node?, q: Node, e: Dir, s: Node, near: Node)
    requires Linked(m, root) && Ordered(m, g) && q in m && Child(m[q], e) == at && Child(m[q], Opp(e)) == s
    requires s in m && Child(m[s], e) == near
    ensures CanRotate(m, s, Opp(e)) && Riser(m, s, Opp(e)) == near && near != s && s in g
    ensures var r := SwapTurn(m, s, Opp(e));
            && SameNodes(m, r) && FarPlace(r, q, e, near, s) && r[s].red && Child(r[q], e) == at
            && RotatedRoot(m, root, s, Opp(e)) == root
  {
    assert NodeLinked(m, root, q) && NodeLinked(m, root, s) && NodeOrdered(m, g, s);
    SmallerRange(m, g, q, Opp(e));
    SmallerRange(m, g, q, e);
    SmallerRange(m, g, s, e);
    SwapTurns(m, root, g, s, Opp(e));
    SwapTurnKeepsTree(m, root, g, s, Opp(e));
  }

  /** A red-black tree is short nowhere. */
  lemma NothingShort(m: Mem, root: Node, g: map<Node, Range>, h: map<Node, nat>, e: Dir)
    requires RedBlack(m, root, g, h)
    ensures RemoveInv(m, root, g, h, root, null, e)
  {
    BalancedButNone(m, h, e);
  }

  // ---------- the loop ----------

  /** How far up the loop can still go: every turn moves it up, or ends it. */
  ghost function Rise(m: Mem, root: Node?, g: map<Node, Range>, at: Node?): nat {
    if at == null then |m| + 1 else if at == root || IsRed(m, at) then 0 else |Wider(m, g, at)| + 1
  }

  lemma RiseToParent(m: Mem, r: Mem, root: Node?, g: map<Node, Range>, at: Node?, q: Node)
    requires Tree(m, root, g) && r.Keys == m.Keys && q in m && at != root && !IsRed(m, at)
    requires at != null ==> at in m && m[at].parent == q
    ensures Rise(r, root, g, q) < Rise(m, root, g, at)
  {
    assert Wider(r, g, q) == Wider(m, g, q);
    if at == null {
      SmallerSet(Wider(m, g, q), m.Keys);
    } else {
      ParentIsWider(m, root, g, at);
      SmallerSet(Wider(m, g, q), Wider(m, g, at));
    }
  }

  lemma PlaceRises(m: Mem, root: Node?, g: map<Node, Range>, at: Node?, q: Node,
                   r: Mem, root': Node?, g': map<Node, Range>, next: Node)
    requires Tree(m, root, g) && SameNodes(m, r) && q in m && at != root && !IsRed(m, at)
    requires at != null ==> at in m && m[at].parent == q
    requires next == root' || (next == q && root' == root && g' == g)
    ensures Rise(r, root', g', next) < Rise(m, root, g, at)
  {
    if next != root' {
      RiseToParent(m, r, root, g, at, q);
    }
  }

  lemma PaintedTree(m: Mem, root: Node?, g: map<Node, Range>, q: Node, e: Dir, s: Node)
    requires Linked(m, root) && Ordered(m, g) && q in m && s in m && Child(m[q], Opp(e)) == s
    ensures q != s
    ensures Linked(Paint(m, s, true), root) && Ordered(Paint(m, s, true), g) && SameNodes(m, Paint(m, s, true))
  {
    SmallerRange(m, g, q, Opp(e));
    ShapeKeepsTree(m, Paint(m, s, true), root, g);
  }

  /** What holds at every turn if the tree was balanced to begin with. */
  ghost predicate RemoveLoop(m: Mem, root: Node?, g: map<Node, Range>, h: map<Node, nat>, at: Node) {
    at in m && RemoveInv(m, root, g, h, at, m[at].parent, SideOf(m, at))
  }

  lemma PaintedSibling(m: Mem, root: Node?, g: map<Node, Range>, h: map<Node, nat>, at: Node?, q: Node, e: Dir, s: Node)
    requires Short(m, root, g, h, at, q, e) && s == Child(m[q], Opp(e)) && s in m && !m[s].red
    requires !IsRed(m, m[s].left) && !IsRed(m, m[s].right)
    ensures s in h && q in h && h[s] > 0 && h[q] > 0
    ensures RemoveLoop(Paint(m, s, true), root, g, LoweredHeights(h, s, q), q)
  {
    BlackNephewsStep(m, root, g, h, at, q, e);
    assert SideOf(Paint(m, s, true), q) == SideOf(m, q);
  }

  lemma RootIsNotShort(m: Mem, root: Node?, g: map<Node, Range>, h: map<Node, nat>, q: Node)
    requires RedBlack(m, root, g, h) && q in m
    ensures root != null && RemoveLoop(m, root, g, h, root)
  {
    assert NodeLinked(m, root, q);
    NothingShort(m, root, g, h, SideOf(m, root));
  }

  lemma RootIn(m: Mem, root: Node?, q: Node)
    requires Linked(m, root) && q in m
    ensures root != null && root in m
  {
    assert NodeLinked(m, root, q);
  }

  /** Where the tree is short, or may have been: at a node, or below `q` where a leaf was removed. */
  ghost predicate ShortPlace(m: Mem, root: Node?, g: map<Node, Range>, h: map<Node, nat>, at: Node?, q: Node?, e: Dir) {
    if at == null then q != null && RemoveInv(m, root, g, h, null, q, e) else RemoveLoop(m, root, g, h, at)
  }

  lemma LoopIsPlace(m: Mem, root: Node?, g: map<Node, Range>, h: map<Node, nat>, at: Node, q: Node?, e: Dir)
    ensures RemoveLoop(m, root, g, h, at) <==> ShortPlace(m, root, g, h, at, q, e)
  {
  }

  lemma ParentOf(m: Mem, root: Node?, at: Node?)
    requires Linked(m, root) && at != root
    ensures at != null && at in m ==> m[at].parent != null && m[at].parent in m
                                      && (m[m[at].parent].left == at || m[m[at].parent].right == at)
                                      && m[at].content != NULL
  {
    if at != null && at in m {
      assert NodeLinked(m, root, at);
    }
  }

  /** The comparison with the left child finds the side. */
  lemma SideIsRight(m: Mem, root: Node?, g: map<Node, Range>, h: map<Node, nat>, at: Node?, q: Node, e: Dir, which: Dir)
    requires ShortPlace(m, root, g, h, at, q, e) && !IsRed(m, at) && q in m && at != root
    requires at != null ==> at in m && m[at].parent == q
    requires which == if at == m[q].left then RIGHT else LEFT
    ensures Short(m, root, g, h, at, q, Opp(which))
  {
    if at == null {
      SiblingFacts(m, root, g, h, at, q, e);
    }
  }

  lemma BlackenedTree(m: Mem, root: Node?, g: map<Node, Range>, n: Node)
    requires Linked(m, root) && Ordered(m, g) && n in m
    ensures var r := m[n := m[n].(red := false)];
            Linked(r, root) && Ordered(r, g) && SameNodes(m, r)
  {
    ShapeKeepsTree(m, m[n := m[n].(red := false)], root, g);
  }

  ghost function RaisedAt(h: map<Node, nat>, m: Mem, n: Node): map<Node, nat> {
    if n in m && n in h && m[n].red then h[n := h[n] + 1] else h
  }

  lemma RemoveLoopEnds(m: Mem, root: Node?, g: map<Node, Range>, h: map<Node, nat>, at: Node)
    requires RemoveLoop(m, root, g, h, at) && (at == root || m[at].red)
    ensures RedBlack(m[at := m[at].(red := false)], root, g, RaisedAt(h, m, at))
  {
    RemoveEnds(m, root, g, h, at, m[at].parent, SideOf(m, at));
    assert h[at := h[at] + if m[at].red then 1 else 0] == RaisedAt(h, m, at);
  }

  lemma NothingMoved(m: Mem)
    ensures SameNodes(m, m)
  {
  }

  lemma SameNodesAll(m: Mem, r: Mem, s: Mem)
    requires SameNodes(m, r) && SameNodes(r, s)
    ensures SameNodes(m, s) && s.Keys == m.Keys
  {
  }
}
