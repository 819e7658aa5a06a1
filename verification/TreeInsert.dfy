/**
 Rebalancing after an insertion: each step of TreeBAASub keeps everything but the one red node with a red parent,
 and moves that up or removes it. `AddInv` is the invariant of the loop: a red-black tree but for the colour of
 one node. A node that is not new need not be red itself, and then the turn of a node on the near side takes a
 black node from one side to the other; `Twisted` says when.
 */
module TreeInsert {
  import opened TreeNodes
  import opened TreeRotation
  import opened TreeBalance
  import opened TreeOrder

  /** A red node with a red parent is `at`. */
  ghost predicate RedRedOnlyAt(m: Mem, at: Node) {
    forall n, d :: n in m && m[n].red && IsRed(m, Child(m[n], d)) ==> Child(m[n], d) == at
  }

  /** What holds of the tree at every turn of TreeBalanceAfterAdd. */
  ghost predicate AddInv(m: Mem, root: Node?, g: map<Node, Range>, h: map<Node, nat>, cur: Node) {
    && Linked(m, root) && Ordered(m, g) && Balanced(m, h)
    && RedRedOnlyAt(m, cur)
    && (IsRed(m, root) ==> root == cur)
    && cur in m
  }

  /** The loop condition of TreeBalanceAfterAdd. */
  ghost predicate Continues(m: Mem, cur: Node) {
    cur in m && IsRed(m, m[cur].parent) && m[m[cur].parent].parent != null
  }

  /** The parent, the grandparent and the side of the grandparent away from the parent. */
  ghost predicate Family(m: Mem, cur: Node, p: Node, gp: Node, which: Dir) {
    && cur in m && p in m && gp in m
    && m[cur].parent == p && m[p].parent == gp && m[p].red
    && Child(m[gp], Opp(which)) == p
  }

  lemma FamilyFacts(m: Mem, root: Node?, g: map<Node, Range>, h: map<Node, nat>, cur: Node, p: Node, gp: Node,
                    which: Dir)
    requires AddInv(m, root, g, h, cur) && Family(m, cur, p, gp, which)
    ensures cur != p && cur != gp && p != gp && !m[gp].red
    ensures (m[p].left == cur) != (m[p].right == cur)
    ensures Child(m[gp], which) != p && Child(m[gp], which) != gp && Child(m[gp], which) != cur
    ensures root != cur && root != p
  {
    assert NodeLinked(m, root, cur) && NodeLinked(m, root, p) && NodeLinked(m, root, gp);
    SmallerRange(m, g, p, LEFT);
    SmallerRange(m, g, p, RIGHT);
    SmallerRange(m, g, gp, Opp(which));
    SmallerRange(m, g, gp, which);
    assert IsRed(m, Child(m[gp], Opp(which)));
  }

  // ---------- a red uncle: recolour ----------

  ghost function Recolour(m: Mem, p: Node, u: Node, gp: Node): Mem
    requires p in m && u in m && gp in m
  {
    m[p := m[p].(red := false)][u := m[u].(red := false)][gp := m[gp].(red := true)]
  }

  ghost function RecolouredHeights(h: map<Node, nat>, p: Node, u: Node): map<Node, nat>
    requires p in h && u in h
  {
    h[p := h[p] + 1][u := h[u] + 1]
  }

  lemma RecolourShape(m: Mem, p: Node, u: Node, gp: Node)
    requires p in m && u in m && gp in m && p != gp && u != gp
    ensures SameShape(m, Recolour(m, p, u, gp))
  {
  }

  lemma RecolourHeights(m: Mem, root: Node?, g: map<Node, Range>, h: map<Node, nat>, p: Node, u: Node, gp: Node,
                        which: Dir)
    requires Linked(m, root) && Balanced(m, h)
    requires p in m && u in m && gp in m && p != gp && u != gp && p != u
    requires m[p].red && m[u].red && !m[gp].red
    requires Child(m[gp], Opp(which)) == p && Child(m[gp], which) == u
    ensures p in h && u in h
    ensures Balanced(Recolour(m, p, u, gp), RecolouredHeights(h, p, u))
  {
    var r := Recolour(m, p, u, gp);
    assert NodeBalanced(m, h, p) && NodeBalanced(m, h, u) && NodeBalanced(m, h, gp);
    assert NodeLinked(m, root, p) && NodeLinked(m, root, u) && NodeLinked(m, root, gp);
    var h' := RecolouredHeights(h, p, u);
    forall n | n in r
      ensures NodeBalanced(r, h', n)
    {
      assert NodeBalanced(m, h, n) && NodeLinked(m, root, n);
      if n != gp {
        SameBelow(m, root, h, h', p, u, gp, n);
      }
    }
  }

  /** Only the grandparent has the two recoloured nodes as children. */
  lemma SameBelow(m: Mem, root: Node?, h: map<Node, nat>, h': map<Node, nat>, p: Node, u: Node, gp: Node, n: Node)
    requires n in m && n != gp && NodeLinked(m, root, n)
    requires p in m && u in m && m[p].parent == gp && m[u].parent == gp
    requires p in h && u in h && h' == RecolouredHeights(h, p, u)
    ensures Height(h', m[n].left) == Height(h, m[n].left) && Height(h', m[n].right) == Height(h, m[n].right)
  {
  }

  lemma RecolourColours(m: Mem, root: Node?, g: map<Node, Range>, h: map<Node, nat>,
                        cur: Node, p: Node, u: Node, gp: Node, which: Dir)
    requires AddInv(m, root, g, h, cur) && Family(m, cur, p, gp, which)
    requires Child(m[gp], which) == u && u in m && m[u].red
    requires p != gp && u != gp
    ensures RedRedOnlyAt(Recolour(m, p, u, gp), gp)
  {
    var r := Recolour(m, p, u, gp);
    forall n, d | n in r && r[n].red && IsRed(r, Child(r[n], d))
      ensures Child(r[n], d) == gp
    {
      assert NodeLinked(m, root, n);
      assert m[n].red && IsRed(m, Child(m[n], d)) ==> Child(m[n], d) == cur;
    }
  }

  lemma RecolourStep(m: Mem, root: Node?, g: map<Node, Range>, h: map<Node, nat>,
                     cur: Node, p: Node, u: Node, gp: Node, which: Dir)
    requires AddInv(m, root, g, h, cur) && Family(m, cur, p, gp, which)
    requires Child(m[gp], which) == u && u in m && m[u].red
    ensures p in h && u in h
    ensures AddInv(Recolour(m, p, u, gp), root, g, RecolouredHeights(h, p, u), gp)
    ensures SameShape(m, Recolour(m, p, u, gp))
    ensures Recolour(m, p, u, gp)[gp].red
  {
    FamilyFacts(m, root, g, h, cur, p, gp, which);
    RecolourShape(m, p, u, gp);
    ShapeKeepsTree(m, Recolour(m, p, u, gp), root, g);
    RecolourHeights(m, root, g, h, p, u, gp, which);
    RecolourColours(m, root, g, h, cur, p, u, gp, which);
  }

  // ---------- a black uncle, the node on the near side: turn it up over its parent ----------

  lemma StraightenStep(m: Mem, root: Node?, g: map<Node, Range>, h: map<Node, nat>,
                       cur: Node, p: Node, gp: Node, which: Dir)
    requires AddInv(m, root, g, h, cur) && Family(m, cur, p, gp, which)
    requires m[cur].red && Child(m[p], which) == cur
    ensures CanRotate(m, p, Opp(which)) && p in g
    ensures var r := Rotate(m, p, Opp(which));
            && AddInv(r, root, RotatedRanges(m, g, p, Opp(which)), h, p)
            && Family(r, p, cur, gp, which) && Child(r[cur], Opp(which)) == p
            && Child(r[gp], which) == Child(m[gp], which)
            && SameNodes(m, r) && SameColours(m, r)
  {
    FamilyFacts(m, root, g, h, cur, p, gp, which);
    var d := Opp(which);
    var r := Rotate(m, p, d);
    assert NodeOrdered(m, g, p);
    RotateTurns(m, root, g, p, d);
    RotationKeepsLinks(m, root, g, p, d);
    RotationKeepsOrder(m, root, g, p, d);
    RotationKeepsContents(m, root, g, p, d);
    StraightenHeights(m, r, root, g, h, cur, p, gp, d);
    StraightenColours(m, r, root, g, h, cur, p, gp, d);
  }

  lemma StraightenHeights(m: Mem, r: Mem, root: Node?, g: map<Node, Range>, h: map<Node, nat>,
                          cur: Node, p: Node, gp: Node, d: Dir)
    requires Linked(m, root) && Ordered(m, g) && Balanced(m, h)
    requires cur in m && p in m && m[p].red && m[cur].red
    requires Turned(m, r, p, cur, Child(m[cur], d), gp, d)
    ensures Balanced(r, h)
  {
    assert NodeBalanced(m, h, p) && NodeBalanced(m, h, cur);
    assert NodeLinked(m, root, p) && NodeLinked(m, root, cur);
    forall n | n in r
      ensures NodeBalanced(r, h, n)
    {
      assert NodeBalanced(m, h, n) && NodeLinked(m, root, n);
      if n != p && n != cur {
        TurnedOthersBalanced(m, r, p, cur, Child(m[cur], d), gp, d, h, h, null, d, root, n);
      }
    }
  }

  lemma StraightenColours(m: Mem, r: Mem, root: Node?, g: map<Node, Range>, h: map<Node, nat>,
                          cur: Node, p: Node, gp: Node, d: Dir)
    requires AddInv(m, root, g, h, cur)
    requires Turned(m, r, p, cur, Child(m[cur], d), gp, d) && SameColours(m, r)
    requires gp in m && !m[gp].red && m[cur].red
    ensures RedRedOnlyAt(r, p)
  {
    SmallerRange(m, g, cur, Opp(d));
    SmallerRange(m, g, p, d);
    forall n, e | n in r && r[n].red && IsRed(r, Child(r[n], e))
      ensures Child(r[n], e) == p
    {
      assert NodeLinked(m, root, n) && NodeLinked(m, root, p) && NodeLinked(m, root, cur);
      if n == p || n == cur {
        StraightenPair(m, r, root, h, cur, p, gp, d, n, e);
      } else {
        assert IsRed(m, Child(m[n], e));
      }
    }
  }

  lemma StraightenPair(m: Mem, r: Mem, root: Node?, h: map<Node, nat>,
                       cur: Node, p: Node, gp: Node, d: Dir, n: Node, e: Dir)
    requires cur in m && m[cur].red && Turned(m, r, p, cur, Child(m[cur], d), gp, d) && SameColours(m, r)
    requires RedRedOnlyAt(m, cur) && NodeLinked(m, root, p) && NodeLinked(m, root, cur)
    requires (n == p || n == cur) && r[n].red && IsRed(r, Child(r[n], e))
    requires Child(m[cur], Opp(d)) != cur && Child(m[p], d) != p
    ensures Child(r[n], e) == p
  {
    assert m[p].red ==> !IsRed(m, Child(m[p], d));
    assert m[cur].red ==> !IsRed(m, Child(m[cur], d));
    assert m[cur].red ==> !IsRed(m, Child(m[cur], Opp(d)));
  }

  // ---------- a black uncle, the node on the far side: turn the parent up over the grandparent ----------

  lemma TurnStep(m: Mem, root: Node?, g: map<Node, Range>, h: map<Node, nat>,
                 cur: Node, p: Node, gp: Node, which: Dir)
    requires AddInv(m, root, g, h, cur) && Family(m, cur, p, gp, which)
    requires Child(m[p], Opp(which)) == cur && !IsRed(m, Child(m[gp], which))
    ensures CanSwapTurn(m, gp, which) && Riser(m, gp, which) == p && p != gp && gp in g && gp in h && p in h
    ensures var r := SwapTurn(m, gp, which);
            && RedBlack(r, RotatedRoot(m, root, gp, which), RotatedRanges(m, g, gp, which), SwappedHeights(h, gp, p))
            && SameNodes(m, r)
            && r[p].parent == m[gp].parent && !r[p].red && r[cur].parent == p
  {
    FamilyFacts(m, root, g, h, cur, p, gp, which);
    assert NodeOrdered(m, g, gp);
    SwapTurnKeepsTree(m, root, g, gp, which);
    TurnColours(m, root, g, h, cur, p, gp, which);
    assert BalancedBut(m, h, null, LEFT) by {
      BalancedButNone(m, h, LEFT);
    }
    SwapTurnHeights(m, root, g, gp, which, h, null, LEFT);
    BalancedButNone(SwapTurn(m, gp, which), SwappedHeights(h, gp, p), LEFT);
    SwapTurns(m, root, g, gp, which);
  }

  lemma TurnColours(m: Mem, root: Node?, g: map<Node, Range>, h: map<Node, nat>,
                    cur: Node, p: Node, gp: Node, which: Dir)
    requires AddInv(m, root, g, h, cur) && Family(m, cur, p, gp, which)
    requires Child(m[p], Opp(which)) == cur && !IsRed(m, Child(m[gp], which))
    requires p != gp && !m[gp].red && root != cur && root != p
    ensures CanSwapTurn(m, gp, which) && Riser(m, gp, which) == p
    ensures NoRedRed(SwapTurn(m, gp, which))
    ensures !IsRed(SwapTurn(m, gp, which), RotatedRoot(m, root, gp, which))
  {
    assert NodeLinked(m, root, p);
    assert !IsRed(m, Child(m[p], which));
    forall n, d | n in m && m[n].red && IsRed(m, Child(m[n], d))
      ensures n == p
    {
      assert NodeLinked(m, root, n);
    }
    SwapTurnColours(m, root, g, gp, which);
    SwapTurnRecolours(m, root, g, gp, which);
  }

  // ---------- the end of the loop ----------

  /** Once the loop ends, painting the root black leaves a red-black tree. */
  lemma AddEnds(m: Mem, root: Node?, g: map<Node, Range>, h: map<Node, nat>, cur: Node)
    requires AddInv(m, root, g, h, cur) && !Continues(m, cur)
    ensures root != null && root in m && root in h
    ensures var r := m[root := m[root].(red := false)];
            && SameNodes(m, r)
            && RedBlack(r, root, g, h[root := h[root] + if m[root].red then 1 else 0])
  {
    assert NodeLinked(m, root, cur);
    var r := m[root := m[root].(red := false)];
    assert SameShape(m, r);
    ShapeKeepsTree(m, r, root, g);
    forall n, d | n in r && r[n].red
      ensures !IsRed(r, Child(r[n], d))
    {
      assert NodeLinked(m, root, n);
      assert !IsRed(m, Child(m[n], d)) || n == root;
    }
    assert NodeBalanced(m, h, root);
    var h' := h[root := h[root] + if m[root].red then 1 else 0];
    forall n | n in r
      ensures NodeBalanced(r, h', n)
    {
      assert NodeBalanced(m, h, n) && NodeLinked(m, root, n);
    }
  }

  // ---------- one turn of the loop ----------

  /** The tree after TreeBAASub. */
  ghost function BAAMem(m: Mem, cur: Node, p: Node, gp: Node, which: Dir): Mem
    requires Family(m, cur, p, gp, which) && p != gp && cur != p && cur != gp
    requires Child(m[gp], which) != null ==> Child(m[gp], which) in m
  {
    var u := Child(m[gp], which);
    if u != null && m[u].red then Recolour(m, p, u, gp)
    else if Child(m[p], which) == cur then
      var r := Rotate(m, p, Opp(which));
      if CanRotate(r, gp, which) && Riser(r, gp, which) != gp then SwapTurn(r, gp, which) else r
    else SwapTurn(m, gp, which)
  }

  /** The node of the next turn. */
  ghost function BAANext(m: Mem, cur: Node, p: Node, gp: Node, which: Dir): Node
    requires Family(m, cur, p, gp, which)
  {
    if IsRed(m, Child(m[gp], which)) then gp
    else if Child(m[p], which) == cur then p
    else cur
  }

  /** A black node on the near side of a red parent, with a black uncle. It can only be the node an
      insertion found its key in: the loop itself moves to red nodes. */
  ghost predicate Twisted(m: Mem, cur: Node, p: Node, gp: Node, which: Dir) {
    Family(m, cur, p, gp, which) && !m[cur].red && !IsRed(m, Child(m[gp], which)) && Child(m[p], which) == cur
  }

  ghost function BAAHeights(m: Mem, h: map<Node, nat>, cur: Node, p: Node, gp: Node, which: Dir): map<Node, nat>
    requires Family(m, cur, p, gp, which)
  {
    var u := Child(m[gp], which);
    if IsRed(m, u) then
      if p in h && u in h then RecolouredHeights(h, p, u) else h
    else
      var top := if Child(m[p], which) == cur then cur else p;
      if gp in h && top in h then SwappedHeights(h, gp, top) else h
  }

  lemma RecolourCase(m: Mem, root: Node?, g: map<Node, Range>, h: map<Node, nat>, cur: Node, p: Node, gp: Node,
                     which: Dir)
    requires AddInv(m, root, g, h, cur) && Family(m, cur, p, gp, which) && IsRed(m, Child(m[gp], which))
    requires p != gp && cur != p && cur != gp
    ensures AddInv(BAAMem(m, cur, p, gp, which), root, g, BAAHeights(m, h, cur, p, gp, which), gp)
    ensures SameNodes(m, BAAMem(m, cur, p, gp, which))
  {
    var u := Child(m[gp], which);
    FamilyFacts(m, root, g, h, cur, p, gp, which);
    RecolourStep(m, root, g, h, cur, p, u, gp, which);
  }

  lemma FarCase(m: Mem, root: Node?, g: map<Node, Range>, h: map<Node, nat>, cur: Node, p: Node, gp: Node, which: Dir)
    requires AddInv(m, root, g, h, cur) && Family(m, cur, p, gp, which) && !IsRed(m, Child(m[gp], which))
    requires Child(m[p], which) != cur && p != gp && cur != p && cur != gp
    ensures gp in g && CanRotate(m, gp, which) && ChildLinked(m, gp, Child(m[gp], which))
    ensures AddInv(BAAMem(m, cur, p, gp, which), RotatedRoot(m, root, gp, which), RotatedRanges(m, g, gp, which),
                   BAAHeights(m, h, cur, p, gp, which), cur)
    ensures SameNodes(m, BAAMem(m, cur, p, gp, which))
  {
    FamilyFacts(m, root, g, h, cur, p, gp, which);
    assert NodeLinked(m, root, gp);
    TurnStep(m, root, g, h, cur, p, gp, which);
    SwapTurnRecolours(m, root, g, gp, which);
  }

  lemma NearCase(m: Mem, root: Node?, g: map<Node, Range>, h: map<Node, nat>, cur: Node, p: Node, gp: Node, which: Dir)
    requires AddInv(m, root, g, h, cur) && Family(m, cur, p, gp, which) && !IsRed(m, Child(m[gp], which))
    requires Child(m[p], which) == cur && m[cur].red && p != gp && cur != p && cur != gp
    ensures p in g && CanRotate(m, p, Opp(which)) && ChildLinked(m, gp, Child(m[gp], which))
    ensures var r := Rotate(m, p, Opp(which));
            var g' := RotatedRanges(m, g, p, Opp(which));
            && gp in g' && CanRotate(r, gp, which)
            && AddInv(BAAMem(m, cur, p, gp, which), RotatedRoot(r, root, gp, which), RotatedRanges(r, g', gp, which),
                      BAAHeights(m, h, cur, p, gp, which), p)
    ensures SameNodes(m, BAAMem(m, cur, p, gp, which))
  {
    assert NodeLinked(m, root, gp);
    StraightenStep(m, root, g, h, cur, p, gp, which);
    var r := Rotate(m, p, Opp(which));
    var g' := RotatedRanges(m, g, p, Opp(which));
    FamilyFacts(r, root, g', h, p, cur, gp, which);
    TurnStep(r, root, g', h, p, cur, gp, which);
    SwapTurnRecolours(r, root, g', gp, which);
  }

  lemma FamilyDiffers(m: Mem, root: Node?, g: map<Node, Range>, cur: Node, p: Node, gp: Node, which: Dir)
    requires Linked(m, root) && Ordered(m, g) && Family(m, cur, p, gp, which)
    ensures p != gp && cur != p && cur != gp && p in g && gp in g
    ensures Child(m[gp], which) != p && Child(m[gp], which) != gp
    ensures Child(m[gp], which) != null ==> Child(m[gp], which) in m
    ensures CanRotate(m, gp, which) && Riser(m, gp, which) == p
  {
    assert NodeLinked(m, root, cur) && NodeLinked(m, root, p) && NodeLinked(m, root, gp);
    assert NodeOrdered(m, g, p) && NodeOrdered(m, g, gp);
    SmallerRange(m, g, p, LEFT);
    SmallerRange(m, g, p, RIGHT);
    SmallerRange(m, g, gp, Opp(which));
    SmallerRange(m, g, gp, which);
  }

  lemma RecolourTree(m: Mem, root: Node?, g: map<Node, Range>, cur: Node, p: Node, gp: Node, which: Dir, u: Node)
    requires Linked(m, root) && Ordered(m, g) && Family(m, cur, p, gp, which) && Child(m[gp], which) == u
    ensures u in m && p != gp && u != gp
    ensures Linked(Recolour(m, p, u, gp), root) && Ordered(Recolour(m, p, u, gp), g)
    ensures SameNodes(m, Recolour(m, p, u, gp))
  {
    FamilyDiffers(m, root, g, cur, p, gp, which);
    RecolourShape(m, p, u, gp);
    ShapeKeepsTree(m, Recolour(m, p, u, gp), root, g);
  }

  lemma NearTree(m: Mem, root: Node?, g: map<Node, Range>, cur: Node, p: Node, gp: Node, which: Dir)
    requires Linked(m, root) && Ordered(m, g) && Family(m, cur, p, gp, which) && p in g && gp in g
    requires Child(m[p], which) == cur && p != gp && cur != p && cur != gp
    ensures CanRotate(m, p, Opp(which)) && Riser(m, p, Opp(which)) == cur
    ensures var r := Rotate(m, p, Opp(which));
            && r.Keys == m.Keys && SameNodes(m, r) && r[p].parent == cur && r[cur].parent == gp
            && Child(r[gp], Opp(which)) == cur && CanRotate(r, gp, which) && Riser(r, gp, which) == cur
            && SameNodes(m, SwapTurn(r, gp, which))
  {
    var r := Rotate(m, p, Opp(which));
    assert NodeLinked(m, root, gp);
    RotateTurns(m, root, g, p, Opp(which));
    RotationKeepsLinks(m, root, g, p, Opp(which));
    RotationKeepsOrder(m, root, g, p, Opp(which));
    RotationKeepsContents(m, root, g, p, Opp(which));
    var g' := RotatedRanges(m, g, p, Opp(which));
    SwapTurnKeepsTree(r, root, g', gp, which);
  }

  ghost predicate IsTwisted(m: Mem, cur: Node) {
    && Continues(m, cur)
    && var p := m[cur].parent;
       var gp := m[p].parent;
       gp in m && exists which :: Twisted(m, cur, p, gp, which)
  }

  lemma FamilyOf(m: Mem, root: Node?, cur: Node)
    requires Linked(m, root) && Continues(m, cur)
    ensures var p, gp := m[cur].parent, m[m[cur].parent].parent;
            gp in m && Family(m, cur, p, gp, if p == m[gp].left then RIGHT else LEFT)
  {
    assert NodeLinked(m, root, cur) && NodeLinked(m, root, m[cur].parent);
  }

  lemma PaintKeepsTree(m: Mem, root: Node, g: map<Node, Range>)
    requires Linked(m, root) && Ordered(m, g)
    ensures Linked(m[root := m[root].(red := false)], root) && Ordered(m[root := m[root].(red := false)], g)
    ensures SameNodes(m, m[root := m[root].(red := false)])
  {
    ShapeKeepsTree(m, m[root := m[root].(red := false)], root, g);
  }

  /** What one turn of TreeBalanceAfterAdd does. */
  ghost predicate BAADone(m: Mem, r: Mem, root: Node?, root': Node?, g: map<Node, Range>, g': map<Node, Range>,
                          cur: Node, p: Node, gp: Node, which: Dir, next: Node)
    requires Family(m, cur, p, gp, which)
  {
    && p != gp && cur != p && cur != gp
    && (Child(m[gp], which) != null ==> Child(m[gp], which) in m)
    && next == BAANext(m, cur, p, gp, which)
    && r == BAAMem(m, cur, p, gp, which)
    && (if IsRed(m, Child(m[gp], which)) then
          root' == root && g' == g
        else if Child(m[p], which) == cur then
          && CanRotate(m, p, Opp(which)) && p in g
          && var m1, g1 := Rotate(m, p, Opp(which)), RotatedRanges(m, g, p, Opp(which));
             && CanRotate(m1, gp, which) && gp in g1
             && root' == RotatedRoot(m1, root, gp, which) && g' == RotatedRanges(m1, g1, gp, which)
        else
          && CanRotate(m, gp, which) && gp in g
          && root' == RotatedRoot(m, root, gp, which) && g' == RotatedRanges(m, g, gp, which))
  }

  lemma BAAKeepsNodes(m: Mem, r: Mem, root: Node?, root': Node?, g: map<Node, Range>, g': map<Node, Range>,
                      cur: Node, p: Node, gp: Node, which: Dir, next: Node)
    requires Linked(m, root) && Ordered(m, g) && Family(m, cur, p, gp, which)
    requires BAADone(m, r, root, root', g, g', cur, p, gp, which, next)
    ensures SameNodes(m, r)
  {
    FamilyDiffers(m, root, g, cur, p, gp, which);
    if IsRed(m, Child(m[gp], which)) {
      RecolourTree(m, root, g, cur, p, gp, which, Child(m[gp], which));
    } else if Child(m[p], which) == cur {
      NearTree(m, root, g, cur, p, gp, which);
    } else {
      SwapTurnKeepsTree(m, root, g, gp, which);
    }
  }

  /** A turn that is not twisted keeps the invariant. */
  lemma BAAStep(m: Mem, r: Mem, root: Node?, root': Node?, g: map<Node, Range>, g': map<Node, Range>, h: map<Node, nat>,
                cur: Node, p: Node, gp: Node, which: Dir, next: Node)
    requires AddInv(m, root, g, h, cur) && Family(m, cur, p, gp, which) && !Twisted(m, cur, p, gp, which)
    requires BAADone(m, r, root, root', g, g', cur, p, gp, which, next)
    ensures AddInv(r, root', g', BAAHeights(m, h, cur, p, gp, which), next)
  {
    if IsRed(m, Child(m[gp], which)) {
      RecolourCase(m, root, g, h, cur, p, gp, which);
    } else if Child(m[p], which) == cur {
      NearCase(m, root, g, h, cur, p, gp, which);
    } else {
      FarCase(m, root, g, h, cur, p, gp, which);
    }
  }

  lemma BAANextIsRed(m: Mem, r: Mem, root: Node?, root': Node?, g: map<Node, Range>, g': map<Node, Range>,
                     h: map<Node, nat>, cur: Node, p: Node, gp: Node, which: Dir, next: Node)
    requires AddInv(m, root, g, h, cur) && Family(m, cur, p, gp, which) && !Twisted(m, cur, p, gp, which)
    requires BAADone(m, r, root, root', g, g', cur, p, gp, which, next)
    ensures next in r && (r[next].red || !Continues(r, next))
  {
    FamilyFacts(m, root, g, h, cur, p, gp, which);
    if IsRed(m, Child(m[gp], which)) {
    } else if Child(m[p], which) == cur {
      NearCase(m, root, g, h, cur, p, gp, which);
      StraightenStep(m, root, g, h, cur, p, gp, which);
      var m1, g1 := Rotate(m, p, Opp(which)), RotatedRanges(m, g, p, Opp(which));
      SwapTurnRecolours(m1, root, g1, gp, which);
    } else {
      TurnStep(m, root, g, h, cur, p, gp, which);
    }
  }

  // ---------- progress ----------

  /** How far up the loop can still go: every recolouring moves it up, and a rotation ends it. */
  ghost function Climb(m: Mem, g: map<Node, Range>, cur: Node): nat {
    if Continues(m, cur) then |Wider(m, g, cur)| + 1 else 0
  }

  lemma RecolourClimbs(m: Mem, root: Node?, g: map<Node, Range>, cur: Node, p: Node, u: Node, gp: Node, which: Dir)
    requires Tree(m, root, g) && Family(m, cur, p, gp, which) && Continues(m, cur) && Child(m[gp], which) == u
    ensures u in m && Climb(Recolour(m, p, u, gp), g, gp) < Climb(m, g, cur)
  {
    FamilyDiffers(m, root, g, cur, p, gp, which);
    assert NodeLinked(m, root, gp);
    ParentIsWider(m, root, g, cur);
    ParentIsWider(m, root, g, p);
    assert Wider(Recolour(m, p, u, gp), g, gp) == Wider(m, g, gp);
    SmallerSet(Wider(m, g, gp), Wider(m, g, cur));
  }

  lemma FarTurnEnds(m: Mem, root: Node?, g: map<Node, Range>, cur: Node, p: Node, gp: Node, which: Dir)
    requires Tree(m, root, g) && Family(m, cur, p, gp, which) && Child(m[p], which) != cur
    ensures CanRotate(m, gp, which) && Riser(m, gp, which) == p && p != gp
    ensures !Continues(SwapTurn(m, gp, which), cur)
  {
    FamilyDiffers(m, root, g, cur, p, gp, which);
    SwapTurns(m, root, g, gp, which);
    assert NodeLinked(m, root, cur) && NodeLinked(m, root, gp);
    assert NodeOrdered(m, g, gp) && NodeOrdered(m, g, p) && NodeOrdered(m, g, cur);
    SmallerRange(m, g, gp, Opp(which));
    SmallerRange(m, g, p, Opp(which));
    SmallerRange(m, g, cur, LEFT);
    SmallerRange(m, g, cur, RIGHT);
  }

  lemma NearTurnEnds(m: Mem, root: Node?, g: map<Node, Range>, cur: Node, p: Node, gp: Node, which: Dir)
    requires Tree(m, root, g) && Family(m, cur, p, gp, which) && Child(m[p], which) == cur
    ensures p in g && CanRotate(m, p, Opp(which))
    ensures var r := Rotate(m, p, Opp(which));
            CanRotate(r, gp, which) && Riser(r, gp, which) == cur && cur != gp
            && !Continues(SwapTurn(r, gp, which), p)
  {
    FamilyDiffers(m, root, g, cur, p, gp, which);
    NearTree(m, root, g, cur, p, gp, which);
    var m1, g1 := Rotate(m, p, Opp(which)), RotatedRanges(m, g, p, Opp(which));
    RotateTurns(m, root, g, p, Opp(which));
    RotationKeepsLinks(m, root, g, p, Opp(which));
    RotationKeepsOrder(m, root, g, p, Opp(which));
    SwapTurns(m1, RotatedRoot(m, root, p, Opp(which)), g1, gp, which);
    TwistedPlaces(m1, RotatedRoot(m, root, p, Opp(which)), g1, cur, p, gp, which);
  }

  lemma BAAClimbs(m: Mem, r: Mem, root: Node?, root': Node?, g: map<Node, Range>, g': map<Node, Range>,
                  cur: Node, p: Node, gp: Node, which: Dir, next: Node)
    requires Linked(m, root) && Ordered(m, g) && Family(m, cur, p, gp, which) && Continues(m, cur)
    requires BAADone(m, r, root, root', g, g', cur, p, gp, which, next)
    ensures Climb(r, g', next) < Climb(m, g, cur) && next in r
  {
    BAAKeepsNodes(m, r, root, root', g, g', cur, p, gp, which, next);
    if IsRed(m, Child(m[gp], which)) {
      RecolourClimbs(m, root, g, cur, p, Child(m[gp], which), gp, which);
    } else if Child(m[p], which) == cur {
      NearTurnEnds(m, root, g, cur, p, gp, which);
    } else {
      FarTurnEnds(m, root, g, cur, p, gp, which);
    }
  }

  lemma TwistedPlaces(m: Mem, root: Node?, g: map<Node, Range>, cur: Node, p: Node, gp: Node, which: Dir)
    requires Linked(m, root) && Ordered(m, g) && gp in m && cur in m && p in m
    requires Child(m[gp], Opp(which)) == cur && m[p].parent == cur && Child(m[cur], Opp(which)) == p
    ensures p != gp && p != cur && p != m[gp].parent && p != Child(m[cur], which)
  {
    assert NodeLinked(m, root, gp) && NodeLinked(m, root, cur);
    assert NodeOrdered(m, g, gp) && NodeOrdered(m, g, cur) && NodeOrdered(m, g, p);
    SmallerRange(m, g, gp, Opp(which));
    SmallerRange(m, g, cur, Opp(which));
    SmallerRange(m, g, p, LEFT);
    SmallerRange(m, g, p, RIGHT);
  }
}
