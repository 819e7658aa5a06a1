/** The loop of TreeBalanceAfterAdd as a whole, and the one case in which it leaves a tree that is not balanced. */
module TreeAddLoop {
  import opened TreeNodes
  import opened TreeRotation
  import opened TreeBalance
  import opened TreeInsert
  import opened TreeOrder

  // ---------- a twisted turn unbalances the tree ----------

  /** The number of black nodes on the leftmost path below and including the node. */
  ghost function BlackDepth(m: Mem, root: Node?, g: map<Node, Range>, n: Node?): nat
    requires Tree(m, root, g) && (n != null ==> n in m)
    decreases Width(g, n)
  {
    if n == null then 0
    else
      assert NodeLinked(m, root, n) && NodeOrdered(m, g, n);
      BlackDepth(m, root, g, m[n].left) + Black(m[n])
  }

  ghost predicate NodeEven(m: Mem, root: Node?, g: map<Node, Range>, n: Node)
    requires Tree(m, root, g) && n in m
  {
    assert NodeLinked(m, root, n);
    BlackDepth(m, root, g, m[n].left) == BlackDepth(m, root, g, m[n].right)
  }

  /** Some node has more black nodes on one side than on the other. */
  ghost predicate Lopsided(m: Mem, root: Node?, g: map<Node, Range>) {
    Tree(m, root, g) && exists n :: n in m && !NodeEven(m, root, g, n)
  }

  lemma {:induction false} HeightIsDepth(m: Mem, root: Node?, g: map<Node, Range>, h: map<Node, nat>, n: Node?)
    requires Tree(m, root, g) && Balanced(m, h) && (n != null ==> n in m)
    ensures Height(h, n) == BlackDepth(m, root, g, n)
    decreases Width(g, n)
  {
    if n != null {
      assert NodeLinked(m, root, n) && NodeOrdered(m, g, n) && NodeBalanced(m, h, n);
      HeightIsDepth(m, root, g, h, m[n].left);
    }
  }

  /** Black heights fit a tree exactly when it is not lopsided; `Depths` are then the only ones. */
  lemma BalancedIffNotLopsided(m: Mem, root: Node?, g: map<Node, Range>, h: map<Node, nat>)
    requires Tree(m, root, g)
    ensures Balanced(m, h) ==> !Lopsided(m, root, g)
    ensures !Lopsided(m, root, g) ==> Balanced(m, Depths(m, root, g))
  {
    if Balanced(m, h) {
      forall n | n in m
        ensures NodeEven(m, root, g, n)
      {
        assert NodeLinked(m, root, n) && NodeBalanced(m, h, n);
        HeightIsDepth(m, root, g, h, m[n].left);
        HeightIsDepth(m, root, g, h, m[n].right);
      }
    }
    if !Lopsided(m, root, g) {
      forall n | n in m
        ensures NodeBalanced(m, Depths(m, root, g), n)
      {
        assert NodeEven(m, root, g, n) && NodeLinked(m, root, n);
      }
    }
  }

  ghost function Depths(m: Mem, root: Node?, g: map<Node, Range>): map<Node, nat>
    requires Tree(m, root, g)
  {
    map n | n in m :: BlackDepth(m, root, g, n)
  }

  ghost predicate KeptAt(m: Mem, r: Mem, x: Node) {
    x in m && x in r && r[x].left == m[x].left && r[x].right == m[x].right && r[x].red == m[x].red
  }

  /** A subtree that is kept has the same black depth whatever happens around it. */
  lemma {:induction false} DepthIsKept(m: Mem, root: Node?, g: map<Node, Range>, r: Mem, root': Node?,
                                       g': map<Node, Range>,
                                       c: Node?)
    requires Tree(m, root, g) && Tree(r, root', g') && (c != null ==> c in m)
    requires forall x :: x in Under(m, root, g, c) ==> KeptAt(m, r, x)
    ensures (c != null ==> c in r) && BlackDepth(r, root', g', c) == BlackDepth(m, root, g, c)
    decreases Width(g, c)
  {
    if c != null {
      assert NodeLinked(m, root, c) && NodeOrdered(m, g, c);
      assert KeptAt(m, r, c);
      DepthIsKept(m, root, g, r, root', g', m[c].left);
    }
  }

  lemma TurnKeepsOthers(m: Mem, r: Mem, x: Node, y: Node, b: Node?, p: Node?, d: Dir, n: Node)
    requires Turned(m, r, x, y, b, p, d) && n in m && n != x && n != y && n != p
    ensures KeptAt(m, r, n)
  {
  }

  lemma TwistKeepsOthers(m: Mem, root: Node?, g: map<Node, Range>, cur: Node, p: Node, gp: Node, which: Dir, n: Node)
    requires Tree(m, root, g) && Family(m, cur, p, gp, which) && Child(m[p], which) == cur
    requires n in m && n != cur && n != p && n != gp && n != m[gp].parent
    ensures CanRotate(m, p, Opp(which))
    ensures var r := Rotate(m, p, Opp(which));
            CanRotate(r, gp, which) && Riser(r, gp, which) == cur && cur != gp && KeptAt(m, SwapTurn(r, gp, which), n)
  {
    FamilyDiffers(m, root, g, cur, p, gp, which);
    NearTree(m, root, g, cur, p, gp, which);
    var r, g' := Rotate(m, p, Opp(which)), RotatedRanges(m, g, p, Opp(which));
    var root' := RotatedRoot(m, root, p, Opp(which));
    RotateTurns(m, root, g, p, Opp(which));
    RotationKeepsLinks(m, root, g, p, Opp(which));
    RotationKeepsOrder(m, root, g, p, Opp(which));
    SwapTurns(r, root', g', gp, which);
    TurnKeepsOthers(m, r, p, cur, Child(m[cur], Opp(which)), gp, Opp(which), n);
    TurnKeepsOthers(Swapped(r, gp, which), SwapTurn(r, gp, which), gp, cur, Child(r[cur], which), r[gp].parent, which,
                    n);
  }

  /** The parent of the node ends up with its sibling on one side and a child of the node on the other. */
  lemma TwistPlacesParent(m: Mem, root: Node?, g: map<Node, Range>, cur: Node, p: Node, gp: Node, which: Dir)
    requires Tree(m, root, g) && Family(m, cur, p, gp, which) && Child(m[p], which) == cur
    ensures CanRotate(m, p, Opp(which))
    ensures var r := Rotate(m, p, Opp(which));
            && CanRotate(r, gp, which) && Riser(r, gp, which) == cur && cur != gp
            && var r' := SwapTurn(r, gp, which);
               && p in r' && Child(r'[p], Opp(which)) == Child(m[p], Opp(which))
               && Child(r'[p], which) == Child(m[cur], Opp(which))
  {
    FamilyDiffers(m, root, g, cur, p, gp, which);
    NearTree(m, root, g, cur, p, gp, which);
    var r, g' := Rotate(m, p, Opp(which)), RotatedRanges(m, g, p, Opp(which));
    var root' := RotatedRoot(m, root, p, Opp(which));
    RotateTurns(m, root, g, p, Opp(which));
    RotationKeepsLinks(m, root, g, p, Opp(which));
    RotationKeepsOrder(m, root, g, p, Opp(which));
    SwapTurns(r, root', g', gp, which);
    TwistedPlaces(r, root', g', cur, p, gp, which);
    TurnKeepsOthers(Swapped(r, gp, which), SwapTurn(r, gp, which), gp, cur, Child(r[cur], which), r[gp].parent, which,
                    p);
  }

  /** The nodes below the sibling and below the child that changes hands are none of those that turn. */
  lemma BelowTheTwist(m: Mem, root: Node?, g: map<Node, Range>, cur: Node, p: Node, gp: Node, which: Dir, c: Node?,
                      x: Node)
    requires Tree(m, root, g) && Family(m, cur, p, gp, which) && Child(m[p], which) == cur
    requires c == Child(m[p], Opp(which)) || c == Child(m[cur], Opp(which))
    requires (c != null ==> c in m) && x in Under(m, root, g, c)
    ensures x in m && x != cur && x != p && x != gp && x != m[gp].parent
  {
    assert NodeLinked(m, root, cur) && NodeLinked(m, root, p) && NodeLinked(m, root, gp);
    assert NodeOrdered(m, g, cur) && NodeOrdered(m, g, p) && NodeOrdered(m, g, gp);
    UnderInside(m, root, g, c, x);
    SmallerRange(m, g, gp, Opp(which));
    SmallerRange(m, g, p, Opp(which));
    SmallerRange(m, g, p, which);
    SmallerRange(m, g, cur, Opp(which));
    if m[gp].parent != null {
      assert NodeOrdered(m, g, m[gp].parent);
      SmallerRange(m, g, m[gp].parent, LEFT);
      SmallerRange(m, g, m[gp].parent, RIGHT);
    }
    assert NodeOrdered(m, g, x);
    UnderDisjoint(m, root, g, p);
    assert cur in Under(m, root, g, cur);
  }

  lemma TwistedBreaks(m: Mem, r: Mem, root: Node?, root': Node?, g: map<Node, Range>, g': map<Node, Range>,
                      h: map<Node, nat>, cur: Node, p: Node, gp: Node, which: Dir, next: Node)
    requires Tree(m, root, g) && Balanced(m, h) && Twisted(m, cur, p, gp, which) && Tree(r, root', g')
    requires BAADone(m, r, root, root', g, g', cur, p, gp, which, next)
    ensures Lopsided(r, root', g')
  {
    var s, b := Child(m[p], Opp(which)), Child(m[cur], Opp(which));
    assert NodeLinked(m, root, p) && NodeLinked(m, root, cur);
    TwistPlacesParent(m, root, g, cur, p, gp, which);
    TwistKeepsSubtree(m, r, root, root', g, g', cur, p, gp, which, next, s);
    TwistKeepsSubtree(m, r, root, root', g, g', cur, p, gp, which, next, b);
    assert NodeBalanced(m, h, p) && NodeBalanced(m, h, cur);
    HeightIsDepth(m, root, g, h, s);
    HeightIsDepth(m, root, g, h, b);
    assert !NodeEven(r, root', g', p);
  }

  lemma TwistKeepsSubtree(m: Mem, r: Mem, root: Node?, root': Node?, g: map<Node, Range>, g': map<Node, Range>,
                          cur: Node, p: Node, gp: Node, which: Dir, next: Node, c: Node?)
    requires Tree(m, root, g) && Twisted(m, cur, p, gp, which) && Tree(r, root', g')
    requires BAADone(m, r, root, root', g, g', cur, p, gp, which, next)
    requires (c == Child(m[p], Opp(which)) || c == Child(m[cur], Opp(which))) && (c != null ==> c in m)
    ensures (c != null ==> c in r) && BlackDepth(r, root', g', c) == BlackDepth(m, root, g, c)
  {
    forall x | x in Under(m, root, g, c)
      ensures KeptAt(m, r, x)
    {
      BelowTheTwist(m, root, g, cur, p, gp, which, c, x);
      TwistKeepsOthers(m, root, g, cur, p, gp, which, x);
    }
    DepthIsKept(m, root, g, r, root', g', c);
  }

  /** Painting the root black does not put it right. */
  lemma PaintStaysLopsided(m: Mem, root: Node, g: map<Node, Range>)
    requires Lopsided(m, root, g)
    ensures Lopsided(m[root := m[root].(red := false)], root, g)
  {
    var r := m[root := m[root].(red := false)];
    PaintKeepsTree(m, root, g);
    var n :| n in m && !NodeEven(m, root, g, n);
    assert NodeLinked(m, root, n);
    PaintKeepsDepth(m, root, g, n, m[n].left);
    PaintKeepsDepth(m, root, g, n, m[n].right);
    assert !NodeEven(r, root, g, n);
  }

  lemma PaintKeepsDepth(m: Mem, root: Node, g: map<Node, Range>, n: Node, c: Node?)
    requires Tree(m, root, g) && n in m && (c == m[n].left || c == m[n].right)
    requires Tree(m[root := m[root].(red := false)], root, g)
    ensures c != null ==> c in m
    ensures BlackDepth(m[root := m[root].(red := false)], root, g, c) == BlackDepth(m, root, g, c)
  {
    assert NodeLinked(m, root, n) && NodeOrdered(m, g, n);
    forall x | x in Under(m, root, g, c)
      ensures KeptAt(m, m[root := m[root].(red := false)], x)
    {
      UnderInside(m, root, g, c, x);
      RootReachesAll(m, root, g, n);
      UnderInside(m, root, g, root, n);
    }
    DepthIsKept(m, root, g, m[root := m[root].(red := false)], root, g, c);
  }

  lemma FamilyUnique(m: Mem, root: Node?, g: map<Node, Range>, cur: Node, p: Node, gp: Node, which: Dir)
    requires Tree(m, root, g) && Family(m, cur, p, gp, which) && !Twisted(m, cur, p, gp, which)
    ensures !IsTwisted(m, cur)
  {
    FamilyDiffers(m, root, g, cur, p, gp, which);
  }

  // ---------- the whole loop ----------

  /** The loop of TreeBalanceAfterAdd that began with `m` at `start`. As long as `ok`, the tree can be put
      right; if it could be at first, it stops being so only when the first turn is twisted. */
  ghost predicate AddLoop(m: Mem, start: Node, first: bool, r: Mem, root: Node?, g: map<Node, Range>,
                          h: map<Node, nat>, cur: Node, ok: bool) {
    && SameNodes(m, r) && cur in r && root != null
    && (ok ==> && AddInv(r, root, g, h, cur)
               && ((r == m && cur == start) || r[cur].red || !Continues(r, cur)))
    && (first && !ok ==> IsTwisted(m, start) && Lopsided(r, root, g) && !Continues(r, cur))
    && (ok && IsTwisted(m, start) ==> r == m && cur == start)
  }

  ghost function AddHeights(m: Mem, h: map<Node, nat>, cur: Node, p: Node, gp: Node, which: Dir): map<Node, nat>
    requires Family(m, cur, p, gp, which)
  {
    if Twisted(m, cur, p, gp, which) then h else BAAHeights(m, h, cur, p, gp, which)
  }

  lemma AddLoopStep(m: Mem, start: Node, first: bool, r: Mem, root: Node?, g: map<Node, Range>, h: map<Node, nat>,
                    cur: Node, ok: bool,
                    r': Mem, root': Node?, g': map<Node, Range>, p: Node, gp: Node, which: Dir, next: Node)
    requires AddLoop(m, start, first, r, root, g, h, cur, ok) && Continues(r, cur) && Family(r, cur, p, gp, which)
    requires BAADone(r, r', root, root', g, g', cur, p, gp, which, next)
    requires Linked(r, root) && Ordered(r, g) && Linked(r', root') && Ordered(r', g')
    ensures next in r' && Climb(r', g', next) < Climb(r, g, cur)
    ensures AddLoop(m, start, first, r', root', g', AddHeights(r, h, cur, p, gp, which),
                    next, ok && !Twisted(r, cur, p, gp, which))
  {
    BAAKeepsNodes(r, r', root, root', g, g', cur, p, gp, which, next);
    BAAClimbs(r, r', root, root', g, g', cur, p, gp, which, next);
    if ok && Twisted(r, cur, p, gp, which) {
      NearTurnEnds(r, root, g, cur, p, gp, which);
      TwistedBreaks(r, r', root, root', g, g', h, cur, p, gp, which, next);
    } else if ok {
      assert !IsTwisted(r, cur) by {
        FamilyUnique(r, root, g, cur, p, gp, which);
      }
      BAAStep(r, r', root, root', g, g', h, cur, p, gp, which, next);
      BAANextIsRed(r, r', root, root', g, g', h, cur, p, gp, which, next);
    }
  }

  lemma AddLoopBegins(m: Mem, root: Node?, g: map<Node, Range>, h: map<Node, nat>, start: Node)
    requires start in m && root != null
    ensures var first := AddInv(m, root, g, h, start);
            AddLoop(m, start, first, m, root, g, h, start, first)
  {
  }

  lemma LinkedUp(m: Mem, root: Node?, cur: Node)
    requires Linked(m, root) && cur in m
    ensures root != null
    ensures m[cur].parent != null ==> m[cur].parent in m
  {
    assert NodeLinked(m, root, cur);
  }

  ghost function RaisedTop(h: map<Node, nat>, m: Mem, root: Node?): map<Node, nat> {
    if root != null && root in m && root in h && m[root].red then h[root := h[root] + 1] else h
  }

  /** What TreeBalanceAfterAdd, begun with `m` at `start`, comes to. */
  ghost predicate AddDone(m: Mem, start: Node, first: bool, r: Mem, root: Node?, g: map<Node, Range>,
                          h: map<Node, nat>) {
    && SameNodes(m, r) && root != null
    && (first ==> if IsTwisted(m, start) then Lopsided(r, root, g) else RedBlack(r, root, g, h))
  }

  lemma AddLoopEnds(m: Mem, start: Node, first: bool, r: Mem, root: Node?, g: map<Node, Range>, h: map<Node, nat>,
                    cur: Node, ok: bool)
    requires AddLoop(m, start, first, r, root, g, h, cur, ok) && Linked(r, root) && Ordered(r, g) && !Continues(r, cur)
    ensures root != null && root in r
    ensures var r' := r[root := r[root].(red := false)];
            Linked(r', root) && Ordered(r', g) && AddDone(m, start, first, r', root, g, RaisedTop(h, r, root))
  {
    PaintKeepsTree(r, root, g);
    if first && !ok {
      PaintStaysLopsided(r, root, g);
    }
    if ok {
      AddEnds(r, root, g, h, cur);
      assert h[root := h[root] + if r[root].red then 1 else 0] == RaisedTop(h, r, root);
    }
  }

  /** The key is that of a black node on the near side of a red parent, with a black uncle. */
  ghost predicate TwistedKey(m: Mem, k: int) {
    exists n :: n in m && Key(m[n]) == k && IsTwisted(m, n)
  }

  lemma TwistedKeyIs(m: Mem, root: Node?, g: map<Node, Range>, n: Node)
    requires Tree(m, root, g) && n in m
    ensures TwistedKey(m, Key(m[n])) <==> IsTwisted(m, n)
  {
    if TwistedKey(m, Key(m[n])) {
      var x :| x in m && Key(m[x]) == Key(m[n]) && IsTwisted(m, x);
      KeysDiffer(m, root, g, x, n);
    }
  }

  lemma RedIsNotTwisted(m: Mem, n: Node)
    requires n in m && m[n].red
    ensures !IsTwisted(m, n)
  {
  }

  // ---------- the twisted case does occur ----------

  ghost function Leaf(p: Node, key: int): Rec {
    Rec(p, null, null, Content(key, []), 0, false)
  }

  /** 10 above 5 and 15, where 5 is red and has the black children 3 and 7. */
  ghost function SmallTree(ten: Node, five: Node, fifteen: Node, three: Node, seven: Node): Mem {
    map[ten := Rec(null, five, fifteen, Content(10, []), 0, false),
        five := Rec(ten, three, seven, Content(5, []), 0, true),
        fifteen := Leaf(ten, 15), three := Leaf(five, 3), seven := Leaf(five, 7)]
  }

  /** It is a red-black tree, and replacing what it holds under 7 unbalances it. */
  lemma SmallTreeIsTwisted(ten: Node, five: Node, fifteen: Node, three: Node, seven: Node)
    requires |{ten, five, fifteen, three, seven}| == 5
    ensures var m := SmallTree(ten, five, fifteen, three, seven);
            var g := map[ten := Range(0, 20), five := Range(0, 10), fifteen := Range(10, 20),
                         three := Range(0, 5), seven := Range(5, 10)];
            var h: map<Node, nat> := map[ten := 2, five := 1, fifteen := 1, three := 1, seven := 1];
            RedBlack(m, ten, g, h) && Key(m[seven]) == 7 && IsTwisted(m, seven)
  {
    FiveDiffer(ten, five, fifteen, three, seven);
    var m := SmallTree(ten, five, fifteen, three, seven);
    assert NoRedRed(m);
    assert Twisted(m, seven, five, ten, RIGHT);
  }

  lemma FiveDiffer<T>(a: T, b: T, c: T, d: T, e: T)
    requires |{a, b, c, d, e}| == 5
    ensures a != b && a != c && a != d && a != e && b != c && b != d && b != e && c != d && c != e && d != e
  {
  }
}
