/** A rotation keeps links and order, and moves no content. */
module TreeRotation {
  import opened TreeNodes

  /** The ranges of the children are strictly smaller, so child pointers cannot lead round a circle. */
  lemma SmallerRange(m: Mem, g: map<Node, Range>, n: Node, d: Dir)
    requires n in m && NodeOrdered(m, g, n)
    ensures var c := Child(m[n], d);
            c != null ==> c in g && g[n].lo <= g[c].lo && g[c].hi <= g[n].hi && g[c].hi - g[c].lo < g[n].hi - g[n].lo
  {
  }

  /** The nodes a rotation touches are four different ones. */
  lemma RotationNodes(m: Mem, root: Node?, g: map<Node, Range>, x: Node, d: Dir)
    requires Linked(m, root) && Ordered(m, g) && CanRotate(m, x, d)
    ensures var y := Riser(m, x, d);
            var b, p := Child(m[y], d), m[x].parent;
            && y != x && m[y].parent == x
            && (b != null ==> b in m && b != x && b != y && m[b].parent == y)
            && (p != null ==> p in m && p != x && p != y && p != b && (m[p].left == x) != (m[p].right == x))
  {
    var y := Riser(m, x, d);
    var b, p := Child(m[y], d), m[x].parent;
    assert NodeLinked(m, root, x) && NodeLinked(m, root, y);
    SmallerRange(m, g, x, Opp(d));
    SmallerRange(m, g, y, d);
    if p != null {
      assert NodeLinked(m, root, p);
      SmallerRange(m, g, p, LEFT);
      SmallerRange(m, g, p, RIGHT);
    }
  }

  /** `r` is `m` with `y` turned up over its parent `x`, where `b` is the child that changes hands and `p` the
      parent of the two. */
  ghost predicate Turned(m: Mem, r: Mem, x: Node, y: Node, b: Node?, p: Node?, d: Dir) {
    && x in m && y in m && x != y
    && Child(m[x], Opp(d)) == y && m[y].parent == x && Child(m[y], d) == b && m[x].parent == p
    && (b != null ==> b in m && b != x && b != y && m[b].parent == y)
    && (p != null ==> p in m && p != x && p != y && p != b && (m[p].left == x) != (m[p].right == x))
    && r.Keys == m.Keys
    && r[x] == WithChild(m[x], Opp(d), b).(parent := y)
    && r[y] == WithChild(m[y], d, x).(parent := p)
    && (b != null ==> r[b] == m[b].(parent := x))
    && (p != null ==> r[p] == Redirect(m[p], x, y))
    && (forall n :: n in m && n != x && n != y && n != b && n != p ==> r[n] == m[n])
  }

  lemma RotateTurns(m: Mem, root: Node?, g: map<Node, Range>, x: Node, d: Dir)
    requires Linked(m, root) && Ordered(m, g) && CanRotate(m, x, d)
    ensures var y := Riser(m, x, d);
            Turned(m, Rotate(m, x, d), x, y, Child(m[y], d), m[x].parent, d)
  {
    RotationNodes(m, root, g, x, d);
  }

  lemma TurnedPairLinked(m: Mem, r: Mem, x: Node, y: Node, b: Node?, p: Node?, d: Dir, root: Node?)
    requires Turned(m, r, x, y, b, p, d) && NodeLinked(m, root, x) && NodeLinked(m, root, y)
    ensures NodeLinked(r, if p == null then y else root, x)
    ensures NodeLinked(r, if p == null then y else root, y)
  {
  }

  lemma TurnedNeighboursLinked(m: Mem, r: Mem, x: Node, y: Node, b: Node?, p: Node?, d: Dir, root: Node?)
    requires Turned(m, r, x, y, b, p, d)
    requires p != null ==> NodeLinked(m, root, p)
    requires b != null ==> NodeLinked(m, root, b)
    ensures p != null ==> NodeLinked(r, root, p)
    ensures b != null ==> NodeLinked(r, if p == null then y else root, b)
  {
  }

  lemma TurnedOthersLinked(m: Mem, r: Mem, x: Node, y: Node, b: Node?, p: Node?, d: Dir, root: Node?, n: Node)
    requires Turned(m, r, x, y, b, p, d) && n in m && n != x && n != y && n != b && n != p
    requires NodeLinked(m, root, n) && (m[n].parent == null ==> p != null)
    ensures NodeLinked(r, if p == null then y else root, n)
  {
  }

  lemma RotationKeepsLinks(m: Mem, root: Node?, g: map<Node, Range>, x: Node, d: Dir)
    requires Linked(m, root) && Ordered(m, g) && CanRotate(m, x, d)
    ensures Linked(Rotate(m, x, d), RotatedRoot(m, root, x, d))
  {
    var r, root' := Rotate(m, x, d), RotatedRoot(m, root, x, d);
    var y := Riser(m, x, d);
    var b, p := Child(m[y], d), m[x].parent;
    RotateTurns(m, root, g, x, d);
    assert NodeLinked(m, root, x) && NodeLinked(m, root, y);
    assert root' == if p == null then y else root;
    TurnedPairLinked(m, r, x, y, b, p, d, root);
    TurnedNeighboursLinked(m, r, x, y, b, p, d, root);
    forall n | n in r
      ensures NodeLinked(r, root', n)
    {
      if n != x && n != y && n != b && n != p {
        assert NodeLinked(m, root, n);
        TurnedOthersLinked(m, r, x, y, b, p, d, root, n);
      }
    }
  }

  ghost predicate Widened(m: Mem, g: map<Node, Range>, g': map<Node, Range>, x: Node, y: Node, d: Dir) {
    && x in m && y in m && x in g
    && g' == g[y := g[x]][x := if d == LEFT then Range(g[x].lo, Key(m[y])) else Range(Key(m[y]), g[x].hi)]
  }

  lemma TurnedPairOrdered(m: Mem, r: Mem, x: Node, y: Node, b: Node?, p: Node?, d: Dir,
                          g: map<Node, Range>, g': map<Node, Range>, root: Node?)
    requires Turned(m, r, x, y, b, p, d) && Widened(m, g, g', x, y, d)
    requires NodeOrdered(m, g, x) && NodeOrdered(m, g, y) && NodeLinked(m, root, x) && NodeLinked(m, root, y)
    ensures NodeOrdered(r, g', x) && NodeOrdered(r, g', y)
  {
    var a, c := Child(m[x], d), Child(m[y], Opp(d));
    SmallerRange(m, g, x, d);
    SmallerRange(m, g, y, Opp(d));
    assert a != x && a != y;
    assert c != y && c != x;
  }

  lemma TurnedOthersOrdered(m: Mem, r: Mem, x: Node, y: Node, b: Node?, p: Node?, d: Dir,
                            g: map<Node, Range>, g': map<Node, Range>, root: Node?, n: Node)
    requires Turned(m, r, x, y, b, p, d) && Widened(m, g, g', x, y, d)
    requires n in m && n != x && n != y
    requires NodeOrdered(m, g, n) && NodeLinked(m, root, n)
    ensures NodeOrdered(r, g', n)
  {
  }

  lemma RotationKeepsOrder(m: Mem, root: Node?, g: map<Node, Range>, x: Node, d: Dir)
    requires Linked(m, root) && Ordered(m, g) && CanRotate(m, x, d)
    ensures x in g && Ordered(Rotate(m, x, d), RotatedRanges(m, g, x, d))
  {
    assert NodeOrdered(m, g, x);
    var r, g' := Rotate(m, x, d), RotatedRanges(m, g, x, d);
    var y := Riser(m, x, d);
    var b, p := Child(m[y], d), m[x].parent;
    RotateTurns(m, root, g, x, d);
    assert NodeLinked(m, root, x) && NodeLinked(m, root, y);
    TurnedPairOrdered(m, r, x, y, b, p, d, g, g', root);
    forall n | n in r
      ensures NodeOrdered(r, g', n)
    {
      if n != x && n != y {
        assert NodeOrdered(m, g, n) && NodeLinked(m, root, n);
        TurnedOthersOrdered(m, r, x, y, b, p, d, g, g', root, n);
      }
    }
  }

  ghost predicate SameNodes(m: Mem, r: Mem) {
    r.Keys == m.Keys && forall n :: n in m ==> r[n].content == m[n].content && r[n].size == m[n].size
  }

  ghost predicate SameColours(m: Mem, r: Mem) {
    forall n :: n in m && n in r ==> r[n].red == m[n].red
  }

  /** Nothing but links changes. */
  lemma RotationKeepsContents(m: Mem, root: Node?, g: map<Node, Range>, x: Node, d: Dir)
    requires Linked(m, root) && Ordered(m, g) && CanRotate(m, x, d)
    ensures SameNodes(m, Rotate(m, x, d)) && SameColours(m, Rotate(m, x, d))
  {
    RotateTurns(m, root, g, x, d);
  }
}
