/**
 Hanging a new leaf into a tree, taking a node out, and moving the content of the next node into the place of a
 node with two children. Ranges of keys are chosen so that each of these fits in: a new leaf gets what is left of
 the range of its parent, the child of a removed node gets the range of that node, and a moved key is still
 between everything on its left and everything on its right.
 */
module TreeSplice {
  import opened TreeNodes
  import opened TreeRotation
  import opened TreeBalance
  import opened TreeInsert
  import opened TreeDelete
  import opened TreeOrder
  import opened TreeContents

  // ---------- a new leaf ----------

  ghost function Stretched(r: Range, k: int): Range {
    Range(if r.lo < k then r.lo else k - 1, if k < r.hi then r.hi else k + 1)
  }

  /** On the way down to the place of a key, the range of each node can be made to include the key. */
  lemma StretchStep(m: Mem, root: Node?, g: map<Node, Range>, n: Node, k: int)
    requires Tree(m, root, g) && n in m
    requires m[n].parent != null ==> exists d :: OnTheWay(m, g, m[n].parent, d, n, k)
    ensures n in g && Tree(m, root, g[n := Stretched(g[n], k)])
  {
    assert NodeOrdered(m, g, n);
    var g' := g[n := Stretched(g[n], k)];
    forall x | x in m
      ensures NodeOrdered(m, g', x)
    {
      assert NodeOrdered(m, g, x) && NodeLinked(m, root, x) && NodeLinked(m, root, n);
    }
  }

  /** The key belongs below `p` on side `d`, where `n` is. */
  ghost predicate OnTheWay(m: Mem, g: map<Node, Range>, p: Node, d: Dir, n: Node?, k: int) {
    && p in m && p in g && Child(m[p], d) == n && g[p].lo < k < g[p].hi
    && if d == LEFT then k < Key(m[p]) else Key(m[p]) < k
  }

  ghost predicate FreePlace(m: Mem, g: map<Node, Range>, p: Node, d: Dir, k: int) {
    OnTheWay(m, g, p, d, null, k)
  }

  lemma PlaceIsInTree(m: Mem, g: map<Node, Range>, p: Node, d: Dir, k: int)
    requires FreePlace(m, g, p, d, k)
    ensures p in m && p in g
  {
  }

  ghost function Attached(m: Mem, p: Node, d: Dir, x: Node, content: Content, size: int): Mem
    requires p in m
  {
    m[p := WithChild(m[p], d, x)][x := Rec(p, null, null, content, size, true)]
  }

  ghost function AttachedRanges(m: Mem, g: map<Node, Range>, p: Node, d: Dir, x: Node): map<Node, Range>
    requires p in m && p in g
  {
    g[x := if d == LEFT then Range(g[p].lo, Key(m[p])) else Range(Key(m[p]), g[p].hi)]
  }

  lemma AttachLinks(m: Mem, root: Node, p: Node, d: Dir, x: Node, content: Content, size: int)
    requires Linked(m, root) && p in m && Child(m[p], d) == null && x !in m && content != NULL
    ensures Linked(Attached(m, p, d, x, content, size), root)
  {
    var r := Attached(m, p, d, x, content, size);
    forall n | n in r
      ensures NodeLinked(r, root, n)
    {
      if n != x {
        assert NodeLinked(m, root, n);
      }
    }
  }

  lemma AttachTree(m: Mem, root: Node, g: map<Node, Range>, p: Node, d: Dir, x: Node, content: Content, size: int)
    requires content != NULL && Tree(m, root, g) && FreePlace(m, g, p, d, content.key) && x !in m
    ensures Tree(Attached(m, p, d, x, content, size), root, AttachedRanges(m, g, p, d, x))
  {
    var r, g' := Attached(m, p, d, x, content, size), AttachedRanges(m, g, p, d, x);
    AttachLinks(m, root, p, d, x, content, size);
    forall n | n in r
      ensures NodeOrdered(r, g', n)
    {
      if n != x {
        assert NodeLinked(m, root, n) && NodeOrdered(m, g, n);
      } else {
        assert NodeOrdered(m, g, p);
      }
    }
  }

  lemma AttachColours(m: Mem, root: Node, g: map<Node, Range>, h: map<Node, nat>,
                      p: Node, d: Dir, x: Node, content: Content, size: int)
    requires Linked(m, root) && NoRedRed(m) && p in m && x !in m
    ensures RedRedOnlyAt(Attached(m, p, d, x, content, size), x)
  {
    var r := Attached(m, p, d, x, content, size);
    forall n, e | n in r && r[n].red && IsRed(r, Child(r[n], e))
      ensures Child(r[n], e) == x
    {
      if n != x {
        assert NodeLinked(m, root, n);
        assert !IsRed(m, Child(m[n], e));
      }
    }
  }

  lemma AttachHeights(m: Mem, root: Node, g: map<Node, Range>, h: map<Node, nat>,
                      p: Node, d: Dir, x: Node, content: Content, size: int)
    requires Linked(m, root) && Balanced(m, h) && p in m && x !in m && Child(m[p], d) == null
    ensures Balanced(Attached(m, p, d, x, content, size), h[x := 0])
  {
    var r := Attached(m, p, d, x, content, size);
    forall n | n in r
      ensures NodeBalanced(r, h[x := 0], n)
    {
      if n != x {
        assert NodeLinked(m, root, n) && NodeBalanced(m, h, n);
      }
    }
  }

  lemma AttachStep(m: Mem, root: Node, g: map<Node, Range>, h: map<Node, nat>,
                   p: Node, d: Dir, x: Node, content: Content, size: int)
    requires content != NULL && RedBlack(m, root, g, h) && FreePlace(m, g, p, d, content.key) && x !in m
    ensures AddInv(Attached(m, p, d, x, content, size), root, AttachedRanges(m, g, p, d, x), h[x := 0], x)
  {
    AttachTree(m, root, g, p, d, x, content, size);
    AttachColours(m, root, g, h, p, d, x, content, size);
    AttachHeights(m, root, g, h, p, d, x, content, size);
  }

  lemma OtherRanges(m: Mem, root: Node?, g: map<Node, Range>, g': map<Node, Range>, h: map<Node, nat>)
    requires RedBlack(m, root, g, h) && Tree(m, root, g')
    ensures RedBlack(m, root, g', h)
  {
  }

  lemma AttachEntries(m: Mem, e: map<int, Entry>, p: Node, d: Dir, x: Node, content: Content, size: int)
    requires Holds(m, e) && p in m && x !in m && content != NULL && content.key !in e
    ensures Holds(Attached(m, p, d, x, content, size), e[content.key := Entry(content, size)])
  {
    var r := Attached(m, p, d, x, content, size);
    var e' := e[content.key := Entry(content, size)];
    forall n | n in r
      ensures Key(r[n]) in e' && e'[Key(r[n])] == EntryOf(r[n])
    {
      if n != x {
        assert EntryOf(r[n]) == EntryOf(m[n]) && Key(r[n]) == Key(m[n]);
      }
    }
    forall k | k in e'
      ensures HasKey(r, k)
    {
      if k == content.key {
        assert Key(r[x]) == k;
      } else {
        assert HasKey(m, k);
        var n: Node :| n in m && Key(m[n]) == k;
        assert Key(r[n]) == k;
      }
    }
  }

  // ---------- the first node, and new content in an old node ----------

  lemma FirstNode(x: Node, content: Content, size: int)
    requires content != NULL
    ensures var m, g: map<Node, Range>, h: map<Node, nat> :=
              map[x := Rec(null, null, null, content, size, true)],
              map[x := Range(content.key - 1, content.key + 1)], map[x := 0];
            && Tree(m, x, g) && AddInv(m, x, g, h, x)
            && Holds(m, map[content.key := Entry(content, size)])
  {
    var m: Mem := map[x := Rec(null, null, null, content, size, true)];
    assert Key(m[x]) == content.key;
  }

  /** The links and colours of a tree decide whether it is one; contents only have to keep their keys. */
  lemma ReplaceTree(m: Mem, root: Node?, g: map<Node, Range>, z: Node, content: Content, size: int)
    requires Tree(m, root, g) && z in m && content != NULL && content.key == Key(m[z])
    ensures Tree(Moved(m, z, content, size), root, g)
    ensures SameSkeleton(m, Moved(m, z, content, size))
  {
    var r := Moved(m, z, content, size);
    MoveLinks(m, root, z, content, size);
    forall n | n in r
      ensures NodeOrdered(r, g, n)
    {
      assert NodeOrdered(m, g, n);
    }
  }

  lemma ReplaceKeepsColours(m: Mem, root: Node?, g: map<Node, Range>, h: map<Node, nat>, z: Node, content: Content,
                            size: int)
    requires RedBlack(m, root, g, h) && z in m && content != NULL && content.key == Key(m[z])
    ensures AddInv(Moved(m, z, content, size), root, g, h, z)
  {
    var r := Moved(m, z, content, size);
    ReplaceTree(m, root, g, z, content, size);
    BalancedButNone(m, h, LEFT);
    SkeletonKeepsColours(m, r, h, null, LEFT, null);
    BalancedButNone(r, h, LEFT);
    assert NoRedRed(r);
  }

  lemma ReplaceEntries(m: Mem, root: Node?, g: map<Node, Range>, z: Node, content: Content, size: int,
                       e: map<int, Entry>)
    requires Tree(m, root, g) && z in m && content != NULL && content.key == Key(m[z]) && Holds(m, e)
    ensures Holds(Moved(m, z, content, size), e[content.key := Entry(content, size)])
  {
    ReplaceTree(m, root, g, z, content, size);
    MoveEntries(m, root, g, z, content, size, g, e);
    PutBack(e, content.key, Entry(content, size));
  }

  lemma PutBack(e: map<int, Entry>, k: int, x: Entry)
    ensures (e - {k})[k := x] == e[k := x]
  {
  }

  lemma SameTwist(m: Mem, r: Mem, z: Node)
    requires SameSkeleton(m, r)
    ensures IsTwisted(m, z) <==> IsTwisted(r, z)
  {
    if IsTwisted(m, z) {
      var p := m[z].parent;
      var which :| Twisted(m, z, p, m[p].parent, which);
      assert Twisted(r, z, p, m[p].parent, which);
    }
    if IsTwisted(r, z) {
      var p := r[z].parent;
      var which :| Twisted(r, z, p, r[p].parent, which);
      assert Twisted(m, z, p, r[p].parent, which);
    }
  }

  // ---------- taking a node out ----------

  ghost function OnlyChild(m: Mem, u: Node): Node?
    requires u in m
  {
    if m[u].left != null then m[u].left else m[u].right
  }

  ghost predicate CanSplice(m: Mem, u: Node) {
    u in m && (m[u].left == null || m[u].right == null)
  }

  /** The only child of `u` is given its parent. */
  ghost function Lifted(m: Mem, u: Node): Mem
    requires u in m
  {
    var c := OnlyChild(m, u);
    if c != null && c in m then m[c := m[c].(parent := m[u].parent)] else m
  }

  /** What `p` had as `u` it has as `c`. */
  ghost function Bypassed(m: Mem, p: Node?, u: Node, c: Node?): Mem {
    if p != null && p in m then m[p := Redirect(m[p], u, c)] else m
  }

  /** The tree with `u` out and its only child, if any, in its place. */
  ghost function Spliced(m: Mem, u: Node): Mem
    requires u in m
  {
    Bypassed(Lifted(m, u), m[u].parent, u, OnlyChild(m, u)) - {u}
  }

  ghost function SplicedRoot(m: Mem, root: Node?, u: Node): Node?
    requires u in m
  {
    if m[u].parent == null then OnlyChild(m, u) else root
  }

  lemma SpliceNeighbours(m: Mem, root: Node?, g: map<Node, Range>, u: Node)
    requires Tree(m, root, g) && CanSplice(m, u)
    ensures var c, p := OnlyChild(m, u), m[u].parent;
            && (c != null ==> c in m && c != u && c != p && m[c].parent == u)
            && (p != null ==> p in m && p != u && (m[p].left == u) != (m[p].right == u)
                              && Child(m[p], SideOf(m, u)) == u)
  {
    var c, p := OnlyChild(m, u), m[u].parent;
    assert NodeLinked(m, root, u);
    SmallerRange(m, g, u, LEFT);
    SmallerRange(m, g, u, RIGHT);
    if p != null {
      assert NodeLinked(m, root, p);
      SmallerRange(m, g, p, SideOf(m, u));
    }
  }

  lemma SpliceNodes(m: Mem, root: Node?, g: map<Node, Range>, u: Node)
    requires Tree(m, root, g) && CanSplice(m, u)
    ensures var c, p, r := OnlyChild(m, u), m[u].parent, Spliced(m, u);
            && r.Keys == m.Keys - {u}
            && (c != null ==> c in m && c != u && c != p && m[c].parent == u && r[c] == m[c].(parent := p))
            && (p != null ==> p in m && p != u && r[p] == Redirect(m[p], u, c)
                              && (m[p].left == u) != (m[p].right == u)
                              && Child(m[p], SideOf(m, u)) == u && Child(r[p], SideOf(m, u)) == c
                              && Child(r[p], Opp(SideOf(m, u))) == Child(m[p], Opp(SideOf(m, u))))
            && (forall n :: n in m && n != u && n != c && n != p ==> r[n] == m[n])
  {
    SpliceNeighbours(m, root, g, u);
  }

  lemma SpliceContents(m: Mem, root: Node?, g: map<Node, Range>, u: Node)
    requires Tree(m, root, g) && CanSplice(m, u)
    ensures var r := Spliced(m, u);
            forall n :: n in r ==> n in m && n != u && EntryOf(r[n]) == EntryOf(m[n]) && Key(r[n]) == Key(m[n])
                                   && Key(m[n]) != Key(m[u])
    ensures forall n :: n in m && n != u ==> n in Spliced(m, u)
  {
    SpliceNodes(m, root, g, u);
    forall n | n in m && n != u
      ensures Key(m[n]) != Key(m[u])
    {
      if Key(m[n]) == Key(m[u]) {
        KeysDiffer(m, root, g, n, u);
      }
    }
  }

  lemma OnlyNode(m: Mem, root: Node?, g: map<Node, Range>, u: Node)
    requires Tree(m, root, g) && u in m && m[u].parent == null && m[u].left == null && m[u].right == null
    ensures m.Keys == {u}
  {
    assert NodeLinked(m, root, u);
    forall n | n in m
      ensures n == u
    {
      RootReachesAll(m, root, g, n);
    }
  }

  lemma SpliceLinks(m: Mem, root: Node?, g: map<Node, Range>, u: Node)
    requires Tree(m, root, g) && CanSplice(m, u)
    ensures Linked(Spliced(m, u), SplicedRoot(m, root, u))
  {
    var c, p, r, root' := OnlyChild(m, u), m[u].parent, Spliced(m, u), SplicedRoot(m, root, u);
    SpliceNodes(m, root, g, u);
    assert NodeLinked(m, root, u);
    if root' == null {
      OnlyNode(m, root, g, u);
    }
    forall n | n in r
      ensures NodeLinked(r, root', n)
    {
      assert NodeLinked(m, root, n);
      SpliceNodeLinked(m, r, root, u, c, p, n);
    }
  }

  lemma SpliceNodeLinked(m: Mem, r: Mem, root: Node?, u: Node, c: Node?, p: Node?, n: Node)
    requires u in m && n in m && n != u && NodeLinked(m, root, u) && NodeLinked(m, root, n)
    requires c == OnlyChild(m, u) && p == m[u].parent && CanSplice(m, u) && r.Keys == m.Keys - {u}
    requires c != null ==> c in m && c != u && c != p && m[c].parent == u && r[c] == m[c].(parent := p)
    requires p != null ==> p in m && p != u && r[p] == Redirect(m[p], u, c) && (m[p].left == u) != (m[p].right == u)
    requires forall x :: x in m && x != u && x != c && x != p ==> r[x] == m[x]
    requires root != null && root in m && m[root].parent == null
    ensures NodeLinked(r, SplicedRoot(m, root, u), n)
  {
  }

  lemma SpliceOrder(m: Mem, root: Node?, g: map<Node, Range>, u: Node)
    requires Tree(m, root, g) && CanSplice(m, u)
    ensures Ordered(Spliced(m, u), g)
  {
    var r := Spliced(m, u);
    SpliceNodes(m, root, g, u);
    assert NodeOrdered(m, g, u);
    forall n | n in r
      ensures NodeOrdered(r, g, n)
    {
      assert NodeOrdered(m, g, n);
    }
  }

  lemma SpliceEntries(m: Mem, root: Node?, g: map<Node, Range>, u: Node, e: map<int, Entry>)
    requires Tree(m, root, g) && CanSplice(m, u) && Holds(m, e)
    ensures Holds(Spliced(m, u), e - {Key(m[u])})
  {
    var r, e' := Spliced(m, u), e - {Key(m[u])};
    SpliceContents(m, root, g, u);
    forall k | k in e'
      ensures HasKey(r, k)
    {
      assert HasKey(m, k);
      var n: Node :| n in m && Key(m[n]) == k;
      assert n in r && Key(r[n]) == k;
    }
  }

  // ---------- colours and heights without the node ----------

  /** A node with at most one child: its child, if it has one, is a red leaf, and it is then black. */
  lemma SpliceChild(m: Mem, root: Node?, g: map<Node, Range>, h: map<Node, nat>, u: Node)
    requires RedBlack(m, root, g, h) && CanSplice(m, u)
    ensures u in h && Height(h, OnlyChild(m, u)) == 0 && h[u] == Black(m[u])
    ensures OnlyChild(m, u) != null ==> IsRed(m, OnlyChild(m, u)) && !m[u].red
  {
    var c := OnlyChild(m, u);
    assert NodeBalanced(m, h, u) && NodeLinked(m, root, u);
    assert m[u].red ==> !IsRed(m, Child(m[u], LEFT)) && !IsRed(m, Child(m[u], RIGHT));
    if c != null {
      assert NodeBalanced(m, h, c);
    }
  }

  lemma SpliceHeights(m: Mem, root: Node?, g: map<Node, Range>, h: map<Node, nat>, u: Node)
    requires RedBlack(m, root, g, h) && CanSplice(m, u)
    ensures m[u].red ==> Balanced(Spliced(m, u), h)
    ensures !m[u].red ==> BalancedBut(Spliced(m, u), h, m[u].parent, SideOf(m, u))
  {
    var c, p, r := OnlyChild(m, u), m[u].parent, Spliced(m, u);
    SpliceNodes(m, root, g, u);
    SpliceChild(m, root, g, h, u);
    forall n | n in r
      ensures m[u].red ==> NodeBalanced(r, h, n)
      ensures !m[u].red ==> NodeBalancedBut(r, h, p, SideOf(m, u), n)
    {
      assert NodeBalanced(m, h, n) && NodeLinked(m, root, n);
      if n == p {
        assert Child(m[n], SideOf(m, u)) == u;
      }
    }
  }

  lemma SpliceColours(m: Mem, root: Node?, g: map<Node, Range>, h: map<Node, nat>, u: Node)
    requires RedBlack(m, root, g, h) && CanSplice(m, u)
    ensures NoRedRedBut(Spliced(m, u), OnlyChild(m, u))
    ensures OnlyChild(m, u) == null ==> NoRedRed(Spliced(m, u))
    ensures IsRed(Spliced(m, u), SplicedRoot(m, root, u)) ==> SplicedRoot(m, root, u) == OnlyChild(m, u)
  {
    var c, p, r := OnlyChild(m, u), m[u].parent, Spliced(m, u);
    SpliceNodes(m, root, g, u);
    assert NodeLinked(m, root, u);
    forall n, d | n in r && r[n].red && IsRed(r, Child(r[n], d))
      ensures Child(r[n], d) == c && c != null
    {
      assert NodeLinked(m, root, n);
      assert !IsRed(m, Child(m[n], d));
    }
  }

  // ---------- moving the content of the next node ----------

  ghost function Moved(m: Mem, z: Node, content: Content, size: int): Mem
    requires z in m
  {
    m[z := m[z].(content := content, size := size)]
  }

  /** The ranges when the key `k` gives way to the next larger one, `k'`. */
  ghost function Raised(g: map<Node, Range>, k: int, k': int): map<Node, Range> {
    map n | n in g :: Range(if k <= g[n].lo < k' then k' else g[n].lo, g[n].hi)
  }

  lemma MoveTree(m: Mem, root: Node?, g: map<Node, Range>, z: Node, content: Content, size: int)
    requires Tree(m, root, g) && z in m && z in g && content != NULL
    requires Key(m[z]) < content.key < g[z].hi
    requires forall n :: n in m && Key(m[z]) < Key(m[n]) ==> content.key < Key(m[n])
    ensures Tree(Moved(m, z, content, size), root, Raised(g, Key(m[z]), content.key))
  {
    var r, g' := Moved(m, z, content, size), Raised(g, Key(m[z]), content.key);
    MoveLinks(m, root, z, content, size);
    forall n | n in r
      ensures NodeOrdered(r, g', n)
    {
      assert NodeOrdered(m, g, n);
      MoveNodeOrdered(m, r, g, g', z, Key(m[z]), content.key, n);
    }
  }

  lemma MoveLinks(m: Mem, root: Node?, z: Node, content: Content, size: int)
    requires Linked(m, root) && z in m && content != NULL
    ensures Linked(Moved(m, z, content, size), root)
  {
    forall n | n in m
      ensures NodeLinked(Moved(m, z, content, size), root, n)
    {
      assert NodeLinked(m, root, n);
    }
  }

  lemma MoveNodeOrdered(m: Mem, r: Mem, g: map<Node, Range>, g': map<Node, Range>, z: Node, k: int, k': int, n: Node)
    requires n in m && z in m && z in g && n in r && NodeOrdered(m, g, n) && g' == Raised(g, k, k')
    requires r[n].left == m[n].left && r[n].right == m[n].right
    requires k == Key(m[z]) && k < k' < g[z].hi
    requires if n == z then Key(r[n]) == k' else Key(r[n]) == Key(m[n]) && (k < Key(m[n]) ==> k' < Key(m[n]))
    ensures NodeOrdered(r, g', n)
  {
  }

  lemma MoveEntries(m: Mem, root: Node?, g: map<Node, Range>, z: Node, content: Content, size: int,
                    g': map<Node, Range>, e: map<int, Entry>)
    requires Tree(m, root, g) && z in m && content != NULL && Holds(m, e)
    requires Tree(Moved(m, z, content, size), root, g')
    ensures Holds(Moved(m, z, content, size), (e - {Key(m[z])})[content.key := Entry(content, size)])
  {
    var r := Moved(m, z, content, size);
    var e' := (e - {Key(m[z])})[content.key := Entry(content, size)];
    forall n | n in r
      ensures Key(r[n]) in e' && e'[Key(r[n])] == EntryOf(r[n])
    {
      if n != z {
        MovedKeysDiffer(m, root, g, z, content, size, g', n);
      }
    }
    forall k | k in e'
      ensures HasKey(r, k)
    {
      if k == content.key {
        assert Key(r[z]) == k;
      } else {
        assert HasKey(m, k);
        var n: Node :| n in m && Key(m[n]) == k;
        assert Key(r[n]) == k;
      }
    }
  }

  lemma MovedKeysDiffer(m: Mem, root: Node?, g: map<Node, Range>, z: Node, content: Content, size: int,
                        g': map<Node, Range>, n: Node)
    requires Tree(m, root, g) && z in m && content != NULL && n in m && n != z
    requires Tree(Moved(m, z, content, size), root, g')
    ensures Key(m[n]) != Key(m[z]) && Key(m[n]) != content.key
  {
    if Key(m[n]) == Key(m[z]) {
      KeysDiffer(m, root, g, n, z);
    }
    if Key(m[n]) == content.key {
      KeysDiffer(Moved(m, z, content, size), root, g', n, z);
    }
  }

  /** The two differ in contents only. */
  ghost predicate SameSkeleton(m: Mem, r: Mem) {
    r.Keys == m.Keys && forall n :: n in m ==> r[n] == m[n].(content := r[n].content, size := r[n].size)
  }

  lemma SkeletonKeepsColours(m: Mem, r: Mem, h: map<Node, nat>, q: Node?, e: Dir, at: Node?)
    requires SameSkeleton(m, r)
    ensures BalancedBut(m, h, q, e) ==> BalancedBut(r, h, q, e)
    ensures NoRedRedBut(m, at) ==> NoRedRedBut(r, at)
    ensures NoRedRed(m) ==> NoRedRed(r)
  {
    if BalancedBut(m, h, q, e) {
      forall n | n in r
        ensures NodeBalancedBut(r, h, q, e, n)
      {
        assert NodeBalancedBut(m, h, q, e, n);
      }
    }
    if NoRedRedBut(m, at) {
      forall n, d | n in r && r[n].red && IsRed(r, Child(r[n], d))
        ensures n == at || Child(r[n], d) == at
      {
        assert IsRed(m, Child(m[n], d));
      }
    }
    if NoRedRed(m) {
      forall n, d | n in r && r[n].red
        ensures !IsRed(r, Child(r[n], d))
      {
        assert !IsRed(m, Child(m[n], d));
      }
    }
  }

  // ---------- the whole of the unlinking ----------

  /** `u` is the node that goes: `z` itself, or the next one when `z` has two children. */
  ghost predicate Redundant(m: Mem, z: Node, u: Node) {
    && z in m && CanSplice(m, u)
    && (u != z ==> IsNext(m, z, u))
  }

  ghost function Unlinked(m: Mem, z: Node, u: Node): Mem
    requires z in m && u in m
  {
    var r := Spliced(m, u);
    if u != z && z in r then Moved(r, z, m[u].content, m[u].size) else r
  }

  ghost function UnlinkedRanges(m: Mem, g: map<Node, Range>, z: Node, u: Node): map<Node, Range>
    requires z in m && u in m
  {
    if u != z then Raised(g, Key(m[z]), Key(m[u])) else g
  }

  lemma UnlinkedTree(m: Mem, root: Node?, g: map<Node, Range>, z: Node, u: Node)
    requires Tree(m, root, g) && Redundant(m, z, u) && (u != z ==> u in Under(m, root, g, z))
    ensures Tree(Unlinked(m, z, u), SplicedRoot(m, root, u), UnlinkedRanges(m, g, z, u))
    ensures SameSkeleton(Spliced(m, u), Unlinked(m, z, u))
  {
    SpliceLinks(m, root, g, u);
    SpliceOrder(m, root, g, u);
    if u != z {
      MoveNext(m, root, g, z, u);
    }
  }

  lemma UnlinkedEntries(m: Mem, root: Node?, g: map<Node, Range>, z: Node, u: Node, e: map<int, Entry>)
    requires Tree(m, root, g) && Redundant(m, z, u) && (u != z ==> u in Under(m, root, g, z)) && Holds(m, e)
    ensures Holds(Unlinked(m, z, u), e - {Key(m[z])})
  {
    UnlinkedTree(m, root, g, z, u);
    SpliceLinks(m, root, g, u);
    SpliceOrder(m, root, g, u);
    SpliceEntries(m, root, g, u, e);
    if u != z {
      MoveNextEntries(m, root, g, z, u, e);
    }
  }

  lemma NextKeyFits(m: Mem, root: Node?, g: map<Node, Range>, z: Node, u: Node)
    requires Tree(m, root, g) && Redundant(m, z, u) && u != z && u in Under(m, root, g, z)
    ensures var r := Spliced(m, u);
            && z in r && z in g && m[u].content != NULL && Key(r[z]) == Key(m[z])
            && Key(r[z]) < Key(m[u]) < g[z].hi
            && forall n :: n in r && Key(r[z]) < Key(r[n]) ==> Key(m[u]) < Key(r[n])
  {
    var r := Spliced(m, u);
    SpliceContents(m, root, g, u);
    UnderInside(m, root, g, z, u);
    assert NodeOrdered(m, g, u) && NodeOrdered(m, g, z) && NodeLinked(m, root, u);
    forall n | n in r && Key(r[z]) < Key(r[n])
      ensures Key(m[u]) < Key(r[n])
    {
      assert Key(m[u]) <= Key(m[n]);
    }
  }

  lemma ReplacedByNext(e: map<int, Entry>, k: int, k': int)
    requires k != k' && k' in e
    ensures (e - {k'} - {k})[k' := e[k']] == e - {k}
  {
  }

  lemma MoveNext(m: Mem, root: Node?, g: map<Node, Range>, z: Node, u: Node)
    requires Tree(m, root, g) && Redundant(m, z, u) && u != z && u in Under(m, root, g, z)
    requires Tree(Spliced(m, u), SplicedRoot(m, root, u), g)
    ensures Tree(Unlinked(m, z, u), SplicedRoot(m, root, u), UnlinkedRanges(m, g, z, u))
    ensures SameSkeleton(Spliced(m, u), Unlinked(m, z, u))
  {
    NextKeyFits(m, root, g, z, u);
    MoveTree(Spliced(m, u), SplicedRoot(m, root, u), g, z, m[u].content, m[u].size);
  }

  lemma MoveNextEntries(m: Mem, root: Node?, g: map<Node, Range>, z: Node, u: Node, e: map<int, Entry>)
    requires Tree(m, root, g) && Redundant(m, z, u) && u != z && u in Under(m, root, g, z) && Holds(m, e)
    requires Tree(Spliced(m, u), SplicedRoot(m, root, u), g)
    requires Tree(Unlinked(m, z, u), SplicedRoot(m, root, u), UnlinkedRanges(m, g, z, u))
    requires Holds(Spliced(m, u), e - {Key(m[u])})
    ensures Holds(Unlinked(m, z, u), e - {Key(m[z])})
  {
    NextKeyFits(m, root, g, z, u);
    MoveEntries(Spliced(m, u), SplicedRoot(m, root, u), g, z, m[u].content, m[u].size,
                UnlinkedRanges(m, g, z, u), e - {Key(m[u])});
    ReplacedByNext(e, Key(m[z]), Key(m[u]));
  }

  /** A red node can go at once. */
  lemma RedNodeGoes(m: Mem, root: Node?, g: map<Node, Range>, h: map<Node, nat>, z: Node, u: Node)
    requires RedBlack(m, root, g, h) && Redundant(m, z, u) && (u != z ==> u in Under(m, root, g, z))
    requires m[u].red
    ensures RedBlack(Unlinked(m, z, u), SplicedRoot(m, root, u), UnlinkedRanges(m, g, z, u), h)
  {
    UnlinkedTree(m, root, g, z, u);
    SpliceChild(m, root, g, h, u);
    SpliceHeights(m, root, g, h, u);
    SpliceColours(m, root, g, h, u);
    var r, r' := Spliced(m, u), Unlinked(m, z, u);
    BalancedButNone(r, h, LEFT);
    SkeletonKeepsColours(r, r', h, null, LEFT, null);
    BalancedButNone(r', h, LEFT);
  }

  /** A black node leaves its paths one black node short, unless it was the only node. */
  lemma BlackNodeGoes(m: Mem, root: Node?, g: map<Node, Range>, h: map<Node, nat>, z: Node, u: Node)
    requires RedBlack(m, root, g, h) && Redundant(m, z, u) && (u != z ==> u in Under(m, root, g, z))
    requires !m[u].red && (OnlyChild(m, u) != null || m[u].parent != null)
    ensures RemoveInv(Unlinked(m, z, u), SplicedRoot(m, root, u), UnlinkedRanges(m, g, z, u), h,
                      OnlyChild(m, u), m[u].parent, SideOf(m, u))
  {
    UnlinkedTree(m, root, g, z, u);
    SpliceHeights(m, root, g, h, u);
    SpliceColours(m, root, g, h, u);
    SpliceNodes(m, root, g, u);
    SkeletonKeepsColours(Spliced(m, u), Unlinked(m, z, u), h, m[u].parent, SideOf(m, u), OnlyChild(m, u));
  }

  // ---------- what is left to mend ----------

  /** With two children, the next node is below and has no left child. */
  lemma NextIsBelow(m: Mem, root: Node?, g: map<Node, Range>, z: Node, u: Node)
    requires Tree(m, root, g) && IsNext(m, z, u) && m[z].right != null
    ensures u != z && u in Under(m, root, g, z) && Redundant(m, z, u)
  {
    assert NodeLinked(m, root, z) && NodeOrdered(m, g, z);
    var r := m[z].right;
    assert NodeOrdered(m, g, r);
    if u !in Under(m, root, g, z) {
      OutsideRange(m, root, g, z, u);
    }
    SearchStep(m, root, g, z, u);
    assert NodeLinked(m, root, u) && NodeOrdered(m, g, u);
    UnderInside(m, root, g, r, u);
    LeftKey(m, root, g, u);
  }

  lemma SelfIsRedundant(m: Mem, z: Node)
    requires CanSplice(m, z)
    ensures Redundant(m, z, z)
  {
  }

  lemma LeftKey(m: Mem, root: Node?, g: map<Node, Range>, u: Node)
    requires Tree(m, root, g) && u in m && u in g
    ensures m[u].left != null ==> m[u].left in m && g[u].lo < Key(m[m[u].left]) < Key(m[u])
  {
    assert NodeLinked(m, root, u) && NodeOrdered(m, g, u);
    if m[u].left != null {
      assert NodeOrdered(m, g, m[u].left);
    }
  }

  /** The child of the node that goes, or nothing, is now below its parent. */
  lemma UnlinkedPlace(m: Mem, root: Node?, g: map<Node, Range>, z: Node, u: Node)
    requires Tree(m, root, g) && Redundant(m, z, u) && (u != z ==> u in Under(m, root, g, z))
    ensures var c, p, r := OnlyChild(m, u), m[u].parent, Unlinked(m, z, u);
            && r.Keys == m.Keys - {u}
            && (p != null ==> p in r && Child(r[p], SideOf(m, u)) == c && SplicedRoot(m, root, u) != null)
            && (c != null ==> c in r && r[c].parent == p && SideOf(r, c) == SideOf(m, u))
  {
    SpliceNodes(m, root, g, u);
    UnlinkedTree(m, root, g, z, u);
    assert NodeLinked(m, root, u);
    var r, p := Unlinked(m, z, u), m[u].parent;
    if p != null {
      assert NodeLinked(r, SplicedRoot(m, root, u), p);
    }
  }

  lemma BlackGone(m: Mem, root: Node?, g: map<Node, Range>, h: map<Node, nat>, z: Node, u: Node)
    requires RedBlack(m, root, g, h) && Redundant(m, z, u) && (u != z ==> u in Under(m, root, g, z))
    requires !m[u].red
    ensures OnlyChild(m, u) == null && m[u].parent == null ==>
              RedBlack(Unlinked(m, z, u), SplicedRoot(m, root, u), UnlinkedRanges(m, g, z, u), h)
    ensures OnlyChild(m, u) != null || m[u].parent != null ==>
              ShortPlace(Unlinked(m, z, u), SplicedRoot(m, root, u), UnlinkedRanges(m, g, z, u), h,
                         OnlyChild(m, u), m[u].parent, SideOf(m, u))
  {
    UnlinkedTree(m, root, g, z, u);
    if OnlyChild(m, u) == null && m[u].parent == null {
      OnlyNode(m, root, g, u);
    } else {
      UnlinkedPlace(m, root, g, z, u);
      BlackNodeGoes(m, root, g, h, z, u);
    }
  }
}
