/**
 The nodes of a red-black tree with parent pointers, and what makes a set of nodes such a tree. The
 conditions look at one node and its neighbours at a time. `Mem` is the value of all node fields at one
 moment, so that the effect of a rotation or a recolouring can be reasoned about as a change of values.
 */
module TreeNodes {

  /** What a node points to: a record with a key and other words. NULL is the content of the stack node that
      stands for a removed leaf. */
  datatype Content = NULL | Content(key: int, data: seq<int>)

  datatype Dir = LEFT | RIGHT

  function Opp(d: Dir): Dir {
    if d == LEFT then RIGHT else LEFT
  }

  class Node {
    var parent: Node?
    var left: Node?
    var right: Node?
    var content: Content
    var size: int
    var red: bool

    constructor (content: Content, size: int, parent: Node?, red: bool)
      ensures this.parent == parent && left == null && right == null
      ensures this.content == content && this.size == size && this.red == red
    {
      this.parent, this.left, this.right := parent, null, null;
      this.content, this.size, this.red := content, size, red;
    }

    function Child(d: Dir): Node?
      reads this
    {
      if d == LEFT then left else right
    }

    method SetChild(d: Dir, c: Node?)
      modifies this`left, this`right
      ensures d == LEFT ==> left == c && right == old(right)
      ensures d == RIGHT ==> right == c && left == old(left)
    {
      if d == LEFT {
        left := c;
      } else {
        right := c;
      }
    }

    function Fields(): Rec
      reads this
    {
      Rec(parent, left, right, content, size, red)
    }
  }

  datatype Rec = Rec(parent: Node?, left: Node?, right: Node?, content: Content, size: int, red: bool)

  type Mem = map<Node, Rec>

  function Child(r: Rec, d: Dir): Node? {
    if d == LEFT then r.left else r.right
  }

  function WithChild(r: Rec, d: Dir, c: Node?): Rec {
    if d == LEFT then r.(left := c) else r.(right := c)
  }

  function Key(r: Rec): int {
    if r.content == NULL then 0 else r.content.key
  }

  function IsRed(m: Mem, n: Node?): bool {
    n != null && n in m && m[n].red
  }

  // ---------- links ----------

  ghost predicate ChildLinked(m: Mem, n: Node, c: Node?) {
    c != null ==> c in m && m[c].parent == n
  }

  ghost predicate NodeLinked(m: Mem, root: Node?, n: Node)
    requires n in m
  {
    && ChildLinked(m, n, m[n].left)
    && ChildLinked(m, n, m[n].right)
    && (m[n].left != null ==> m[n].left != m[n].right)
    && (m[n].parent == null ==> n == root)
    && (m[n].parent != null ==> m[n].parent in m && (m[m[n].parent].left == n || m[m[n].parent].right == n))
    && m[n].content != NULL
  }

  /** Child and parent pointers agree, and only the root has no parent. */
  ghost predicate Linked(m: Mem, root: Node?) {
    && (root == null ==> m.Keys == {})
    && (root != null ==> root in m && m[root].parent == null)
    && (forall n {:trigger NodeLinked(m, root, n)} :: n in m ==> NodeLinked(m, root, n))
  }

  // ---------- order ----------

  /** An open interval of keys that a subtree may use. */
  datatype Range = Range(lo: int, hi: int)

  ghost predicate Inside(g: map<Node, Range>, c: Node?, lo: int, hi: int) {
    c != null ==> c in g && lo <= g[c].lo && g[c].hi <= hi
  }

  ghost predicate NodeOrdered(m: Mem, g: map<Node, Range>, n: Node)
    requires n in m
  {
    && n in g
    && g[n].lo < Key(m[n]) < g[n].hi
    && Inside(g, m[n].left, g[n].lo, Key(m[n]))
    && Inside(g, m[n].right, Key(m[n]), g[n].hi)
  }

  ghost predicate Ordered(m: Mem, g: map<Node, Range>) {
    forall n {:trigger NodeOrdered(m, g, n)} :: n in m ==> NodeOrdered(m, g, n)
  }

  // ---------- colours ----------

  function Height(h: map<Node, nat>, c: Node?): nat {
    if c != null && c in h then h[c] else 0
  }

  function Black(r: Rec): nat {
    if r.red then 0 else 1
  }

  /** Both subtrees of the node have the same number of black nodes on every path. */
  ghost predicate NodeBalanced(m: Mem, h: map<Node, nat>, n: Node)
    requires n in m
  {
    && n in h
    && Height(h, m[n].left) == Height(h, m[n].right)
    && h[n] == Height(h, m[n].left) + Black(m[n])
  }

  ghost predicate Balanced(m: Mem, h: map<Node, nat>) {
    forall n {:trigger NodeBalanced(m, h, n)} :: n in m ==> NodeBalanced(m, h, n)
  }

  /** No red node has a red child, except where `at` is one of the two. */
  ghost predicate NoRedRedBut(m: Mem, at: Node?) {
    forall n, d :: n in m && m[n].red && IsRed(m, Child(m[n], d)) ==> n == at || Child(m[n], d) == at
  }

  ghost predicate NoRedRed(m: Mem) {
    forall n, d :: n in m && m[n].red ==> !IsRed(m, Child(m[n], d))
  }

  /** A red-black tree: links, order, a black root, no red node with a red child, equal black heights. */
  ghost predicate RedBlack(m: Mem, root: Node?, g: map<Node, Range>, h: map<Node, nat>) {
    Linked(m, root) && Ordered(m, g) && NoRedRed(m) && !IsRed(m, root) && Balanced(m, h)
  }

  // ---------- rotation ----------

  ghost predicate CanRotate(m: Mem, x: Node, d: Dir) {
    && x in m
    && var y := Child(m[x], Opp(d));
       y != null && y in m
  }

  /** The child of `x` away from `d`, which a rotation towards `d` puts in its place. */
  ghost function Riser(m: Mem, x: Node, d: Dir): Node
    requires CanRotate(m, x, d)
  {
    Child(m[x], Opp(d))
  }

  ghost function Redirect(r: Rec, from: Node, to: Node?): Rec {
    if r.left == from then r.(left := to) else r.(right := to)
  }

  /** The tree after a rotation of `x` towards `d`. */
  ghost function Rotate(m: Mem, x: Node, d: Dir): Mem
    requires CanRotate(m, x, d)
  {
    var y := Riser(m, x, d);
    var b := Child(m[y], d);
    var p := m[x].parent;
    var m1 := m[x := WithChild(m[x], Opp(d), b).(parent := y)][y := WithChild(m[y], d, x).(parent := p)];
    var m2 := if b != null && b in m1 then m1[b := m1[b].(parent := x)] else m1;
    if p != null && p in m2 then m2[p := Redirect(m2[p], x, y)] else m2
  }

  ghost function RotatedRoot(m: Mem, root: Node?, x: Node, d: Dir): Node?
    requires CanRotate(m, x, d)
  {
    if m[x].parent == null then Riser(m, x, d) else root
  }

  ghost function RotatedRanges(m: Mem, g: map<Node, Range>, x: Node, d: Dir): map<Node, Range>
    requires CanRotate(m, x, d) && x in g
  {
    var y := Riser(m, x, d);
    g[y := g[x]][x := if d == LEFT then Range(g[x].lo, Key(m[y])) else Range(Key(m[y]), g[x].hi)]
  }
}
