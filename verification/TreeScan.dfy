/**
 Going through a tree from one element to the next. What has been seen when the scan has come to a node is, in
 order, the content of every node with a smaller key; at the end it is the content of every node there is. The
 scan ends because there is always less ahead.
 */
module TreeScan {
  import opened TreeNodes
  import opened TreeOrder
  import opened TreeContents

  lemma LinksOf(m: Mem, root: Node?, n: Node)
    requires Linked(m, root) && n in m
    ensures ChildLinked(m, n, m[n].left) && ChildLinked(m, n, m[n].right) && m[n].content != NULL
    ensures m[n].parent != null ==> m[n].parent in m && (m[m[n].parent].left == n || m[m[n].parent].right == n)
  {
    assert NodeLinked(m, root, n);
  }

  lemma LeftIsNarrower(m: Mem, root: Node?, g: map<Node, Range>, n: Node)
    requires Tree(m, root, g) && n in m && m[n].left != null
    ensures m[n].left in m && 0 <= Width(g, m[n].left) < Width(g, n)
  {
    assert NodeLinked(m, root, n) && NodeOrdered(m, g, n);
    assert NodeOrdered(m, g, m[n].left);
  }

  lemma RightIsAbove(m: Mem, root: Node?, g: map<Node, Range>, n: Node)
    requires Tree(m, root, g) && n in m && m[n].right != null
    ensures m[n].right in m && Key(m[n]) < Key(m[m[n].right])
  {
    assert NodeLinked(m, root, n) && NodeOrdered(m, g, n);
    assert NodeOrdered(m, g, m[n].right);
  }

  lemma LeastOfAll(m: Mem, root: Node?, g: map<Node, Range>, y: Node)
    requires Tree(m, root, g) && root != null && root in m && IsLeastUnder(m, root, g, root, y)
    ensures IsLeast(m, y)
  {
    forall z | z in m
      ensures Key(m[y]) <= Key(m[z])
    {
      RootReachesAll(m, root, g, z);
    }
  }

  ghost predicate Before(m: Mem, n: Node, current: Node?)
    requires n in m
  {
    current != null ==> current in m && Key(m[n]) < Key(m[current])
  }

  ghost predicate FromNode(m: Mem, c: Content, current: Node?) {
    exists n :: n in m && Before(m, n, current) && m[n].content == c
  }

  ghost predicate InOrder(contents: seq<Content>) {
    && (forall i :: 0 <= i < |contents| ==> contents[i] != NULL)
    && (forall i, j :: 0 <= i < j < |contents| ==> contents[i].key < contents[j].key)
  }

  /** What came before `current` has been seen, in order; before null is everything. */
  ghost predicate Scanned(m: Mem, contents: seq<Content>, current: Node?) {
    && InOrder(contents)
    && (forall i :: 0 <= i < |contents| ==> FromNode(m, contents[i], current))
    && (forall n :: n in m && Before(m, n, current) ==> m[n].content in contents)
  }

  ghost predicate IsFollowing(m: Mem, current: Node, next: Node?) {
    if next == null then forall z :: z in m && current in m ==> Key(m[z]) <= Key(m[current])
    else IsNext(m, current, next)
  }

  ghost function Ahead(m: Mem, current: Node?): set<Node> {
    set n | n in m && current != null && current in m && Key(m[current]) <= Key(m[n])
  }

  lemma ScanBegins(m: Mem, current: Node?)
    requires if current == null then m == map[] else IsLeast(m, current)
    ensures Scanned(m, [], current)
  {
  }

  lemma ScanStep(m: Mem, root: Node?, g: map<Node, Range>, contents: seq<Content>, current: Node, next: Node?)
    requires Tree(m, root, g) && current in m && Scanned(m, contents, current) && IsFollowing(m, current, next)
    ensures Scanned(m, contents + [m[current].content], next) && Ahead(m, next) < Ahead(m, current)
  {
    LinksOf(m, root, current);
    var more := contents + [m[current].content];
    forall i | 0 <= i < |more|
      ensures FromNode(m, more[i], next) && more[i] != NULL
      ensures i < |contents| ==> more[i].key < m[current].content.key
    {
      if i < |contents| {
        assert FromNode(m, contents[i], current);
        var n: Node :| n in m && Before(m, n, current) && m[n].content == contents[i];
        assert Before(m, n, next);
      } else {
        assert Before(m, current, next);
      }
    }
    forall n | n in m && Before(m, n, next)
      ensures m[n].content in more
    {
      if Key(m[n]) < Key(m[current]) {
        assert Before(m, n, current);
      } else {
        assert next != null ==> !(Key(m[current]) < Key(m[n]));
        KeysDiffer(m, root, g, n, current);
        assert more[|contents|] == m[n].content;
      }
    }
    assert current in Ahead(m, current) && current !in Ahead(m, next);
  }

  lemma ScanEnds(m: Mem, contents: seq<Content>, e: map<int, Entry>)
    requires Scanned(m, contents, null) && Holds(m, e)
    ensures InOrder(contents)
    ensures forall i :: 0 <= i < |contents| ==> contents[i].key in e && contents[i] == e[contents[i].key].content
    ensures forall k :: k in e ==> e[k].content in contents
  {
    forall i | 0 <= i < |contents|
      ensures contents[i].key in e && contents[i] == e[contents[i].key].content
    {
      assert FromNode(m, contents[i], null);
      var n: Node :| n in m && Before(m, n, null) && m[n].content == contents[i];
      HeldAt(m, e, n);
    }
    forall k | k in e
      ensures e[k].content in contents
    {
      assert HasKey(m, k);
      var n: Node :| n in m && Key(m[n]) == k;
      HeldAt(m, e, n);
      assert Before(m, n, null);
    }
  }
}
