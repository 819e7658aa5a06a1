/** The tree as the program keeps it: nodes that point to each other and are changed in place. */
module Tree {
  import opened TreeNodes
  import opened TreeRotation
  import opened TreeBalance
  import opened TreeInsert
  import opened TreeAddLoop
  import opened TreeDelete
  import opened TreeOrder
  import opened TreeContents
  import opened TreeSplice
  import opened TreeScan

  class Tree {
    var root: Node?
    var count: int
    var size: int
    ghost var mem: Mem
    ghost var ranges: map<Node, Range>
    ghost var heights: map<Node, nat>
    ghost var entries: map<int, Entry>

    /** The nodes of the tree have the field values that `mem` says. */
    ghost predicate Synced()
      reads this`mem, mem.Keys
    {
      forall n :: n in mem ==> n.Fields() == mem[n]
    }

    constructor ()
      ensures Valid() && IsRedBlack() && mem == map[] && entries == map[]
    {
      root, count, size := null, 0, 0;
      mem, ranges, heights, entries := map[], map[], map[], map[];
    }

    // ---------- single fields ----------

    method SetChild(n: Node, d: Dir, c: Node?)
      requires Synced() && n in mem
      modifies this`mem, n
      ensures Synced() && mem == old(mem)[n := WithChild(old(mem)[n], d, c)]
    {
      if d == LEFT {
        n.left := c;
      } else {
        n.right := c;
      }
      mem := mem[n := WithChild(mem[n], d, c)];
    }

    method SetParent(n: Node, p: Node?)
      requires Synced() && n in mem
      modifies this`mem, n
      ensures Synced() && mem == old(mem)[n := old(mem)[n].(parent := p)]
    {
      n.parent := p;
      mem := mem[n := mem[n].(parent := p)];
    }

    method SetRed(n: Node, red: bool)
      requires Synced() && n in mem
      modifies this`mem, n
      ensures Synced() && mem == old(mem)[n := old(mem)[n].(red := red)]
    {
      n.red := red;
      mem := mem[n := mem[n].(red := red)];
    }

    method SetContent(n: Node, content: Content, sz: int)
      requires Synced() && n in mem
      modifies this`mem, n
      ensures Synced() && mem == Moved(old(mem), n, content, sz)
    {
      n.content := content;
      n.size := sz;
      mem := mem[n := mem[n].(content := content, size := sz)];
    }

    /** A new red leaf below `p`. */
    method Hang(p: Node, d: Dir, content: Content, sz: int) returns (x: Node)
      requires Synced() && p in mem
      modifies this`mem, p
      ensures Synced() && fresh(x) && x !in old(mem) && mem == Attached(old(mem), p, d, x, content, sz)
      ensures mem.Keys == old(mem).Keys + {x} && mem[x].red
    {
      x := new Node(content, sz, p, true);
      p.SetChild(d, x);
      mem := Attached(mem, p, d, x, content, sz);
    }

    // ---------- rotation ----------

    /** The pointer updates of TreeRotate. */
    method Relink(curnode: Node, other: Node, b: Node?, p: Node?, direction: Dir, onSide: bool)
      requires Synced() && curnode in mem && other in mem
      requires (b != null ==> b in mem) && (p != null ==> p in mem)
      modifies this`root, this`mem, mem.Keys
      ensures Synced() && mem == Relinked(old(mem), curnode, other, b, p, direction, onSide)
      ensures root == if p == null then other else old(root)
    {
      SetChild(curnode, Opp(direction), b);
      if b != null {
        SetParent(b, curnode);
      }
      SetParent(other, p);
      if p == null {
        root := other;
      } else if onSide {
        SetChild(p, direction, other);
      } else {
        SetChild(p, Opp(direction), other);
      }
      SetChild(other, direction, curnode);
      SetParent(curnode, other);
    }

    ghost predicate IsTree()
      reads this`root, this`mem, this`ranges, mem.Keys
    {
      Synced() && TreeOrder.Tree(mem, root, ranges)
    }

    method Rotate(curnode: Node, direction: Dir)
      requires IsTree() && CanRotate(mem, curnode, direction)
      modifies this`root, this`mem, this`ranges, mem.Keys
      ensures IsTree()
      ensures mem == TreeNodes.Rotate(old(mem), curnode, direction) && mem.Keys == old(mem).Keys
      ensures root == RotatedRoot(old(mem), old(root), curnode, direction)
      ensures curnode in old(ranges) && ranges == RotatedRanges(old(mem), old(ranges), curnode, direction)
    {
      ghost var m, g := mem, ranges;
      RotateTurns(m, root, g, curnode, direction);
      RotationKeepsLinks(m, root, g, curnode, direction);
      RotationKeepsOrder(m, root, g, curnode, direction);
      assert NodeOrdered(m, g, curnode);
      var other := curnode.Child(Opp(direction));
      var b, p := other.Child(direction), curnode.parent;
      var onSide := p != null && p.Child(direction) == curnode;
      RelinkedIsRotated(m, curnode, other, b, p, direction, onSide);
      Relink(curnode, other, b, p, direction, onSide);
      ranges := RotatedRanges(m, g, curnode, direction);
    }

    // ---------- insertion ----------

    /** The last turn of TreeBAASub: a node and its parent change colours, and the node turns up. */
    method TurnUp(top: Node, gp: Node, which: Dir)
      requires IsTree() && CanRotate(mem, gp, which) && top == Riser(mem, gp, which) && top != gp
      modifies this`root, this`mem, this`ranges, mem.Keys
      ensures IsTree()
      ensures gp in old(ranges) && mem == SwapTurn(old(mem), gp, which) && mem.Keys == old(mem).Keys
      ensures root == RotatedRoot(old(mem), old(root), gp, which)
      ensures ranges == RotatedRanges(old(mem), old(ranges), gp, which)
    {
      hide Linked, Ordered, TreeNodes.Rotate, RotatedRanges, RotatedRoot, Swapped;
      SwapTurns(mem, root, ranges, gp, which);
      PaintingKeepsTurn(mem, root, ranges, gp, which);
      PaintPair(top, gp, which);
      Rotate(gp, which);
    }

    method PaintPair(top: Node, gp: Node, which: Dir)
      requires Synced() && CanRotate(mem, gp, which) && top == Riser(mem, gp, which) && top != gp
      modifies this`mem, mem.Keys
      ensures Synced() && mem == Swapped(old(mem), gp, which)
      ensures mem.Keys == old(mem).Keys
    {
      SetRed(top, false);
      SetRed(gp, true);
    }

    /** The node on the near side turns up over its parent, and then over its grandparent. */
    method TurnTwice(curnode: Node, p: Node, gp: Node, which: Dir)
      requires IsTree() && Family(mem, curnode, p, gp, which) && Child(mem[p], which) == curnode
      modifies this`root, this`mem, this`ranges, mem.Keys
      ensures IsTree() && mem.Keys == old(mem).Keys
      ensures CanRotate(old(mem), p, Opp(which))
      ensures var r := TreeNodes.Rotate(old(mem), p, Opp(which));
              && CanRotate(r, gp, which) && Riser(r, gp, which) == curnode && curnode != gp
              && mem == SwapTurn(r, gp, which)
              && p in old(ranges) && gp in RotatedRanges(old(mem), old(ranges), p, Opp(which))
              && root == RotatedRoot(r, old(root), gp, which)
              && ranges == RotatedRanges(r, RotatedRanges(old(mem), old(ranges), p, Opp(which)), gp, which)
    {
      FamilyDiffers(mem, root, ranges, curnode, p, gp, which);
      NearTree(mem, root, ranges, curnode, p, gp, which);
      Rotate(p, Opp(which));
      TurnUp(curnode, gp, which);
    }

    /** The parent and the uncle become black, the grandparent red. */
    method RecolourFamily(p: Node, uncle: Node, gp: Node)
      requires Synced() && p in mem && uncle in mem && gp in mem
      modifies this`mem, mem.Keys
      ensures Synced() && mem == Recolour(old(mem), p, uncle, gp)
      ensures mem.Keys == old(mem).Keys
    {
      Blacken(p, uncle);
      SetRed(gp, true);
    }

    method Blacken(p: Node, uncle: Node)
      requires Synced() && p in mem && uncle in mem
      modifies this`mem, p, uncle
      ensures Synced() && mem.Keys == old(mem).Keys
      ensures mem == old(mem)[p := old(mem)[p].(red := false)][uncle := old(mem)[uncle].(red := false)]
    {
      SetRed(p, false);
      SetRed(uncle, false);
    }

    /** TreeBAASub. */
    method BAASub(curnode: Node, p: Node, gp: Node, which: Dir) returns (next: Node)
      requires IsTree() && Family(mem, curnode, p, gp, which)
      modifies this`root, this`mem, this`ranges, mem.Keys
      ensures IsTree() && mem.Keys == old(mem).Keys
      ensures BAADone(old(mem), mem, old(root), root, old(ranges), ranges, curnode, p, gp, which, next)
    {
      FamilyDiffers(mem, root, ranges, curnode, p, gp, which);
      var uncle := gp.Child(which);
      if uncle != null && uncle.red {
        RecolourTree(mem, root, ranges, curnode, p, gp, which, uncle);
        RecolourFamily(p, uncle, gp);
        next := gp;
      } else if p.Child(which) == curnode {
        next := p;
        TurnTwice(curnode, p, gp, which);
      } else {
        next := curnode;
        TurnUp(p, gp, which);
      }
    }

    /** The body of the loop of TreeBalanceAfterAdd. */
    method AddTurn(curnode: Node, ghost m: Mem, ghost start: Node, ghost first: bool, ghost h: map<Node, nat>,
                   ghost ok: bool)
      returns (next: Node, ghost h': map<Node, nat>, ghost ok': bool)
      requires IsTree() && AddLoop(m, start, first, mem, root, ranges, h, curnode, ok)
      requires Continues(mem, curnode) && curnode.parent != null && curnode.parent.parent != null
      modifies this`root, this`mem, this`ranges, mem.Keys
      ensures IsTree() && mem.Keys == old(mem).Keys && next in mem
      ensures AddLoop(m, start, first, mem, root, ranges, h', next, ok')
      ensures Climb(mem, ranges, next) < Climb(old(mem), old(ranges), curnode)
    {
      FamilyOf(mem, root, curnode);
      var p: Node, gp: Node := curnode.parent, curnode.parent.parent;
      var which := if p == gp.left then RIGHT else LEFT;
      assert Family(mem, curnode, p, gp, which);
      hide AddLoop, BAADone, AddHeights, Family, Linked, Ordered, Continues, Twisted, Synced, Climb;
      ghost var before, root0, g0 := mem, root, ranges;
      next := BAASub(curnode, p, gp, which);
      AddLoopStep(m, start, first, before, root0, g0, h, curnode, ok, mem, root, ranges, p, gp, which, next);
      h', ok' := AddHeights(before, h, curnode, p, gp, which), ok && !Twisted(before, curnode, p, gp, which);
    }

    /** The end of TreeBalanceAfterAdd: the root becomes black. */
    method BlackenRoot(curnode: Node, ghost m: Mem, ghost start: Node, ghost first: bool, ghost h: map<Node, nat>,
                       ghost ok: bool)
      requires IsTree() && AddLoop(m, start, first, mem, root, ranges, h, curnode, ok) && !Continues(mem, curnode)
      modifies this`mem, this`heights, mem.Keys
      ensures IsTree() && mem.Keys == old(mem).Keys && AddDone(m, start, first, mem, root, ranges, heights)
    {
      AddLoopEnds(m, start, first, mem, root, ranges, h, curnode, ok);
      hide AddLoop, Linked, Ordered, AddDone, Continues, RaisedTop;
      heights := RaisedTop(h, mem, root);
      SetRed(root, false);
    }

    /** TreeBalanceAfterAdd, from a node whose colour may clash with that of its parent. */
    method BalanceAfterAdd(start: Node)
      requires IsTree() && start in mem
      modifies this`root, this`mem, this`ranges, this`heights, mem.Keys
      ensures IsTree() && mem.Keys == old(mem).Keys
      ensures AddDone(old(mem), start, old(AddInv(mem, root, ranges, heights, start)), mem, root, ranges, heights)
    {
      LinkedUp(mem, root, start);
      hide AddLoop, Linked, Ordered, AddDone, AddInv, Climb;
      ghost var m, first := mem, AddInv(mem, root, ranges, heights, start);
      var curnode := start;
      ghost var h, ok := heights, first;
      AddLoopBegins(mem, root, ranges, heights, start);
      while curnode.parent != null && curnode.parent.red && curnode.parent.parent != null
        invariant IsTree() && mem.Keys == m.Keys && curnode in mem
        invariant AddLoop(m, start, first, mem, root, ranges, h, curnode, ok)
        decreases Climb(mem, ranges, curnode)
      {
        LinkedUp(mem, root, curnode);
        curnode, h, ok := AddTurn(curnode, m, start, first, h, ok);
      }
      LinkedUp(mem, root, curnode);
      BlackenRoot(curnode, m, start, first, h, ok);
    }

    // ---------- adding ----------

    /** The tree holds `entries`, and `count` and `size` are their number and their total size. */
    ghost predicate Valid()
      reads this`root, this`mem, this`ranges, this`entries, this`count, this`size, mem.Keys
    {
      IsTree() && Holds(mem, entries) && count == |entries| && size == TotalSize(entries)
    }

    ghost predicate IsRedBlack()
      reads this`root, this`mem, this`ranges, this`heights
    {
      RedBlack(mem, root, ranges, heights)
    }

    /** The search of TreeAddByIndex. The ranges on the way are made to include the key. */
    method FindPlace(content: Content) returns (curnode: Node?, curparent: Node?, left: Dir, ghost g: map<Node, Range>)
      requires IsTree() && content != NULL
      ensures TreeOrder.Tree(mem, root, g)
      ensures curnode != null ==> curnode in mem && Key(mem[curnode]) == content.key
      ensures curnode == null ==> !HasKey(mem, content.key) && (curparent == null <==> root == null)
      ensures curnode == null && curparent != null ==> FreePlace(mem, g, curparent, left, content.key)
    {
      curparent, curnode, left, g := null, root, LEFT, ranges;
      SeekBegins(mem, root, ranges, content.key);
      while curnode != null
        invariant TreeOrder.Tree(mem, root, g)
        invariant Seeks(mem, root, ranges, curnode, content.key)
        invariant curparent == null ==> curnode == root
        invariant curparent != null ==> OnTheWay(mem, g, curparent, left, curnode, content.key)
        decreases Width(ranges, curnode), if curnode == null then 0 else 1
      {
        assert NodeLinked(mem, root, curnode);
        if curparent != null {
          assert NodeLinked(mem, root, curparent);
        }
        StretchStep(mem, root, g, curnode, content.key);
        g := g[curnode := Stretched(g[curnode], content.key)];
        var result := Compare(curnode.content, content);
        if result == 0 {
          break;
        }
        left := if result > 0 then RIGHT else LEFT;
        SeekStep(mem, root, ranges, curnode, content.key);
        curparent := curnode;
        curnode := curnode.Child(left);
      }
    }

    /** A first node. */
    method AddFirst(content: Content, sz: int) returns (newel: Node)
      requires Valid() && root == null && content != NULL
      modifies this
      ensures Valid() && fresh(newel) && mem.Keys == old(mem).Keys + {newel} && mem[newel].red
      ensures entries == old(entries)[content.key := Entry(content, sz)]
      ensures AddInv(mem, root, ranges, heights, newel)
    {
      hide Linked, Ordered, Holds, AddInv, TotalSize;
      NothingInTree(mem, root, entries);
      newel := new Node(content, sz, null, true);
      FirstNode(newel, content, sz);
      NewEntry(entries, content.key, Entry(content, sz));
      root := newel;
      mem := map[newel := Rec(null, null, null, content, sz, true)];
      Note(map[newel := Range(content.key - 1, content.key + 1)], map[newel := 0], content, sz);
    }

    /** A new red leaf. */
    method AddLeaf(curparent: Node, left: Dir, content: Content, sz: int, ghost g: map<Node, Range>)
      returns (newel: Node)
      requires Valid() && content != NULL && root != null && TreeOrder.Tree(mem, root, g)
      requires FreePlace(mem, g, curparent, left, content.key) && curparent in mem && curparent in g
      requires content.key !in entries
      modifies this`mem, this`ranges, this`heights, this`entries, this`count, this`size, curparent
      ensures Valid() && fresh(newel) && mem.Keys == old(mem).Keys + {newel} && mem[newel].red
      ensures entries == old(entries)[content.key := Entry(content, sz)]
      ensures old(IsRedBlack()) ==> AddInv(mem, root, ranges, heights, newel)
    {
      hide Linked, Ordered, OnTheWay, FreePlace, RedBlack, Holds, AddInv, TotalSize, Attached, AttachedRanges;
      ghost var m, e := mem, entries;
      newel := Hang(curparent, left, content, sz);
      LeafAdded(m, root, ranges, g, heights, e, curparent, left, newel, content, sz);
      Note(AttachedRanges(m, g, curparent, left, newel), heights[newel := 0], content, sz);
    }

    /** A new node where the search for its key has ended. */
    method AddNode(curparent: Node?, left: Dir, content: Content, sz: int, ghost g: map<Node, Range>)
      returns (newel: Node)
      requires Valid() && content != NULL && TreeOrder.Tree(mem, root, g)
      requires !HasKey(mem, content.key) && (curparent == null <==> root == null)
      requires curparent != null ==> FreePlace(mem, g, curparent, left, content.key)
      modifies this, mem.Keys
      ensures Valid() && fresh(newel) && mem.Keys == old(mem).Keys + {newel} && mem[newel].red
      ensures entries == old(entries)[content.key := Entry(content, sz)]
      ensures old(IsRedBlack()) ==> AddInv(mem, root, ranges, heights, newel)
    {
      hide Holds, TotalSize, Linked, Ordered, RedBlack, AddInv, FreePlace;
      KeyHeld(mem, entries, content.key);
      if curparent != null {
        PlaceIsInTree(mem, g, curparent, left, content.key);
        newel := AddLeaf(curparent, left, content, sz, g);
      } else {
        newel := AddFirst(content, sz);
      }
    }

    /** One more element. */
    method Note(ghost g: map<Node, Range>, ghost h: map<Node, nat>, content: Content, sz: int)
      requires content != NULL
      modifies this`ranges, this`heights, this`entries, this`count, this`size
      ensures ranges == g && heights == h && entries == old(entries)[content.key := Entry(content, sz)]
      ensures count == old(count) + 1 && size == old(size) + sz
    {
      ranges, heights := g, h;
      entries := entries[content.key := Entry(content, sz)];
      count, size := count + 1, size + sz;
    }

    /** New content for a key that the tree has. */
    method Replace(curnode: Node, content: Content, sz: int) returns (rc: Content)
      requires Valid() && content != NULL && curnode in mem && Key(mem[curnode]) == content.key
      modifies this`mem, this`entries, this`size, curnode
      ensures Valid() && mem.Keys == old(mem).Keys
      ensures content.key in old(entries) && rc == old(entries)[content.key].content
      ensures entries == old(entries)[content.key := Entry(content, sz)]
      ensures IsTwisted(mem, curnode) <==> IsTwisted(old(mem), curnode)
      ensures old(IsRedBlack()) ==> AddInv(mem, root, ranges, heights, curnode)
    {
      hide Linked, Ordered, RedBlack, Holds, AddInv, IsTwisted, SameSkeleton, TotalSize;
      ghost var m, e := mem, entries;
      HeldAt(m, e, curnode);
      ReplaceTree(m, root, ranges, curnode, content, sz);
      ReplaceEntries(m, root, ranges, curnode, content, sz, e);
      SameTwist(m, Moved(m, curnode, content, sz), curnode);
      if IsRedBlack() {
        ReplaceKeepsColours(m, root, ranges, heights, curnode, content, sz);
      }
      ReplacedEntry(e, content.key, Entry(content, sz));
      rc := curnode.content;
      size := size + (sz - curnode.size);
      SetContent(curnode, content, sz);
      entries := entries[content.key := Entry(content, sz)];
    }

    /** BalanceAfterAdd, for a tree with its contents. */
    method Rebalance(newel: Node)
      requires Valid() && newel in mem
      modifies this`root, this`mem, this`ranges, this`heights, mem.Keys
      ensures Valid() && mem.Keys == old(mem).Keys
      ensures AddDone(old(mem), newel, old(AddInv(mem, root, ranges, heights, newel)), mem, root, ranges, heights)
    {
      hide Holds, TotalSize, Linked, Ordered, RedBlack, IsTwisted, AddInv;
      ghost var m := mem;
      BalanceAfterAdd(newel);
      SameNodesHold(m, mem, entries);
    }

    /** TreeAddByIndex: adds content, or replaces what the tree has under its key. A red-black tree remains
        one unless the key was there and its node is twisted, in which case it never does. */
    method Add(content: Content, sz: int) returns (rc: Content)
      requires Valid() && content != NULL
      modifies this, mem.Keys
      ensures Valid() && old(mem).Keys <= mem.Keys && fresh(mem.Keys - old(mem).Keys)
      ensures entries == old(entries)[content.key := Entry(content, sz)]
      ensures rc == if content.key in old(entries) then old(entries)[content.key].content else NULL
      ensures old(IsRedBlack()) && content.key !in old(entries) ==> IsRedBlack()
      ensures old(IsRedBlack()) ==>
                if TwistedKey(old(mem), content.key) then Lopsided(mem, root, ranges) else IsRedBlack()
    {
      hide Holds, TotalSize, Linked, Ordered, RedBlack, IsTwisted, AddInv, FreePlace, Lopsided;
      ghost var m := mem;
      var curnode, curparent, left, g := FindPlace(content);
      KeyHeld(m, entries, content.key);
      if curnode != null {
        TwistedKeyIs(m, root, ranges, curnode);
        rc := Replace(curnode, content, sz);
        Rebalance(curnode);
      } else {
        rc := NULL;
        var newel := AddNode(curparent, left, content, sz, g);
        RedIsNotTwisted(mem, newel);
        Rebalance(newel);
      }
    }

    // ---------- finding ----------

    /** TreeFindIndex1. */
    method Find(key: int) returns (curnode: Node?)
      requires Valid()
      ensures curnode == null <==> key !in entries
      ensures curnode != null ==> && curnode in mem && Key(mem[curnode]) == key
                                  && curnode.content == entries[key].content && curnode.size == entries[key].size
    {
      curnode := root;
      SeekBegins(mem, root, ranges, key);
      while curnode != null
        invariant Seeks(mem, root, ranges, curnode, key)
        decreases Width(ranges, curnode), if curnode == null then 0 else 1
      {
        assert NodeLinked(mem, root, curnode);
        var result := Compare(curnode.content, Content(key, []));
        if result == 0 {
          break;
        }
        SeekStep(mem, root, ranges, curnode, key);
        curnode := curnode.Child(if result > 0 then RIGHT else LEFT);
      }
      KeyHeld(mem, entries, key);
    }

    // ---------- in order ----------

    /** TreeMinimum of a node. */
    method Minimum(start: Node) returns (curnode: Node)
      requires IsTree() && start in mem
      ensures IsLeastUnder(mem, root, ranges, start, curnode)
    {
      curnode := start;
      while curnode.left != null
        invariant curnode in mem
        invariant forall y :: y in mem && IsLeastUnder(mem, root, ranges, curnode, y) ==>
                    IsLeastUnder(mem, root, ranges, start, y)
        decreases Width(ranges, curnode)
      {
        LeftIsNarrower(mem, root, ranges, curnode);
        forall y | y in mem && IsLeastUnder(mem, root, ranges, curnode.left, y)
          ensures IsLeastUnder(mem, root, ranges, curnode, y)
        {
          LeastStep(mem, root, ranges, curnode, y);
        }
        curnode := curnode.left;
      }
      LeastStep(mem, root, ranges, curnode, curnode);
    }

    /** TreeSuccessor: the node with the next key, or null after the last one. */
    method Successor(x: Node) returns (curnode: Node?)
      requires IsTree() && x in mem
      ensures (curnode != null ==> curnode in mem) && IsFollowing(mem, x, curnode)
    {
      LinksOf(mem, root, x);
      if x.right != null {
        curnode := Minimum(x.right);
        NextInRightSubtree(mem, root, ranges, x, curnode);
      } else {
        GreatestBegins(mem, root, ranges, x);
        var n: Node := x;
        var curparent := n.parent;
        while curparent != null && n == curparent.right
          invariant n in mem && curparent == mem[n].parent && IsGreatestUnder(mem, root, ranges, n, x)
          invariant curparent != null ==> curparent in mem
          decreases Wider(mem, ranges, n)
        {
          ParentIsWider(mem, root, ranges, n);
          GreatestFromRight(mem, root, ranges, n, x);
          LinksOf(mem, root, curparent);
          n := curparent;
          curparent := curparent.parent;
        }
        LinksOf(mem, root, n);
        if curparent == null {
          GreatestOfAll(mem, root, ranges, n, x);
        } else {
          NextFromLeft(mem, root, ranges, n, x);
        }
        curnode := curparent;
      }
    }

    /** TreeNextElement: the first node after null, the next one after a node. */
    method NextElement(curnode: Node?) returns (next: Node?)
      requires IsTree() && (curnode != null ==> curnode in mem)
      ensures next != null ==> next in mem
      ensures curnode == null ==> if next == null then mem == map[] else IsLeast(mem, next)
      ensures curnode != null ==> IsFollowing(mem, curnode, next)
    {
      if curnode == null {
        next := root;
        if root != null {
          next := Minimum(root);
          LeastOfAll(mem, root, ranges, next);
        }
      } else {
        next := Successor(curnode);
      }
    }

    /** The loop of HeapScan: it sees every element once, in key order. */
    method Scan() returns (contents: seq<Content>)
      requires Valid()
      ensures InOrder(contents)
      ensures forall i :: 0 <= i < |contents| ==>
                contents[i].key in entries && contents[i] == entries[contents[i].key].content
      ensures forall k :: k in entries ==> entries[k].content in contents
    {
      hide Linked, Ordered, Holds, InOrder, FromNode, Before, IsLeast, IsNext;
      contents := [];
      var current := NextElement(null);
      ScanBegins(mem, current);
      while current != null
        invariant current != null ==> current in mem
        invariant Scanned(mem, contents, current)
        decreases Ahead(mem, current)
      {
        var next := NextElement(current);
        ScanStep(mem, root, ranges, contents, current, next);
        contents := contents + [current.content];
        current := next;
      }
      ScanEnds(mem, contents, entries);
    }

    // ---------- removal ----------

    /** A red sibling: the first turn of TreeBARSub. */
    method RedSibling(q: Node, e: Dir, sibling: Node, ghost at: Node?, ghost h: map<Node, nat>, ghost ok: bool)
      returns (ghost h': map<Node, nat>)
      requires IsTree() && q in mem && Child(mem[q], e) == at && Child(mem[q], Opp(e)) == sibling && IsRed(mem, sibling)
      requires ok ==> Short(mem, root, ranges, h, at, q, e)
      modifies this`root, this`mem, this`ranges, mem.Keys
      ensures IsTree() && SameNodes(old(mem), mem) && q in mem && mem[q].red && Child(mem[q], e) == at
      ensures ok ==> Short(mem, root, ranges, h', at, q, e) && !IsRed(mem, Child(mem[q], Opp(e)))
    {
      SiblingTurnPlaces(mem, root, ranges, at, q, e, sibling);
      h' := h;
      if ok {
        RedSiblingStep(mem, root, ranges, h, at, q, e);
        h' := SwappedHeights(h, q, sibling);
      }
      TurnUp(sibling, q, e);
    }

    /** A red near nephew: the second turn of TreeBARSub. */
    method NearNephew(q: Node, e: Dir, sibling: Node, near: Node, ghost at: Node?, ghost h: map<Node, nat>,
                      ghost ok: bool)
      returns (ghost h': map<Node, nat>)
      requires IsTree() && q in mem && Child(mem[q], e) == at && Child(mem[q], Opp(e)) == sibling && sibling in mem
      requires Child(mem[sibling], e) == near && IsRed(mem, near) && !IsRed(mem, Child(mem[sibling], Opp(e)))
      requires ok ==> Short(mem, root, ranges, h, at, q, e) && !mem[sibling].red
      modifies this`root, this`mem, this`ranges, mem.Keys
      ensures IsTree() && SameNodes(old(mem), mem) && FarPlace(mem, q, e, near, sibling) && mem[sibling].red
      ensures Child(mem[q], e) == at
      ensures ok ==> Short(mem, root, ranges, h', at, q, e) && FarNephew(mem, q, e, near, sibling)
    {
      NephewTurnPlaces(mem, root, ranges, at, q, e, sibling, near);
      h' := h;
      if ok {
        NearNephewStep(mem, root, ranges, h, at, q, e, sibling);
        h' := SwappedHeights(h, sibling, near);
      }
      TurnUp(near, sibling, Opp(e));
    }

    method Settle(q: Node, sibling: Node, far: Node)
      requires Synced() && q in mem && sibling in mem && far in mem && far != q && far != sibling && q != sibling
      modifies this`mem, mem.Keys
      ensures Synced() && mem == Settled(old(mem), q, sibling, far)
    {
      SetRed(sibling, q.red);
      SetRed(q, false);
      SetRed(far, false);
    }

    /** A red far nephew: the last turn of TreeBARSub. */
    method FarNephewTurn(q: Node, e: Dir, sibling: Node, far: Node, ghost at: Node?, ghost h: map<Node, nat>,
                         ghost ok: bool)
      returns (ghost h': map<Node, nat>)
      requires IsTree() && FarPlace(mem, q, e, sibling, far) && Child(mem[q], e) == at
      requires ok ==> Short(mem, root, ranges, h, at, q, e) && FarNephew(mem, q, e, sibling, far)
      modifies this`root, this`mem, this`ranges, mem.Keys
      ensures IsTree() && SameNodes(old(mem), mem)
      ensures ok ==> RedBlack(mem, root, ranges, h')
    {
      SettledTurns(mem, root, ranges, q, e, sibling, far);
      SettledKeepsNodes(mem, root, ranges, q, e, sibling, far);
      h' := h;
      if ok {
        FarNephewStep(mem, root, ranges, h, at, q, e, sibling, far);
        h' := SettledHeights(h, q, sibling, far);
      }
      Settle(q, sibling, far);
      Rotate(q, e);
    }

    /** The place of a removed node: that of the node itself, or, where `at` is null, a place below `curnode.parent`
        for which a node without content stands in. */
    ghost predicate StandsAt(curnode: Node, at: Node?, e: Dir)
      reads this`mem, curnode
    {
      && curnode.parent != null && curnode.parent in mem && Child(mem[curnode.parent], e) == at
      && (if at == null then curnode !in mem && curnode.content == NULL && !curnode.red
          else at == curnode && curnode in mem)
    }

    /** TreeBARSub once the sibling is not red, or there is none. */
    method BARRest(q: Node, e: Dir, sibling: Node?, ghost at: Node?, ghost h: map<Node, nat>, ghost ok: bool)
      returns (next: Node, ghost h': map<Node, nat>)
      requires IsTree() && q in mem && Child(mem[q], e) == at && Child(mem[q], Opp(e)) == sibling
      requires ok ==> Short(mem, root, ranges, h, at, q, e) && sibling != null && !IsRed(mem, sibling)
      modifies this`root, this`mem, this`ranges, mem.Keys
      ensures IsTree() && SameNodes(old(mem), mem) && next in mem
      ensures next == root || (next == q && root == old(root) && ranges == old(ranges) && mem[q].red == old(mem)[q].red)
      ensures ok ==> RemoveLoop(mem, root, ranges, h', next)
    {
      hide Short, RemoveInv, RedBlack, RemoveLoop, Linked, Ordered, SameNodes;
      LinksOf(mem, root, q);
      NothingMoved(mem);
      h' := h;
      if sibling == null {
        next := q;
      } else {
        LinksOf(mem, root, sibling);
        var near, far := sibling.Child(e), sibling.Child(Opp(e));
        if (near == null || !near.red) && (far == null || !far.red) {
          h' := PaintSibling(q, e, sibling, at, h, ok);
          next := q;
        } else {
          next, h' := BARLast(q, e, sibling, at, h, ok);
        }
      }
    }

    /** TreeBARSub when no nephew is red. */
    method PaintSibling(q: Node, e: Dir, sibling: Node, ghost at: Node?, ghost h: map<Node, nat>, ghost ok: bool)
      returns (ghost h': map<Node, nat>)
      requires IsTree() && q in mem && Child(mem[q], e) == at && Child(mem[q], Opp(e)) == sibling && sibling in mem
      requires !IsRed(mem, mem[sibling].left) && !IsRed(mem, mem[sibling].right)
      requires ok ==> Short(mem, root, ranges, h, at, q, e) && !IsRed(mem, sibling)
      modifies this`mem, sibling
      ensures IsTree() && SameNodes(old(mem), mem) && mem.Keys == old(mem).Keys && mem[q].red == old(mem)[q].red
      ensures ok ==> RemoveLoop(mem, root, ranges, h', q)
    {
      hide Short, RemoveInv, RedBlack, RemoveLoop, Linked, Ordered;
      PaintedTree(mem, root, ranges, q, e, sibling);
      h' := h;
      if ok {
        PaintedSibling(mem, root, ranges, h, at, q, e, sibling);
        h' := LoweredHeights(h, sibling, q);
      }
      SetRed(sibling, true);
    }

    /** TreeBARSub when a nephew is red: nothing remains short. */
    method BARLast(q: Node, e: Dir, s: Node, ghost at: Node?, ghost h: map<Node, nat>, ghost ok: bool)
      returns (next: Node, ghost h': map<Node, nat>)
      requires IsTree() && q in mem && Child(mem[q], e) == at && Child(mem[q], Opp(e)) == s && s in mem
      requires IsRed(mem, mem[s].left) || IsRed(mem, mem[s].right)
      requires ok ==> Short(mem, root, ranges, h, at, q, e) && !mem[s].red
      modifies this`root, this`mem, this`ranges, mem.Keys
      ensures IsTree() && SameNodes(old(mem), mem) && next in mem && next == root
      ensures ok ==> RemoveLoop(mem, root, ranges, h', next)
    {
      hide Short, RemoveInv, RedBlack, RemoveLoop, SameNodes, Linked, Ordered, FarNephew;
      LinksOf(mem, root, s);
      ghost var m := mem;
      var sibling, far := s, s.Child(Opp(e));
      h' := h;
      NothingMoved(m);
      if far == null || !far.red {
        h' := NearNephew(q, e, s, s.Child(e), at, h, ok);
        sibling := q.Child(Opp(e));
        far := sibling.Child(Opp(e));
      }
      ghost var mid := mem;
      h' := FarNephewTurn(q, e, sibling, far, at, h', ok);
      SameNodesAll(m, mid, mem);
      RootIn(mem, root, q);
      next := root;
      if ok {
        RootIsNotShort(mem, root, ranges, h', q);
      }
    }

    /** TreeBARSub. */
    method BARSub(curnode: Node, which: Dir, ghost at: Node?, ghost h: map<Node, nat>, ghost ok: bool)
      returns (next: Node, ghost h': map<Node, nat>)
      requires IsTree() && StandsAt(curnode, at, Opp(which)) && at != root && !IsRed(mem, at)
      requires ok ==> Short(mem, root, ranges, h, at, curnode.parent, Opp(which))
      modifies this`root, this`mem, this`ranges, mem.Keys
      ensures IsTree() && SameNodes(old(mem), mem) && next in mem
      ensures Rise(mem, root, ranges, next) < Rise(old(mem), old(root), old(ranges), at)
      ensures ok ==> RemoveLoop(mem, root, ranges, h', next)
    {
      hide Short, RemoveInv, RedBlack, FarNephew, RemoveLoop, SameNodes, Linked, Ordered, ShortPlace;
      var e, q: Node := Opp(which), curnode.parent;
      ghost var start := mem;
      LinksOf(mem, root, q);
      var sibling := q.Child(which);
      h' := h;
      if ok {
        SiblingFacts(mem, root, ranges, h, at, q, e);
      }
      if sibling != null && sibling.red {
        h' := RedSibling(q, e, sibling, at, h, ok);
        LinksOf(mem, root, q);
        sibling := q.Child(which);
        if ok {
          SiblingFacts(mem, root, ranges, h', at, q, e);
        }
        ghost var mid := mem;
        next, h' := BARRest(q, e, sibling, at, h', ok);
        SameNodesAll(start, mid, mem);
      } else {
        ghost var m, root0, g0 := mem, root, ranges;
        next, h' := BARRest(q, e, sibling, at, h, ok);
        PlaceRises(m, root0, g0, at, q, mem, root, ranges, next);
      }
    }

    /** The node is in the tree, or stands in for a removed leaf. */
    ghost predicate Stands(curnode: Node, at: Node?, e: Dir)
      reads this`mem, curnode
    {
      if at == null then StandsAt(curnode, at, e) else at == curnode && curnode in mem
    }

    /** The body of the loop of TreeBalanceAfterRemove. */
    method RemoveTurn(curnode: Node, ghost at: Node?, ghost e: Dir, ghost h: map<Node, nat>, ghost ok: bool)
      returns (next: Node, ghost h': map<Node, nat>)
      requires IsTree() && Stands(curnode, at, e) && curnode != root && !curnode.red
      requires ok ==> ShortPlace(mem, root, ranges, h, at, curnode.parent, e)
      modifies this`root, this`mem, this`ranges, mem.Keys
      ensures IsTree() && SameNodes(old(mem), mem) && next in mem
      ensures Rise(mem, root, ranges, next) < Rise(old(mem), old(root), old(ranges), at)
      ensures ok ==> RemoveLoop(mem, root, ranges, h', next)
    {
      hide Short, RemoveInv, RemoveLoop, ShortPlace;
      RootIn(mem, root, if at == null then curnode.parent else at);
      ParentOf(mem, root, at);
      var here := if curnode.content != NULL then curnode else null;
      var which := if here == curnode.parent.left then RIGHT else LEFT;
      if ok {
        SideIsRight(mem, root, ranges, h, at, curnode.parent, e, which);
      }
      next, h' := BARSub(curnode, which, at, h, ok);
    }

    /** The end of TreeBalanceAfterRemove: the node becomes black. */
    method PaintBlack(curnode: Node, ghost h: map<Node, nat>, ghost ok: bool)
      requires IsTree() && curnode in mem && (curnode == root || mem[curnode].red)
      requires ok ==> RemoveLoop(mem, root, ranges, h, curnode)
      modifies this`mem, this`heights, mem.Keys
      ensures IsTree() && SameNodes(old(mem), mem)
      ensures ok ==> RedBlack(mem, root, ranges, heights)
    {
      hide RemoveInv, RemoveLoop, RedBlack;
      BlackenedTree(mem, root, ranges, curnode);
      if ok {
        RemoveLoopEnds(mem, root, ranges, h, curnode);
      }
      heights := RaisedAt(h, mem, curnode);
      SetRed(curnode, false);
    }

    /** TreeBalanceAfterRemove, from the child of the removed node or the node that stands in for it. */
    method BalanceAfterRemove(start: Node, ghost at0: Node?, ghost e: Dir)
      requires IsTree() && Stands(start, at0, e) && (at0 == null ==> root != null)
      modifies this`root, this`mem, this`ranges, this`heights, mem.Keys
      ensures IsTree() && SameNodes(old(mem), mem) && mem.Keys == old(mem).Keys
      ensures old(ShortPlace(mem, root, ranges, heights, at0, start.parent, e)) ==> RedBlack(mem, root, ranges, heights)
    {
      hide Short, RemoveInv, RemoveLoop, ShortPlace, SameNodes, RedBlack, Rise;
      ghost var m := mem;
      ghost var at, h, ok := at0, heights, ShortPlace(mem, root, ranges, heights, at0, start.parent, e);
      var curnode := start;
      NothingMoved(mem);
      while curnode != root && !curnode.red
        invariant IsTree() && mem.Keys == m.Keys && SameNodes(m, mem) && Stands(curnode, at, e)
        invariant ok ==> ShortPlace(mem, root, ranges, h, at, curnode.parent, e)
        decreases Rise(mem, root, ranges, at)
      {
        ghost var before := mem;
        curnode, h := RemoveTurn(curnode, at, e, h, ok);
        at := curnode;
        SameNodesAll(m, before, mem);
        LoopIsPlace(mem, root, ranges, h, curnode, curnode.parent, e);
      }
      LoopIsPlace(mem, root, ranges, h, curnode, curnode.parent, e);
      ghost var before := mem;
      PaintBlack(curnode, h, ok);
      SameNodesAll(m, before, mem);
    }

    /** The pointer updates of TreeRemoveNodeIndex: the node goes, and its only child takes its place. */
    method Unlink(redundant: Node) returns (curchild: Node?)
      requires IsTree() && CanSplice(mem, redundant)
      modifies this`root, this`mem, mem.Keys
      ensures Synced() && mem == Spliced(old(mem), redundant) && root == SplicedRoot(old(mem), old(root), redundant)
      ensures curchild == OnlyChild(old(mem), redundant) && redundant.Fields() == old(mem)[redundant]
    {
      SpliceNeighbours(mem, root, ranges, redundant);
      curchild := TakeOut(redundant);
    }

    /** The assignments of Unlink. */
    method TakeOut(redundant: Node) returns (curchild: Node?)
      requires Synced() && CanSplice(mem, redundant)
      requires OnlyChild(mem, redundant) != null ==>
                 OnlyChild(mem, redundant) in mem && OnlyChild(mem, redundant) != redundant
      requires mem[redundant].parent != null ==> mem[redundant].parent in mem && mem[redundant].parent != redundant
      modifies this`root, this`mem, mem.Keys
      ensures Synced() && mem == Spliced(old(mem), redundant) && root == SplicedRoot(old(mem), old(root), redundant)
      ensures curchild == OnlyChild(old(mem), redundant) && redundant.Fields() == old(mem)[redundant]
    {
      hide Bypassed, Redirect, Lifted, OnlyChild;
      curchild := Lift(redundant);
      Bypass(redundant, curchild);
      mem := mem - {redundant};
    }

    /** The only child of the node is given its parent. */
    method Lift(redundant: Node) returns (curchild: Node?)
      requires Synced() && redundant in mem && CanSplice(mem, redundant)
      requires OnlyChild(mem, redundant) != null ==>
                 OnlyChild(mem, redundant) in mem && OnlyChild(mem, redundant) != redundant
      modifies this`mem, if OnlyChild(mem, redundant) == null then {} else {OnlyChild(mem, redundant)}
      ensures Synced() && mem.Keys == old(mem).Keys && mem[redundant] == old(mem)[redundant]
      ensures curchild == OnlyChild(old(mem), redundant) && mem == Lifted(old(mem), redundant)
    {
      curchild := redundant.Child(if redundant.left != null then LEFT else RIGHT);
      if curchild != null {
        SetParent(curchild, redundant.parent);
      }
    }

    /** What pointed to the node points to its child. */
    method Bypass(redundant: Node, curchild: Node?)
      requires Synced() && redundant in mem
      requires mem[redundant].parent != null ==> mem[redundant].parent in mem
      modifies this`root, this`mem, if redundant.parent == null then {} else {redundant.parent}
      ensures Synced() && mem.Keys == old(mem).Keys
      ensures mem == Bypassed(old(mem), old(mem)[redundant].parent, redundant, curchild)
      ensures root == if old(mem)[redundant].parent == null then curchild else old(root)
    {
      if redundant.parent == null {
        root := curchild;
      } else if redundant == redundant.parent.left {
        SetChild(redundant.parent, LEFT, curchild);
      } else {
        SetChild(redundant.parent, RIGHT, curchild);
      }
    }

    /** The redundant node is unlinked and its content moved. */
    method UnlinkAndMove(curnode: Node, redundant: Node) returns (curchild: Node?)
      requires IsTree() && Redundant(mem, curnode, redundant)
      requires curnode != redundant ==> curnode in Spliced(mem, redundant)
      modifies this`root, this`mem, mem.Keys
      ensures Synced() && mem == Unlinked(old(mem), curnode, redundant)
              && root == SplicedRoot(old(mem), old(root), redundant)
      ensures curchild == OnlyChild(old(mem), redundant) && redundant.Fields() == old(mem)[redundant]
    {
      hide Linked, Ordered, IsNext, Spliced, OnlyChild;
      curchild := Unlink(redundant);
      if redundant != curnode {
        SetContent(curnode, redundant.content, redundant.size);
      }
    }

    /** The first half of TreeRemoveNodeIndex, with what it does to ranges and contents. */
    method Detach(curnode: Node, redundant: Node) returns (curchild: Node?)
      requires IsTree() && Holds(mem, entries) && Redundant(mem, curnode, redundant)
      requires redundant != curnode ==> redundant in Under(mem, root, ranges, curnode)
      modifies this`root, this`mem, this`ranges, this`entries, mem.Keys
      ensures IsTree() && Holds(mem, entries)
      ensures mem == Unlinked(old(mem), curnode, redundant) && root == SplicedRoot(old(mem), old(root), redundant)
      ensures ranges == UnlinkedRanges(old(mem), old(ranges), curnode, redundant)
      ensures entries == old(entries) - {Key(old(mem)[curnode])}
      ensures curchild == OnlyChild(old(mem), redundant) && redundant.Fields() == old(mem)[redundant]
    {
      hide Linked, Ordered, Holds, IsNext, Spliced, OnlyChild, Unlinked, UnlinkedRanges, Under, SplicedRoot, Key;
      ghost var g, k := UnlinkedRanges(mem, ranges, curnode, redundant), Key(mem[curnode]);
      UnlinkedTree(mem, root, ranges, curnode, redundant);
      UnlinkedEntries(mem, root, ranges, curnode, redundant, entries);
      SpliceContents(mem, root, ranges, redundant);
      curchild := UnlinkAndMove(curnode, redundant);
      ranges, entries := g, entries - {k};
    }

    /** The second half of TreeRemoveNodeIndex: a black node leaves something to mend. */
    method Mend(redundant: Node, curchild: Node?, ghost e: Dir, ghost ok: bool)
      requires IsTree() && Holds(mem, entries)
      requires curchild == null && redundant.parent != null ==>
                 redundant.parent in mem && Child(mem[redundant.parent], e) == null
      requires curchild != null ==> curchild in mem && curchild.parent == redundant.parent
      requires ok && (redundant.red || (curchild == null && redundant.parent == null)) ==>
                 RedBlack(mem, root, ranges, heights)
      requires ok && !redundant.red && (curchild != null || redundant.parent != null) ==>
                 ShortPlace(mem, root, ranges, heights, curchild, redundant.parent, e)
      modifies this`root, this`mem, this`ranges, this`heights, mem.Keys
      ensures IsTree() && Holds(mem, entries) && mem.Keys == old(mem).Keys
      ensures ok ==> RedBlack(mem, root, ranges, heights)
    {
      hide Linked, Ordered, Holds, ShortPlace, RedBlack, SameNodes;
      ghost var m := mem;
      NothingMoved(m);
      if !redundant.red {
        if curchild == null {
          if redundant.parent != null {
            var temp := new Node(NULL, 0, redundant.parent, false);
            RootIn(mem, root, redundant.parent);
            BalanceAfterRemove(temp, null, e);
          }
        } else {
          BalanceAfterRemove(curchild, curchild, e);
        }
      }
      SameNodesHold(m, mem, entries);
    }

    /** Both halves: the tree without an element. */
    method Take(curnode: Node, redundant: Node)
      requires IsTree() && Holds(mem, entries) && Redundant(mem, curnode, redundant)
      requires redundant != curnode ==> redundant in Under(mem, root, ranges, curnode)
      modifies this`root, this`mem, this`ranges, this`heights, this`entries, mem.Keys
      ensures IsTree() && Holds(mem, entries) && mem.Keys == old(mem).Keys - {redundant}
      ensures entries == old(entries) - {Key(old(mem)[curnode])}
      ensures old(IsRedBlack()) ==> IsRedBlack()
    {
      hide Linked, Ordered, Holds, ShortPlace, RedBlack, IsNext, Unlinked, Under, UnlinkedRanges;
      ghost var ok, side := IsRedBlack(), SideOf(mem, redundant);
      UnlinkedPlace(mem, root, ranges, curnode, redundant);
      if ok {
        if redundant.red {
          RedNodeGoes(mem, root, ranges, heights, curnode, redundant);
        } else {
          BlackGone(mem, root, ranges, heights, curnode, redundant);
        }
      }
      var curchild := Detach(curnode, redundant);
      Mend(redundant, curchild, side, ok);
    }

    /** TreeRemoveNodeIndex: removes one element, and keeps a red-black tree one. */
    method RemoveNode(curnode: Node) returns (content: Content)
      requires Valid() && curnode in mem
      modifies this, mem.Keys
      ensures Valid() && mem.Keys <= old(mem).Keys
      ensures entries == old(entries) - {Key(old(mem)[curnode])}
      ensures content == old(mem)[curnode].content
      ensures old(IsRedBlack()) ==> IsRedBlack()
    {
      hide Linked, Ordered, Holds, RedBlack, TotalSize, Redundant, Under;
      LinksOf(mem, root, curnode);
      HeldAt(mem, entries, curnode);
      RemovedEntry(entries, Key(mem[curnode]));
      var redundant := curnode;
      var sz := curnode.size;
      content := curnode.content;
      if curnode.left != null && curnode.right != null {
        redundant := FollowingBelow(curnode);
      } else {
        SelfIsRedundant(mem, curnode);
      }
      Take(curnode, redundant);
      size := size - sz;
      count := count - 1;
    }

    /** TreeSuccessor of a node with two children. */
    method FollowingBelow(curnode: Node) returns (redundant: Node)
      requires IsTree() && curnode in mem && curnode.right != null
      ensures redundant != curnode && redundant in Under(mem, root, ranges, curnode)
              && Redundant(mem, curnode, redundant)
    {
      LinksOf(mem, root, curnode);
      var next := Successor(curnode);
      RightIsAbove(mem, root, ranges, curnode);
      redundant := next;
      NextIsBelow(mem, root, ranges, curnode, redundant);
    }

    /** TreeRemoveKey. */
    method RemoveKey(key: int) returns (content: Content)
      requires Valid()
      modifies this, mem.Keys
      ensures Valid() && mem.Keys <= old(mem).Keys
      ensures entries == old(entries) - {key}
      ensures content == if key in old(entries) then old(entries)[key].content else NULL
      ensures old(IsRedBlack()) ==> IsRedBlack()
    {
      var curnode := Find(key);
      if curnode == null {
        content := NULL;
        assert entries == entries - {key};
      } else {
        content := RemoveNode(curnode);
      }
    }

    /** `count` is the number of nodes as well as the number of elements. */
    lemma CountsNodes()
      requires Valid()
      ensures count == |mem|
    {
      CountIsNodes(mem, root, ranges, entries);
    }

    /** A red-black tree of `count` elements has at most 2 log2 (count + 1) levels. */
    lemma HeightIsLogarithmic()
      requires Valid() && IsRedBlack()
      ensures Pow2(Levels(mem, root, ranges, root)) <= (count + 1) * (count + 1)
    {
      CountsNodes();
      LogarithmicHeight(mem, root, ranges, heights);
    }
  }

  lemma PaintingKeepsTurn(m: Mem, root: Node?, g: map<Node, Range>, x: Node, d: Dir)
    requires TreeOrder.Tree(m, root, g) && CanRotate(m, x, d) && Riser(m, x, d) != x
    ensures var r := Swapped(m, x, d);
            && r.Keys == m.Keys && CanRotate(r, x, d) && x in g && SwapTurn(m, x, d) == TreeNodes.Rotate(r, x, d)
            && SwapTurn(m, x, d).Keys == m.Keys
            && RotatedRoot(r, root, x, d) == RotatedRoot(m, root, x, d)
            && RotatedRanges(r, g, x, d) == RotatedRanges(m, g, x, d)
  {
    assert NodeOrdered(m, g, x);
    SwapTurns(m, root, g, x, d);
    RotationNodes(m, root, g, x, d);
    RotationKeepsContents(Swapped(m, x, d), root, g, x, d);
  }

  lemma NothingInTree(m: Mem, root: Node?, e: map<int, Entry>)
    requires Linked(m, root) && root == null && Holds(m, e)
    ensures m == map[] && e == map[]
  {
    NothingHeld(m, e);
  }

  lemma LeafAdded(m: Mem, root: Node, ranges: map<Node, Range>, g: map<Node, Range>, h: map<Node, nat>,
                  e: map<int, Entry>,
                  p: Node, d: Dir, x: Node, content: Content, sz: int)
    requires content != NULL && TreeOrder.Tree(m, root, g) && FreePlace(m, g, p, d, content.key) && p in m && p in g
             && x !in m
    requires Holds(m, e) && content.key !in e
    ensures var r, g' := Attached(m, p, d, x, content, sz), AttachedRanges(m, g, p, d, x);
            && Linked(r, root) && Ordered(r, g') && Holds(r, e[content.key := Entry(content, sz)])
            && (RedBlack(m, root, ranges, h) ==> AddInv(r, root, g', h[x := 0], x))
    ensures TotalSize(e[content.key := Entry(content, sz)]) == TotalSize(e) + sz
    ensures |e[content.key := Entry(content, sz)]| == |e| + 1
  {
    hide Linked, Ordered, FreePlace, RedBlack, Holds, AddInv, TotalSize, Attached, AttachedRanges;
    AttachTree(m, root, g, p, d, x, content, sz);
    AttachEntries(m, e, p, d, x, content, sz);
    NewEntry(e, content.key, Entry(content, sz));
    if RedBlack(m, root, ranges, h) {
      OtherRanges(m, root, ranges, g, h);
      AttachStep(m, root, g, h, p, d, x, content, sz);
    }
  }

  /** The records after the pointer updates of TreeRotate, one after the other. */
  ghost function Relinked(m: Mem, x: Node, y: Node, b: Node?, p: Node?, d: Dir, onSide: bool): Mem
    requires x in m && y in m && (b != null ==> b in m) && (p != null ==> p in m)
  {
    var m1 := m[x := WithChild(m[x], Opp(d), b)];
    var m2 := if b != null then m1[b := m1[b].(parent := x)] else m1;
    var m3 := m2[y := m2[y].(parent := p)];
    var m4 := if p == null then m3 else m3[p := WithChild(m3[p], if onSide then d else Opp(d), y)];
    var m5 := m4[y := WithChild(m4[y], d, x)];
    m5[x := m5[x].(parent := y)]
  }

  /** TreePtrCompare and TreeIntCompare: positive when the first is the smaller one. */
  function Compare(a: Content, b: Content): int
    requires a != NULL && b != NULL
  {
    if a.key > b.key then -1 else if a.key == b.key then 0 else 1
  }

  lemma RelinkedIsRotated(m: Mem, x: Node, y: Node, b: Node?, p: Node?, d: Dir, onSide: bool)
    requires CanRotate(m, x, d) && y == Riser(m, x, d)
    requires Turned(m, TreeNodes.Rotate(m, x, d), x, y, b, p, d)
    requires p != null ==> onSide == (Child(m[p], d) == x)
    ensures Relinked(m, x, y, b, p, d, onSide) == TreeNodes.Rotate(m, x, d)
  {
    hide TreeNodes.Rotate, Relinked;
    var r := Relinked(m, x, y, b, p, d, onSide);
    RelinkedKeys(m, x, y, b, p, d, onSide);
    forall n | n in m
      ensures r[n] == TreeNodes.Rotate(m, x, d)[n]
    {
      RelinkedAt(m, x, y, b, p, d, onSide, n);
    }
  }

  lemma RelinkedKeys(m: Mem, x: Node, y: Node, b: Node?, p: Node?, d: Dir, onSide: bool)
    requires x in m && y in m && (b != null ==> b in m) && (p != null ==> p in m)
    ensures Relinked(m, x, y, b, p, d, onSide).Keys == m.Keys
  {
  }

  lemma RelinkedAt(m: Mem, x: Node, y: Node, b: Node?, p: Node?, d: Dir, onSide: bool, n: Node)
    requires x in m && y in m && (b != null ==> b in m) && (p != null ==> p in m) && n in m
    requires CanRotate(m, x, d) && y == Riser(m, x, d)
    requires Turned(m, TreeNodes.Rotate(m, x, d), x, y, b, p, d)
    requires p != null ==> onSide == (Child(m[p], d) == x)
    ensures n in Relinked(m, x, y, b, p, d, onSide) && n in TreeNodes.Rotate(m, x, d)
    ensures Relinked(m, x, y, b, p, d, onSide)[n] == TreeNodes.Rotate(m, x, d)[n]
  {
    hide TreeNodes.Rotate;
    RelinkedKeys(m, x, y, b, p, d, onSide);
  }
}
