/** The doubly linked list, with the element that was last found as the first place of the next search. */
module LinkedList {
  import opened Messages

  /** A pointer to the content of an element; the list only compares it, or hands it to a callback. */
  type Item = int

  class ListElement {
    var prev: ListElement?
    var next: ListElement?
    var content: Item

    constructor (content: Item)
      ensures this.content == content && prev == null && next == null
    {
      this.content, prev, next := content, null, null;
    }

    function Fields(): Rec
      reads this
    {
      Rec(prev, next, content)
    }
  }

  datatype Rec = Rec(prev: ListElement?, next: ListElement?, content: Item)

  type Mem = map<ListElement, Rec>

  // ---------- chains ----------

  function At(nodes: seq<ListElement>, i: int): ListElement? {
    if 0 <= i < |nodes| then nodes[i] else null
  }

  ghost predicate NodeOk(m: Mem, nodes: seq<ListElement>, i: nat)
    requires i < |nodes|
  {
    nodes[i] in m && m[nodes[i]].prev == At(nodes, i - 1) && m[nodes[i]].next == At(nodes, i + 1)
  }

  /** The elements in order, each pointing to the one before and the one after. */
  ghost predicate Chain(m: Mem, nodes: seq<ListElement>) {
    && (forall n :: n in m ==> n in nodes)
    && (forall i, j :: 0 <= i < j < |nodes| ==> nodes[i] != nodes[j])
    && (forall i {:trigger NodeOk(m, nodes, i)} :: 0 <= i < |nodes| ==> NodeOk(m, nodes, i))
  }

  function Place(nodes: seq<ListElement>, n: ListElement?): (i: nat)
    ensures i <= |nodes| && (i < |nodes| ==> nodes[i] == n)
    ensures forall j :: 0 <= j < i ==> nodes[j] != n
  {
    if nodes == [] || nodes[0] == n then 0 else 1 + Place(nodes[1..], n)
  }

  ghost function Contents(m: Mem, nodes: seq<ListElement>): seq<Item>
    requires forall i :: 0 <= i < |nodes| ==> nodes[i] in m
  {
    seq(|nodes|, i requires 0 <= i < |nodes| => m[nodes[i]].content)
  }

  lemma ChainContents(m: Mem, nodes: seq<ListElement>)
    requires Chain(m, nodes)
    ensures forall i :: 0 <= i < |nodes| ==> nodes[i] in m
  {
    forall i | 0 <= i < |nodes|
      ensures nodes[i] in m
    {
      assert NodeOk(m, nodes, i);
    }
  }

  function InsertedAt(nodes: seq<ListElement>, k: nat, x: ListElement): seq<ListElement>
    requires k <= |nodes|
  {
    nodes[..k] + [x] + nodes[k..]
  }

  /** A new element between two neighbours. */
  ghost function Inserted(m: Mem, x: ListElement, p: ListElement?, n: ListElement?, content: Item): Mem {
    var m1 := m[x := Rec(p, n, content)];
    var m2 := if n != null && n in m1 then m1[n := m1[n].(prev := x)] else m1;
    if p != null && p in m2 then m2[p := m2[p].(next := x)] else m2
  }

  lemma InsertChain(m: Mem, nodes: seq<ListElement>, k: nat, x: ListElement, content: Item)
    requires Chain(m, nodes) && k <= |nodes| && x !in m
    ensures Chain(Inserted(m, x, At(nodes, k - 1), At(nodes, k), content), InsertedAt(nodes, k, x))
  {
    hide Inserted, At, NodeOk;
    var r := Inserted(m, x, At(nodes, k - 1), At(nodes, k), content);
    var more := InsertedAt(nodes, k, x);
    ChainContents(m, nodes);
    forall i {:trigger NodeOk(r, more, i)} | 0 <= i < |more|
      ensures NodeOk(r, more, i)
    {
      if i == k {
        NewNode(m, nodes, k, x, content, more, r);
      } else {
        InsertNode(m, nodes, k, x, content, more, r, if i < k then i else i - 1);
      }
    }
    InsertedKeys(m, x, At(nodes, k - 1), At(nodes, k), content);
    InsertedNodes(m, nodes, k, x, more, r);
  }

  lemma NewNode(m: Mem, nodes: seq<ListElement>, k: nat, x: ListElement, content: Item, more: seq<ListElement>, r: Mem)
    requires k <= |nodes| && x !in m && forall j :: 0 <= j < |nodes| ==> nodes[j] in m
    requires r == Inserted(m, x, At(nodes, k - 1), At(nodes, k), content)
    requires more == InsertedAt(nodes, k, x)
    ensures NodeOk(r, more, k)
  {
    assert k > 0 ==> more[k - 1] == nodes[k - 1];
    assert k < |nodes| ==> more[k + 1] == nodes[k];
  }

  lemma InsertNode(m: Mem, nodes: seq<ListElement>, k: nat, x: ListElement, content: Item, more: seq<ListElement>,
                   r: Mem, i: nat)
    requires Chain(m, nodes) && k <= |nodes| && x !in m && i < |nodes|
    requires r == Inserted(m, x, At(nodes, k - 1), At(nodes, k), content)
    requires more == InsertedAt(nodes, k, x)
    requires forall j :: 0 <= j < |nodes| ==> nodes[j] in m
    ensures NodeOk(r, more, if i < k then i else i + 1)
  {
    assert NodeOk(m, nodes, i);
    var p, n := At(nodes, k - 1), At(nodes, k);
    assert nodes[i] == p <==> i == k - 1;
    assert nodes[i] == n <==> i == k;
    assert p != null ==> p == nodes[k - 1] && p in m;
    assert n != null ==> n == nodes[k] && n in m;
    assert r[nodes[i]].next == if i == k - 1 then x else m[nodes[i]].next;
    assert r[nodes[i]].prev == if i == k then x else m[nodes[i]].prev;
    if i < k {
      assert i > 0 ==> more[i - 1] == nodes[i - 1];
      assert more[i + 1] == if i == k - 1 then x else nodes[i + 1];
    } else {
      assert more[i] == if i == k then x else nodes[i - 1];
      assert i + 1 < |nodes| ==> more[i + 2] == nodes[i + 1];
    }
  }

  lemma InsertedNodes(m: Mem, nodes: seq<ListElement>, k: nat, x: ListElement, more: seq<ListElement>, r: Mem)
    requires Chain(m, nodes) && k <= |nodes| && x !in m && more == InsertedAt(nodes, k, x) && r.Keys == m.Keys + {x}
    ensures forall n :: n in r ==> n in more
    ensures forall i, j :: 0 <= i < j < |more| ==> more[i] != more[j]
  {
    ChainContents(m, nodes);
    InsertedMembers(nodes, k, x, more);
    InsertedDistinct(nodes, k, x, more);
  }

  lemma InsertedMembers(nodes: seq<ListElement>, k: nat, x: ListElement, more: seq<ListElement>)
    requires k <= |nodes| && more == InsertedAt(nodes, k, x)
    ensures forall n :: n in nodes ==> n in more
  {
    assert nodes == nodes[..k] + nodes[k..];
  }

  lemma InsertedDistinct(nodes: seq<ListElement>, k: nat, x: ListElement, more: seq<ListElement>)
    requires k <= |nodes| && more == InsertedAt(nodes, k, x)
    requires (forall i, j :: 0 <= i < j < |nodes| ==> nodes[i] != nodes[j])
             && (forall i :: 0 <= i < |nodes| ==> nodes[i] != x)
    ensures forall i, j :: 0 <= i < j < |more| ==> more[i] != more[j]
  {
    forall i, j | 0 <= i < j < |more|
      ensures more[i] != more[j]
    {
      assert more[i] == if i < k then nodes[i] else if i == k then x else nodes[i - 1];
      assert more[j] == if j < k then nodes[j] else if j == k then x else nodes[j - 1];
    }
  }

  lemma InsertContents(m: Mem, nodes: seq<ListElement>, k: nat, x: ListElement, content: Item)
    requires Chain(m, nodes) && k <= |nodes| && x !in m
    ensures var r, more := Inserted(m, x, At(nodes, k - 1), At(nodes, k), content), InsertedAt(nodes, k, x);
            && (forall i :: 0 <= i < |nodes| ==> nodes[i] in m) && (forall i :: 0 <= i < |more| ==> more[i] in r)
            && Contents(r, more) == Contents(m, nodes)[..k] + [content] + Contents(m, nodes)[k..]
  {
    hide Chain, Inserted;
    var r, more := Inserted(m, x, At(nodes, k - 1), At(nodes, k), content), InsertedAt(nodes, k, x);
    ChainContents(m, nodes);
    InsertChain(m, nodes, k, x, content);
    ChainContents(r, more);
    forall i | 0 <= i < |more|
      ensures r[more[i]].content == (Contents(m, nodes)[..k] + [content] + Contents(m, nodes)[k..])[i]
    {
      InsertedContent(m, x, At(nodes, k - 1), At(nodes, k), content, more[i]);
    }
  }

  lemma InsertedContent(m: Mem, x: ListElement, p: ListElement?, n: ListElement?, content: Item, y: ListElement)
    requires y in Inserted(m, x, p, n, content)
    ensures y != x ==> y in m && Inserted(m, x, p, n, content)[y].content == m[y].content
    ensures y == x ==> Inserted(m, x, p, n, content)[y].content == content
  {
  }

  function WithoutAt(nodes: seq<ListElement>, k: nat): seq<ListElement>
    requires k < |nodes|
  {
    nodes[..k] + nodes[k + 1..]
  }

  /** An element out, its neighbours pointing past it. */
  ghost function Bypassed(m: Mem, x: ListElement): Mem
    requires x in m
  {
    var p, n := m[x].prev, m[x].next;
    var m1 := if p != null && p in m then m[p := m[p].(next := n)] else m;
    var m2 := if n != null && n in m1 then m1[n := m1[n].(prev := p)] else m1;
    m2 - {x}
  }

  lemma BypassChain(m: Mem, nodes: seq<ListElement>, k: nat)
    requires Chain(m, nodes) && k < |nodes|
    ensures nodes[k] in m && Chain(Bypassed(m, nodes[k]), WithoutAt(nodes, k))
  {
    hide Bypassed;
    ChainContents(m, nodes);
    var r, fewer := Bypassed(m, nodes[k]), WithoutAt(nodes, k);
    forall i {:trigger NodeOk(r, fewer, i)} | 0 <= i < |fewer|
      ensures NodeOk(r, fewer, i)
    {
      BypassNode(m, nodes, k, fewer, r, if i < k then i else i + 1);
    }
    BypassedKeys(m, nodes[k]);
    BypassedNodes(m, nodes, k, fewer, r);
  }

  lemma BypassedKeys(m: Mem, x: ListElement)
    requires x in m
    ensures Bypassed(m, x).Keys == m.Keys - {x}
  {
  }

  lemma BypassNode(m: Mem, nodes: seq<ListElement>, k: nat, fewer: seq<ListElement>, r: Mem, i: nat)
    requires Chain(m, nodes) && k < |nodes| && i < |nodes| && i != k
    requires nodes[k] in m && r == Bypassed(m, nodes[k])
    requires fewer == WithoutAt(nodes, k)
    requires forall j :: 0 <= j < |nodes| ==> nodes[j] in m
    ensures NodeOk(r, fewer, if i < k then i else i - 1)
  {
    assert NodeOk(m, nodes, i) && NodeOk(m, nodes, k);
    var p, n := At(nodes, k - 1), At(nodes, k + 1);
    assert nodes[i] == p <==> i == k - 1;
    assert nodes[i] == n <==> i == k + 1;
    assert p != null ==> p == nodes[k - 1] && p in m;
    assert n != null ==> n == nodes[k + 1] && n in m;
    assert r[nodes[i]].next == if i == k - 1 then n else m[nodes[i]].next;
    assert r[nodes[i]].prev == if i == k + 1 then p else m[nodes[i]].prev;
    if i < k {
      assert i > 0 ==> fewer[i - 1] == nodes[i - 1];
      assert i + 1 < |fewer| ==> fewer[i + 1] == if i == k - 1 then nodes[k + 1] else nodes[i + 1];
    } else {
      assert i >= 2 ==> fewer[i - 2] == if i == k + 1 then nodes[k - 1] else nodes[i - 1];
      assert i < |fewer| ==> fewer[i] == nodes[i + 1];
    }
  }

  lemma BypassedNodes(m: Mem, nodes: seq<ListElement>, k: nat, fewer: seq<ListElement>, r: Mem)
    requires Chain(m, nodes) && k < |nodes| && fewer == WithoutAt(nodes, k) && r.Keys == m.Keys - {nodes[k]}
    ensures forall n :: n in r ==> n in fewer
    ensures forall i, j :: 0 <= i < j < |fewer| ==> fewer[i] != fewer[j]
  {
    assert nodes == nodes[..k] + [nodes[k]] + nodes[k + 1..];
    assert forall i :: 0 <= i < |fewer| ==> fewer[i] == if i < k then nodes[i] else nodes[i + 1];
  }

  lemma BypassContents(m: Mem, nodes: seq<ListElement>, k: nat)
    requires Chain(m, nodes) && k < |nodes|
    ensures nodes[k] in m
    ensures var r, fewer := Bypassed(m, nodes[k]), WithoutAt(nodes, k);
            && (forall i :: 0 <= i < |nodes| ==> nodes[i] in m) && (forall i :: 0 <= i < |fewer| ==> fewer[i] in r)
            && Contents(r, fewer) == Contents(m, nodes)[..k] + Contents(m, nodes)[k + 1..]
  {
    hide Chain, Bypassed;
    ChainContents(m, nodes);
    BypassChain(m, nodes, k);
    var r, fewer := Bypassed(m, nodes[k]), WithoutAt(nodes, k);
    ChainContents(r, fewer);
    forall i | 0 <= i < |fewer|
      ensures r[fewer[i]].content == (Contents(m, nodes)[..k] + Contents(m, nodes)[k + 1..])[i]
    {
      BypassedContent(m, nodes[k], fewer[i]);
    }
  }

  lemma BypassedContent(m: Mem, x: ListElement, y: ListElement)
    requires x in m && y in Bypassed(m, x)
    ensures y in m && Bypassed(m, x)[y].content == m[y].content
  {
  }

  /** The last element before the first: a ring. */
  ghost function Joined(m: Mem, first: ListElement, last: ListElement): Mem
    requires first in m && last in m
  {
    var m1 := m[first := m[first].(prev := last)];
    m1[last := m1[last].(next := first)]
  }

  /** A ring cut before an element. */
  ghost function CutBefore(m: Mem, x: ListElement): Mem
    requires x in m
  {
    var newLast, cut := m[x].prev, m[x := m[x].(prev := null)];
    if newLast != null && newLast in cut then cut[newLast := cut[newLast].(next := null)] else cut
  }

  /** The list cut before an element and put together again the other way round. */
  ghost function Turned(m: Mem, first: ListElement, last: ListElement, x: ListElement): Mem
    requires first in m && last in m && x in m
  {
    CutBefore(Joined(m, first, last), x)
  }

  lemma TurnChain(m: Mem, nodes: seq<ListElement>, k: nat)
    requires Chain(m, nodes) && k < |nodes|
    ensures var first, last := nodes[0], nodes[|nodes| - 1];
            && first in m && last in m && nodes[k] in m
            && Chain(Turned(m, first, last, nodes[k]), nodes[k..] + nodes[..k])
  {
    hide Turned, At, NodeOk;
    ChainContents(m, nodes);
    var n := |nodes|;
    var r, turned := Turned(m, nodes[0], nodes[n - 1], nodes[k]), nodes[k..] + nodes[..k];
    forall i {:trigger NodeOk(r, turned, i)} | 0 <= i < n
      ensures NodeOk(r, turned, i)
    {
      TurnNode(m, nodes, k, turned, r, if i < n - k then i + k else i - (n - k));
    }
    TurnedNodes(m, nodes, k, turned);
    TurnedKeys(m, nodes[0], nodes[n - 1], nodes[k]);
  }

  /** What comes before the place of the cut in the ring. */
  lemma RingBefore(m: Mem, nodes: seq<ListElement>, k: nat)
    requires Chain(m, nodes) && k < |nodes|
    ensures var first, last := nodes[0], nodes[|nodes| - 1];
            && first in m && last in m && nodes[k] in m
            && Joined(m, first, last)[nodes[k]].prev == (if k == 0 then last else nodes[k - 1])
            && (if k == 0 then last else nodes[k - 1]) in m
  {
    ChainContents(m, nodes);
    assert NodeOk(m, nodes, k);
  }

  lemma JoinedKeys(m: Mem, first: ListElement, last: ListElement)
    requires first in m && last in m
    ensures Joined(m, first, last).Keys == m.Keys
  {
  }

  lemma TurnedKeys(m: Mem, first: ListElement, last: ListElement, x: ListElement)
    requires first in m && last in m && x in m
    ensures Turned(m, first, last, x).Keys == m.Keys
  {
  }

  lemma TurnedNodes(m: Mem, nodes: seq<ListElement>, k: nat, turned: seq<ListElement>)
    requires Chain(m, nodes) && k < |nodes| && turned == nodes[k..] + nodes[..k]
    ensures forall n :: n in m ==> n in turned
    ensures forall i, j :: 0 <= i < j < |turned| ==> turned[i] != turned[j]
  {
    assert nodes == nodes[..k] + nodes[k..];
  }

  lemma TurnNode(m: Mem, nodes: seq<ListElement>, k: nat, turned: seq<ListElement>, r: Mem, i: nat)
    requires Chain(m, nodes) && k < |nodes| && i < |nodes| && turned == nodes[k..] + nodes[..k]
    requires forall j :: 0 <= j < |nodes| ==> nodes[j] in m
    requires r == Turned(m, nodes[0], nodes[|nodes| - 1], nodes[k])
    ensures NodeOk(r, turned, if i < k then i + (|nodes| - k) else i - k)
  {
    var n := |nodes|;
    assert NodeOk(m, nodes, i) && NodeOk(m, nodes, 0) && NodeOk(m, nodes, n - 1) && NodeOk(m, nodes, k);
    assert nodes[i] == nodes[k] <==> i == k;
    assert nodes[i] == nodes[0] <==> i == 0;
    assert nodes[i] == nodes[n - 1] <==> i == n - 1;
    var end := if k == 0 then n - 1 else k - 1;
    assert nodes[i] == nodes[end] <==> i == end;
    assert r[nodes[i]].prev == if i == k then null else if i == 0 then nodes[n - 1] else nodes[i - 1];
    assert r[nodes[i]].next == if i == end then null else if i == n - 1 then nodes[0] else nodes[i + 1];
  }

  // ---------- the list ----------

  class List {
    var first: ListElement?
    var last: ListElement?
    var current: ListElement?
    var count: int
    var size: int
    ghost var nodes: seq<ListElement>
    ghost var mem: Mem

    ghost predicate Synced()
      reads this`mem, mem.Keys
    {
      forall n :: n in mem ==> n.Fields() == mem[n]
    }

    /** The elements form a chain from `first` to `last`, and `current` is one of them or null. */
    ghost predicate Valid()
      reads this, mem.Keys
    {
      && Synced() && Chain(mem, nodes)
      && first == At(nodes, 0) && last == At(nodes, |nodes| - 1)
      && (current != null ==> current in nodes)
      && count == |nodes|
    }

    ghost function Items(): seq<Item>
      requires Valid()
      reads this, mem.Keys
    {
      ChainContents(mem, nodes);
      Contents(mem, nodes)
    }

    constructor ()
      ensures Valid() && nodes == [] && current == null && size == 0
    {
      first, last, current, count, size := null, null, null, 0, 0;
      nodes, mem := [], map[];
    }

    // ---------- single fields ----------

    method SetNext(n: ListElement, x: ListElement?)
      requires Synced() && n in mem
      modifies this`mem, n`next
      ensures Synced() && mem == old(mem)[n := old(mem)[n].(next := x)]
    {
      n.next := x;
      mem := mem[n := mem[n].(next := x)];
    }

    method SetPrev(n: ListElement, x: ListElement?)
      requires Synced() && n in mem
      modifies this`mem, n`prev
      ensures Synced() && mem == old(mem)[n := old(mem)[n].(prev := x)]
    {
      n.prev := x;
      mem := mem[n := mem[n].(prev := x)];
    }

    method AddElement(content: Item, p: ListElement?, n: ListElement?) returns (newel: ListElement)
      requires Synced()
      modifies this`mem
      ensures Synced() && fresh(newel) && newel !in old(mem) && mem == old(mem)[newel := Rec(p, n, content)]
    {
      newel := new ListElement(content);
      newel.prev, newel.next := p, n;
      mem := mem[newel := Rec(p, n, content)];
    }

    // ---------- adding ----------

    /** The pointer updates of ListAppendNoMalloc. */
    method LinkLast(content: Item) returns (newel: ListElement)
      requires Synced() && (first == null <==> last == null) && (last != null ==> last in mem)
      modifies this`mem, this`first, this`last, mem.Keys
      ensures Synced() && fresh(newel) && newel !in old(mem)
      ensures mem == Inserted(old(mem), newel, old(last), null, content)
      ensures last == newel && first == if old(first) == null then newel else old(first)
    {
      newel := AddElement(content, last, null);
      if first == null {
        first := newel;
      } else {
        SetNext(last, newel);
      }
      last := newel;
    }

    /** The pointer updates of ListInsert before an element. */
    method LinkBefore(content: Item, index: ListElement) returns (newel: ListElement)
      requires Synced() && index in mem && index.prev != index && (index.prev != null ==> index.prev in mem)
      modifies this`mem, this`first, mem.Keys
      ensures Synced() && fresh(newel) && newel !in old(mem)
      ensures mem == Inserted(old(mem), newel, old(mem)[index].prev, index, content)
      ensures first == if old(mem)[index].prev == null then newel else old(first)
    {
      var p := index.prev;
      newel := AddElement(content, p, index);
      SetPrev(index, newel);
      if p != null {
        SetNext(p, newel);
      } else {
        first := newel;
      }
    }

    /** The element is linked in before `index`, or at the end if it is null. */
    method LinkIn(content: Item, index: ListElement?, ghost k: nat) returns (newel: ListElement)
      requires Valid() && (index != null ==> index in nodes)
      requires k == if index == null then |nodes| else Place(nodes, index)
      modifies this`mem, this`first, this`last, mem.Keys
      ensures Synced() && fresh(newel) && newel !in old(mem)
      ensures mem == Inserted(old(mem), newel, At(nodes, k - 1), At(nodes, k), content)
      ensures first == if k == 0 then newel else old(first)
      ensures last == if k == |nodes| then newel else old(last)
    {
      hide Chain, Contents, Inserted, At, Place;
      EndsOf(mem, nodes);
      PlaceIs(mem, nodes, index);
      if index == null {
        newel := LinkLast(content);
      } else {
        newel := LinkBefore(content, index);
      }
    }

    /** ListInsert: before `index`, or at the end if it is null. */
    method Insert(content: Item, sz: int, index: ListElement?) returns (newel: ListElement)
      requires Valid() && (index != null ==> index in nodes)
      modifies this, mem.Keys
      ensures Valid() && fresh(newel) && mem.Keys == old(mem).Keys + {newel}
      ensures current == old(current) && size == old(size) + sz
      ensures var k := if index == null then |old(nodes)| else Place(old(nodes), index);
              && nodes == InsertedAt(old(nodes), k, newel)
              && Items() == old(Items())[..k] + [content] + old(Items())[k..]
    {
      hide Chain, Contents, Inserted, At, Place, InsertedAt;
      ghost var k := if index == null then |nodes| else Place(nodes, index);
      ghost var m, nodes0 := mem, nodes;
      EndsOf(m, nodes);
      newel := LinkIn(content, index, k);
      InsertChain(m, nodes0, k, newel, content);
      InsertContents(m, nodes0, k, newel, content);
      InsertedKeys(m, newel, At(nodes0, k - 1), At(nodes0, k), content);
      InsertedEnds(nodes0, k, newel, current);
      count, size, nodes := count + 1, size + sz, InsertedAt(nodes0, k, newel);
    }

    // ---------- searching ----------

    /** ListNextElement and ListPrevElement. */
    method NextElement(pos: ListElement?) returns (rc: ListElement?)
      requires Valid() && (pos != null ==> pos in nodes)
      ensures rc == At(nodes, if pos == null then 0 else Place(nodes, pos) + 1)
    {
      PlaceIs(mem, nodes, pos);
      rc := if pos == null then first else pos.next;
    }

    method PrevElement(pos: ListElement?) returns (rc: ListElement?)
      requires Valid() && (pos != null ==> pos in nodes)
      ensures rc == At(nodes, if pos == null then |nodes| - 1 else Place(nodes, pos) - 1)
    {
      PlaceIs(mem, nodes, pos);
      rc := if pos == null then last else pos.prev;
    }

    /** The loop of ListFindItem. */
    method Search(matches: Item -> bool) returns (rc: ListElement?)
      requires Valid()
      ensures rc == At(nodes, FirstMatch(mem, nodes, matches))
    {
      hide Chain;
      EndsOf(mem, nodes);
      rc := null;
      ghost var i := 0;
      var cur := NextElement(null);
      while cur != null
        invariant 0 <= i <= |nodes| && cur == At(nodes, i) && rc == null
        invariant FirstMatch(mem, nodes, matches) == i + FirstMatch(mem, nodes[i..], matches)
        decreases |nodes| - i
      {
        assert nodes[i..][0] == nodes[i] && nodes[i..][1..] == nodes[i + 1..];
        if matches(cur.content) {
          rc := cur;
          break;
        }
        PlaceOfNode(mem, nodes, i);
        cur := NextElement(cur);
        i := i + 1;
      }
    }

    /** ListFindItem: the last element found, if it matches, or else the first one that does. */
    method FindItem(matches: Item -> bool) returns (rc: ListElement?)
      requires Valid()
      modifies this`current
      ensures Valid()
      ensures rc == Sought(mem, nodes, old(current), matches) && (rc != null ==> rc in nodes)
      ensures current == if rc != null then rc else old(current)
    {
      EndsOf(mem, nodes);
      if current != null && matches(current.content) {
        rc := current;
      } else {
        rc := Search(matches);
        if rc != null {
          current := rc;
        }
      }
    }

    // ---------- removing ----------

    /** The pointer updates that take an element out. */
    method Bypass(x: ListElement, ghost k: nat)
      requires Valid() && k < |nodes| && nodes[k] == x
      modifies this`mem, this`first, this`last, mem.Keys
      ensures Synced() && x in old(mem) && mem == Bypassed(old(mem), x)
      ensures first == if k == 0 then At(nodes, 1) else old(first)
      ensures last == if k == |nodes| - 1 then At(nodes, k - 1) else old(last)
      ensures x.Fields() == old(mem)[x]
    {
      hide Chain, At;
      EndsOf(mem, nodes);
      PlaceOfNode(mem, nodes, k);
      PlaceIs(mem, nodes, x);
      NeighboursDiffer(mem, nodes, k);
      if x.prev == null {
        first := x.next;
      } else {
        SetNext(x.prev, x.next);
      }
      if x.next == null {
        last := x.prev;
      } else {
        SetPrev(x.next, x.prev);
      }
      mem := mem - {x};
    }

    /** ListUnlink. The place of the next search stays, or moves on if its element is the one removed. */
    method Unlink(matches: Item -> bool) returns (removed: bool)
      requires Valid()
      modifies this, mem.Keys
      ensures Valid() && mem.Keys <= old(mem).Keys && size == old(size)
      ensures var x := old(Sought(mem, nodes, current, matches));
              if x == null then !removed && nodes == old(nodes) && current == old(current) && Items() == old(Items())
              else
                var k := Place(old(nodes), x);
                && removed && k < |old(nodes)| && nodes == WithoutAt(old(nodes), k)
                && current == (if old(current) == x then At(old(nodes), k + 1) else old(current))
                && Items() == old(Items())[..k] + old(Items())[k + 1..]
    {
      hide Chain, At, Contents, Place, WithoutAt, Sought;
      var saved := current;
      var x := FindItem(matches);
      removed := x != null;
      if x != null {
        Remove(x, saved);
      }
    }

    /** Its second half: `saved` is the place of the search before. */
    method Remove(x: ListElement, saved: ListElement?)
      requires Valid() && x in nodes && (saved != null ==> saved in nodes)
      modifies this, mem.Keys
      ensures Valid() && mem.Keys <= old(mem).Keys && size == old(size)
      ensures var k := Place(old(nodes), x);
              && k < |old(nodes)| && nodes == WithoutAt(old(nodes), k)
              && current == (if saved == x then At(old(nodes), k + 1) else saved)
              && Items() == old(Items())[..k] + old(Items())[k + 1..]
    {
      hide Chain, At, Contents, Place, WithoutAt, Bypassed;
      ghost var m, nodes0, k := mem, nodes, Place(nodes, x);
      PlaceIs(m, nodes, x);
      var next := x.next;
      Bypass(x, k);
      BypassedKeys(m, x);
      BypassChain(m, nodes0, k);
      BypassContents(m, nodes0, k);
      RemovedEnds(nodes0, k, saved);
      current := if saved == x then next else saved;
      count := count - 1;
      nodes := WithoutAt(nodes0, k);
    }

    /** The pointer updates of ListDetachHead. */
    method DropHead(x: ListElement)
      requires Valid() && nodes != [] && x == nodes[0]
      modifies this`mem, this`first, this`last, mem.Keys
      ensures Synced() && x in old(mem) && mem == Bypassed(old(mem), x)
      ensures first == At(nodes, 1) && last == if |nodes| == 1 then null else old(last)
    {
      hide Chain, At;
      EndsOf(mem, nodes);
      PlaceOfNode(mem, nodes, 0);
      PlaceIs(mem, nodes, x);
      OneNode(mem, nodes);
      HeadBypassed(mem, nodes, x);
      if last == x {
        last := null;
      }
      first := x.next;
      if first != null {
        SetPrev(first, null);
      }
      mem := mem - {x};
    }

    /** ListDetachHead. */
    method DetachHead() returns (content: Option<Item>)
      requires Valid()
      modifies this, mem.Keys
      ensures Valid() && mem.Keys <= old(mem).Keys && size == old(size)
      ensures if old(nodes) == [] then content == None && nodes == [] && current == old(current)
              else && content == Some(old(Items())[0]) && nodes == old(nodes)[1..] && Items() == old(Items())[1..]
                   && current == if old(current) == old(nodes)[0] then At(old(nodes), 1) else old(current)
    {
      hide Chain, At, Contents, WithoutAt, Bypassed;
      EndsOf(mem, nodes);
      content := None;
      if count > 0 {
        ghost var m, nodes0 := mem, nodes;
        var x: ListElement, saved := first, current;
        HeadIs(m, nodes);
        content := Some(x.content);
        DropHead(x);
        BypassedKeys(m, x);
        BypassChain(m, nodes0, 0);
        BypassContents(m, nodes0, 0);
        RemovedEnds(nodes0, 0, saved);
        if saved == x {
          current := first;
        }
        count := count - 1;
        nodes := WithoutAt(nodes0, 0);
      }
    }

    /** The pointer updates of ListPopTail. */
    method DropTail(x: ListElement)
      requires Valid() && nodes != [] && x == nodes[|nodes| - 1]
      modifies this`mem, this`first, this`last, mem.Keys
      ensures Synced() && x in old(mem) && mem == Bypassed(old(mem), x)
      ensures last == At(nodes, |nodes| - 2) && first == if |nodes| == 1 then null else old(first)
    {
      hide Chain, At;
      EndsOf(mem, nodes);
      PlaceOfNode(mem, nodes, |nodes| - 1);
      PlaceIs(mem, nodes, x);
      OneNode(mem, nodes);
      TailBypassed(mem, nodes, x);
      if first == x {
        first := null;
      }
      last := x.prev;
      if last != null {
        SetNext(last, null);
      }
      mem := mem - {x};
    }

    /** ListPopTail. */
    method PopTail() returns (content: Option<Item>)
      requires Valid()
      modifies this, mem.Keys
      ensures Valid() && mem.Keys <= old(mem).Keys && size == old(size)
      ensures var n := |old(nodes)| - 1;
              if n < 0 then content == None && nodes == [] && current == old(current)
              else && content == Some(old(Items())[n]) && nodes == old(nodes)[..n] && Items() == old(Items())[..n]
                   && current == if old(current) == old(nodes)[n] then At(old(nodes), n - 1) else old(current)
    {
      hide Chain, At, Contents, WithoutAt, Bypassed;
      EndsOf(mem, nodes);
      content := None;
      if count > 0 {
        ghost var m, nodes0, n := mem, nodes, |nodes| - 1;
        var x: ListElement, saved := last, current;
        HeadIs(m, nodes);
        content := Some(x.content);
        DropTail(x);
        BypassedKeys(m, x);
        BypassChain(m, nodes0, n);
        BypassContents(m, nodes0, n);
        RemovedEnds(nodes0, n, saved);
        if saved == x {
          current := last;
        }
        count := count - 1;
        nodes := WithoutAt(nodes0, n);
      }
    }

    /** ListEmpty. The loop comes to each element once, in order, and frees it: `freed` are those. */
    method Empty() returns (ghost freed: seq<ListElement>)
      requires Valid()
      modifies this, mem.Keys
      ensures Valid() && nodes == [] && current == null && size == 0 && freed == old(nodes)
    {
      hide Suffix, Chain;
      ghost var rest := nodes;
      freed := [];
      assert freed + rest == nodes;
      SuffixBegins(mem, nodes);
      while first != null
        invariant Synced() && Suffix(mem, rest) && first == At(rest, 0) && mem.Keys <= old(mem).Keys
        invariant freed + rest == old(nodes)
        decreases |rest|
      {
        Shifted(freed, rest);
        FreeFirst(rest);
        freed, rest := freed + [rest[0]], rest[1..];
      }
      count, size := 0, 0;
      current, first, last := null, null, null;
      nodes, mem := [], map[];
      EmptyChain();
    }

    /** One turn of its loop. */
    method FreeFirst(ghost rest: seq<ListElement>)
      requires Synced() && Suffix(mem, rest) && rest != [] && first == rest[0]
      modifies this`first, this`mem
      ensures Synced() && Suffix(mem, rest[1..]) && first == At(rest[1..], 0) && mem == old(mem) - {rest[0]}
    {
      hide Suffix;
      SuffixStep(mem, rest);
      first := first.next;
      mem := mem - {rest[0]};
    }

    /** The rotation at the end of MQTTPersistence_wrapMsgID: the list begins with `wrapel`. */
    method Rotate(wrapel: ListElement)
      requires Valid() && wrapel in nodes
      modifies this`mem, this`first, this`last, this`nodes, mem.Keys
      ensures Valid() && mem.Keys == old(mem).Keys
      ensures var k := Place(old(nodes), wrapel);
              && nodes == old(nodes)[k..] + old(nodes)[..k] && Items() == old(Items())[k..] + old(Items())[..k]
    {
      hide Chain, Contents, Turned;
      ghost var k, m := Place(nodes, wrapel), mem;
      EndsOf(mem, nodes);
      TurnChain(m, nodes, k);
      TurnContents(m, nodes, k);
      Turn(wrapel, k);
      nodes := nodes[k..] + nodes[..k];
    }

    /** The last element goes before the first: the list becomes a ring. */
    method Join(f: ListElement, l: ListElement)
      requires Synced() && f in mem && l in mem
      modifies this`mem, f`prev, l`next
      ensures Synced() && mem == Joined(old(mem), f, l)
    {
      SetPrev(f, l);
      SetNext(l, f);
    }

    /** The ring is cut before the element. */
    method Cut(wrapel: ListElement)
      requires Synced() && wrapel in mem && mem[wrapel].prev != null && mem[wrapel].prev in mem
      modifies this`mem, this`first, this`last, mem.Keys
      ensures Synced() && mem == CutBefore(old(mem), wrapel)
      ensures first == wrapel && last == old(mem)[wrapel].prev
    {
      first := wrapel;
      last := wrapel.prev;
      SetPrev(first, null);
      SetNext(last, null);
    }

    /** Its pointer updates. */
    method Turn(wrapel: ListElement, ghost k: nat)
      requires Valid() && k < |nodes| && nodes[k] == wrapel
      modifies this`mem, this`first, this`last, mem.Keys
      ensures Synced() && nodes[0] in old(mem) && nodes[|nodes| - 1] in old(mem) && wrapel in old(mem)
      ensures mem == Turned(old(mem), nodes[0], nodes[|nodes| - 1], wrapel)
      ensures first == wrapel && last == if k == 0 then nodes[|nodes| - 1] else nodes[k - 1]
    {
      hide Chain, Joined, CutBefore;
      RingBefore(mem, nodes, k);
      JoinedKeys(mem, nodes[0], nodes[|nodes| - 1]);
      Join(first, last);
      Cut(wrapel);
    }
  }

  ghost predicate Suffix(m: Mem, rest: seq<ListElement>) {
    && (forall i, j :: 0 <= i < j < |rest| ==> rest[i] != rest[j])
    && (forall i {:trigger rest[i] in m} :: 0 <= i < |rest| ==> rest[i] in m && m[rest[i]].next == At(rest, i + 1))
  }

  lemma SuffixBegins(m: Mem, nodes: seq<ListElement>)
    requires Chain(m, nodes)
    ensures Suffix(m, nodes)
  {
    forall i | 0 <= i < |nodes|
      ensures nodes[i] in m && m[nodes[i]].next == At(nodes, i + 1)
    {
      assert NodeOk(m, nodes, i);
    }
  }

  lemma EmptyChain()
    ensures Chain(map[], [])
  {
  }

  lemma Shifted(freed: seq<ListElement>, rest: seq<ListElement>)
    requires rest != []
    ensures freed + [rest[0]] + rest[1..] == freed + rest
  {
  }

  lemma SuffixStep(m: Mem, rest: seq<ListElement>)
    requires Suffix(m, rest) && rest != []
    ensures rest[0] in m && m[rest[0]].next == At(rest[1..], 0) && Suffix(m - {rest[0]}, rest[1..])
  {
    var r := rest[1..];
    forall i | 0 <= i < |r|
      ensures r[i] in m - {rest[0]} && m[r[i]].next == At(r, i + 1)
    {
      assert r[i] == rest[i + 1] && rest[i + 1] in m;
    }
  }

  lemma OneNode(m: Mem, nodes: seq<ListElement>)
    requires Chain(m, nodes) && nodes != []
    ensures At(nodes, 0) == nodes[0] && At(nodes, |nodes| - 1) == nodes[|nodes| - 1]
    ensures nodes[0] == nodes[|nodes| - 1] <==> |nodes| == 1
    ensures |nodes| == 1 ==> At(nodes, 1) == null && At(nodes, |nodes| - 2) == null
  {
  }

  lemma HeadIs(m: Mem, nodes: seq<ListElement>)
    requires Chain(m, nodes) && nodes != []
    ensures At(nodes, 0) == nodes[0] && At(nodes, |nodes| - 1) == nodes[|nodes| - 1]
    ensures nodes[0] in m && nodes[|nodes| - 1] in m
    ensures forall i :: 0 <= i < |nodes| ==> nodes[i] in m
    ensures m[nodes[0]].content == Contents(m, nodes)[0]
    ensures m[nodes[|nodes| - 1]].content == Contents(m, nodes)[|nodes| - 1]
    ensures |Contents(m, nodes)| == |nodes|
    ensures At(nodes, -1) == null && At(nodes, |nodes|) == null
    ensures |nodes| == 1 ==> At(nodes, 1) == null && At(nodes, |nodes| - 2) == null
  {
    ChainContents(m, nodes);
  }

  lemma TurnContents(m: Mem, nodes: seq<ListElement>, k: nat)
    requires Chain(m, nodes) && k < |nodes|
    ensures nodes[0] in m && nodes[|nodes| - 1] in m && nodes[k] in m
    ensures var r, turned := Turned(m, nodes[0], nodes[|nodes| - 1], nodes[k]), nodes[k..] + nodes[..k];
            && (forall i :: 0 <= i < |nodes| ==> nodes[i] in m) && (forall i :: 0 <= i < |turned| ==> turned[i] in r)
            && Contents(r, turned) == Contents(m, nodes)[k..] + Contents(m, nodes)[..k]
            && r.Keys == m.Keys
  {
    hide Chain, Turned;
    ChainContents(m, nodes);
    TurnChain(m, nodes, k);
    var r, turned := Turned(m, nodes[0], nodes[|nodes| - 1], nodes[k]), nodes[k..] + nodes[..k];
    ChainContents(r, turned);
    TurnedKeys(m, nodes[0], nodes[|nodes| - 1], nodes[k]);
    forall i | 0 <= i < |turned|
      ensures r[turned[i]].content == (Contents(m, nodes)[k..] + Contents(m, nodes)[..k])[i]
    {
      TurnedContent(m, nodes[0], nodes[|nodes| - 1], nodes[k], turned[i]);
    }
  }

  lemma TurnedContent(m: Mem, first: ListElement, last: ListElement, x: ListElement, y: ListElement)
    requires first in m && last in m && x in m && y in m
    ensures y in Turned(m, first, last, x) && Turned(m, first, last, x)[y].content == m[y].content
  {
  }

  lemma PlaceOfNode(m: Mem, nodes: seq<ListElement>, i: nat)
    requires Chain(m, nodes) && i < |nodes|
    ensures Place(nodes, nodes[i]) == i
  {
  }

  /** Linear search: the place of the first match, or the length of the list. */
  ghost function FirstMatch(m: Mem, nodes: seq<ListElement>, matches: Item -> bool): (i: nat)
    ensures i <= |nodes|
    ensures i < |nodes| && nodes[i] in m ==> matches(m[nodes[i]].content)
    ensures forall j :: 0 <= j < i && nodes[j] in m ==> !matches(m[nodes[j]].content)
  {
    if nodes == [] then 0
    else if nodes[0] in m && matches(m[nodes[0]].content) then 0
    else
      var r := 1 + FirstMatch(m, nodes[1..], matches);
      r
  }

  ghost predicate IsMatch(m: Mem, n: ListElement?, matches: Item -> bool) {
    n != null && n in m && matches(m[n].content)
  }

  ghost function Sought(m: Mem, nodes: seq<ListElement>, current: ListElement?, matches: Item -> bool): ListElement? {
    if IsMatch(m, current, matches) then current else At(nodes, FirstMatch(m, nodes, matches))
  }

  /** The search stays at the current element if that matches, and otherwise finds the first one that does. It fails
      exactly when nothing matches; where at most one element matches, it is the linear search. */
  lemma SoughtIsLinear(m: Mem, nodes: seq<ListElement>, current: ListElement?, matches: Item -> bool)
    requires Chain(m, nodes) && (current != null ==> current in nodes)
    ensures Sought(m, nodes, current, matches) == null <==> forall n :: n in nodes ==> !IsMatch(m, n, matches)
    ensures var n := Sought(m, nodes, current, matches);
            && (n != null ==> n in nodes && IsMatch(m, n, matches))
            && (IsMatch(m, current, matches) ==> n == current)
            && (n != null && n != current ==>
                  exists i :: 0 <= i < |nodes| && nodes[i] == n
                              && forall j :: 0 <= j < i ==> !IsMatch(m, nodes[j], matches))
    ensures (forall i, j :: 0 <= i < j < |nodes| ==>
               !(IsMatch(m, nodes[i], matches) && IsMatch(m, nodes[j], matches))) ==>
              Sought(m, nodes, current, matches) == At(nodes, FirstMatch(m, nodes, matches))
  {
    ChainContents(m, nodes);
    var k := FirstMatch(m, nodes, matches);
    if k == |nodes| {
      forall n | n in nodes
        ensures !IsMatch(m, n, matches)
      {
        var i :| 0 <= i < |nodes| && nodes[i] == n;
      }
    } else {
      assert nodes[k] in nodes && IsMatch(m, nodes[k], matches);
      if IsMatch(m, current, matches) {
        var i :| 0 <= i < |nodes| && nodes[i] == current;
        assert i >= k;
      }
    }
  }

  lemma EndsOf(m: Mem, nodes: seq<ListElement>)
    requires Chain(m, nodes)
    ensures forall i :: 0 <= i < |nodes| ==> nodes[i] in m
    ensures At(nodes, 0) == null <==> At(nodes, |nodes| - 1) == null
    ensures At(nodes, |nodes| - 1) != null ==> At(nodes, |nodes| - 1) in m
    ensures At(nodes, |nodes|) == null && (At(nodes, 0) == null <==> nodes == [])
  {
    ChainContents(m, nodes);
  }

  lemma PlaceIs(m: Mem, nodes: seq<ListElement>, x: ListElement?)
    requires Chain(m, nodes) && (x != null ==> x in nodes)
    ensures x != null ==> var k := Place(nodes, x);
              && k < |nodes| && nodes[k] == x && At(nodes, k) == x && x in m
              && m[x].prev == At(nodes, k - 1) && m[x].next == At(nodes, k + 1)
              && m[x].prev != x && m[x].next != x
              && (m[x].prev != null ==> m[x].prev in m) && (m[x].next != null ==> m[x].next in m)
              && (m[x].prev == null <==> k == 0) && (m[x].next == null <==> k == |nodes| - 1)
  {
    ChainContents(m, nodes);
    if x != null {
      assert NodeOk(m, nodes, Place(nodes, x));
    }
  }

  lemma InsertedEnds(nodes: seq<ListElement>, k: nat, x: ListElement, current: ListElement?)
    requires k <= |nodes|
    ensures var more := InsertedAt(nodes, k, x);
            && At(more, 0) == (if k == 0 then x else At(nodes, 0))
            && At(more, |more| - 1) == (if k == |nodes| then x else At(nodes, |nodes| - 1))
            && |more| == |nodes| + 1
            && (current != null && current in nodes ==> current in more)
    ensures At(nodes, |nodes|) == null && At(nodes, -1) == null
    ensures At(nodes, 0) == null <==> nodes == []
  {
    assert nodes == nodes[..k] + nodes[k..];
  }

  lemma NeighboursDiffer(m: Mem, nodes: seq<ListElement>, k: nat)
    requires Chain(m, nodes) && k < |nodes|
    ensures var p, n := At(nodes, k - 1), At(nodes, k + 1);
            (p != null ==> p != n && p != nodes[k] && p in m) && (n != null ==> n != nodes[k] && n in m)
  {
    ChainContents(m, nodes);
  }

  lemma RemovedEnds(nodes: seq<ListElement>, k: nat, current: ListElement?)
    requires k < |nodes|
    ensures var fewer := WithoutAt(nodes, k);
            && At(fewer, 0) == (if k == 0 then At(nodes, 1) else At(nodes, 0))
            && At(fewer, |fewer| - 1) == (if k == |nodes| - 1 then At(nodes, k - 1) else At(nodes, |nodes| - 1))
            && |fewer| == |nodes| - 1
            && (current != null && current in nodes && current != nodes[k] ==> current in fewer)
            && (At(nodes, k + 1) != null ==> At(nodes, k + 1) in fewer)
            && (At(nodes, k - 1) != null ==> At(nodes, k - 1) in fewer)
            && (k == 0 ==> fewer == nodes[1..])
            && (k == |nodes| - 1 ==> fewer == nodes[..k])
  {
    var fewer := WithoutAt(nodes, k);
    assert nodes == nodes[..k] + [nodes[k]] + nodes[k + 1..];
    assert k + 1 < |nodes| ==> fewer[k] == nodes[k + 1];
    assert k > 0 ==> fewer[k - 1] == nodes[k - 1];
  }

  /** The head has nothing before it. */
  lemma HeadBypassed(m: Mem, nodes: seq<ListElement>, x: ListElement)
    requires Chain(m, nodes) && nodes != [] && x == nodes[0]
    ensures x in m
    ensures Bypassed(m, x) == (var n := m[x].next; if n != null && n in m then m[n := m[n].(prev := null)] else m) - {x}
  {
    assert NodeOk(m, nodes, 0);
  }

  lemma TailBypassed(m: Mem, nodes: seq<ListElement>, x: ListElement)
    requires Chain(m, nodes) && nodes != [] && x == nodes[|nodes| - 1]
    ensures x in m
    ensures Bypassed(m, x) == (var p := m[x].prev; if p != null && p in m then m[p := m[p].(next := null)] else m) - {x}
  {
    assert NodeOk(m, nodes, |nodes| - 1);
  }

  lemma InsertedKeys(m: Mem, x: ListElement, p: ListElement?, n: ListElement?, content: Item)
    ensures Inserted(m, x, p, n, content).Keys == m.Keys + {x}
  {
  }
}
