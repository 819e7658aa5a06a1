/**
 What a tree holds: a map from keys to entries, their number and their total size. The map is kept beside the
 nodes; `Holds` says that the two agree, each key being that of one node with the content and the size of its
 entry. Adding, replacing and removing an entry change the number and the total as the tree counts them.
 */
module TreeContents {
  import opened TreeNodes
  import opened TreeRotation
  import opened TreeOrder

  datatype Entry = Entry(content: Content, size: int)

  ghost function EntryOf(r: Rec): Entry {
    Entry(r.content, r.size)
  }

  /** The nodes hold these entries, each under its key. */
  ghost predicate Holds(m: Mem, e: map<int, Entry>) {
    && (forall n :: n in m ==> Key(m[n]) in e && e[Key(m[n])] == EntryOf(m[n]))
    && (forall k :: k in e ==> HasKey(m, k))
  }

  ghost predicate HasKey(m: Mem, k: int) {
    exists n :: n in m && Key(m[n]) == k
  }

  /** Links and colours do not matter. */
  lemma SameNodesHold(m: Mem, r: Mem, e: map<int, Entry>)
    requires Holds(m, e) && SameNodes(m, r)
    ensures Holds(r, e)
  {
    forall k | k in e
      ensures HasKey(r, k)
    {
      assert HasKey(m, k);
      var n: Node :| n in m && Key(m[n]) == k;
      assert n in r && Key(r[n]) == k;
    }
    forall n | n in r
      ensures Key(r[n]) in e && e[Key(r[n])] == EntryOf(r[n])
    {
      assert EntryOf(r[n]) == EntryOf(m[n]) && Key(r[n]) == Key(m[n]);
    }
  }

  lemma HeldAt(m: Mem, e: map<int, Entry>, n: Node)
    requires Holds(m, e) && n in m
    ensures Key(m[n]) in e && m[n].content == e[Key(m[n])].content && m[n].size == e[Key(m[n])].size
  {
  }

  lemma KeyHeld(m: Mem, e: map<int, Entry>, k: int)
    requires Holds(m, e)
    ensures HasKey(m, k) <==> k in e
  {
  }

  lemma NothingHeld(m: Mem, e: map<int, Entry>)
    requires m == map[] && Holds(m, e)
    ensures e == map[]
  {
    forall k
      ensures k !in e
    {
      assert !HasKey(m, k);
    }
  }

  // ---------- count and size ----------

  ghost function TotalSize(e: map<int, Entry>): int
    decreases |e|
  {
    if exists k :: k in e then
      var k :| k in e;
      e[k].size + TotalSize(e - {k})
    else 0
  }

  lemma {:induction false} TotalWithout(e: map<int, Entry>, k: int)
    requires k in e
    ensures TotalSize(e) == e[k].size + TotalSize(e - {k})
    decreases |e|
  {
    var j :| j in e && TotalSize(e) == e[j].size + TotalSize(e - {j});
    if j != k {
      TotalWithout(e - {j}, k);
      TotalWithout(e - {k}, j);
      assert (e - {j}) - {k} == (e - {k}) - {j};
    }
  }

  lemma TotalWith(e: map<int, Entry>, k: int, x: Entry)
    ensures TotalSize(e[k := x]) == TotalSize(e - {k}) + x.size
  {
    TotalWithout(e[k := x], k);
    assert e[k := x] - {k} == e - {k};
  }

  lemma NewEntry(e: map<int, Entry>, k: int, x: Entry)
    requires k !in e
    ensures TotalSize(e[k := x]) == TotalSize(e) + x.size
    ensures |e[k := x]| == |e| + 1
  {
    TotalWith(e, k, x);
    assert e - {k} == e;
    assert e[k := x].Keys == e.Keys + {k};
  }

  lemma ReplacedEntry(e: map<int, Entry>, k: int, x: Entry)
    requires k in e
    ensures TotalSize(e[k := x]) == TotalSize(e) + x.size - e[k].size
    ensures |e[k := x]| == |e|
  {
    TotalWith(e, k, x);
    TotalWithout(e, k);
    assert e[k := x].Keys == e.Keys;
  }

  lemma RemovedEntry(e: map<int, Entry>, k: int)
    requires k in e
    ensures TotalSize(e - {k}) == TotalSize(e) - e[k].size
    ensures |e - {k}| == |e| - 1
  {
    TotalWithout(e, k);
    assert (e - {k}).Keys == e.Keys - {k};
  }

  // ---------- one node for each entry ----------

  lemma {:induction false} OneNodeEach(m: Mem, nodes: set<Node>, keys: set<int>)
    requires nodes <= m.Keys
    requires forall x, y :: x in nodes && y in nodes && Key(m[x]) == Key(m[y]) ==> x == y
    requires forall x :: x in nodes ==> Key(m[x]) in keys
    requires forall k :: k in keys ==> exists x :: x in nodes && Key(m[x]) == k
    ensures |nodes| == |keys|
    decreases |keys|
  {
    if exists k :: k in keys {
      var k :| k in keys;
      var x :| x in nodes && Key(m[x]) == k;
      forall j | j in keys - {k}
        ensures exists y :: y in nodes - {x} && Key(m[y]) == j
      {
        var y :| y in nodes && Key(m[y]) == j;
        assert y in nodes - {x};
      }
      OneNodeEach(m, nodes - {x}, keys - {k});
    } else {
      assert nodes == {};
      assert keys == {};
    }
  }

  lemma CountIsNodes(m: Mem, root: Node?, g: map<Node, Range>, e: map<int, Entry>)
    requires Tree(m, root, g) && Holds(m, e)
    ensures |m| == |e|
  {
    forall x, y | x in m && y in m && Key(m[x]) == Key(m[y])
      ensures x == y
    {
      KeysDiffer(m, root, g, x, y);
    }
    forall k | k in e.Keys
      ensures exists x :: x in m.Keys && Key(m[x]) == k
    {
      assert HasKey(m, k);
    }
    OneNodeEach(m, m.Keys, e.Keys);
  }
}
