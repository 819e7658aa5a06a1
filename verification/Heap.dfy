/** The tracked heap: a tree of allocation records, the current size of the blocks, and its largest value. */
module Heap {
  import opened TreeNodes
  import opened TreeContents
  import T = Tree

  const INT := 4
  const MULTSIZE := 4 * INT
  const STORAGE_ELEMENT := 32

  // ---------- rounding ----------

  /** The remainder of C, which has the sign of the dividend. */
  function Rem(a: int, b: int): int
    requires b > 0
  {
    if a >= 0 then a % b else -((-a) % b)
  }

  /** Heap_roundup. */
  function Roundup(size: int): int {
    var r := Rem(size, MULTSIZE);
    if r != 0 then size + (MULTSIZE - r) else size
  }

  ghost predicate IsLeastMultiple(r: int, size: int) {
    r % 16 == 0 && size <= r && forall x :: x % 16 == 0 && size <= x ==> r <= x
  }

  lemma RoundupIsNear(size: int)
    ensures var r := Roundup(size);
            && r % 16 == 0 && size <= r
            && if 0 <= size || size % 16 == 0 then r < size + 16 else size <= r - 16
  {
  }

  lemma MultiplesApart(x: int, r: int)
    requires x % 16 == 0 && r % 16 == 0 && r - 16 < x
    ensures r <= x
  {
  }

  /** The result is the least multiple of four ints at or above the size exactly when the size is not
      negative, or is such a multiple itself. */
  lemma RoundupIsLeast(size: int)
    ensures Roundup(size) % 16 == 0 && size <= Roundup(size)
    ensures IsLeastMultiple(Roundup(size), size) <==> 0 <= size || size % 16 == 0
  {
    hide Roundup;
    RoundupIsNear(size);
    var r := Roundup(size);
    if 0 <= size || size % 16 == 0 {
      forall x | x % 16 == 0 && size <= x
        ensures r <= x
      {
        MultiplesApart(x, r);
      }
    } else {
      assert (r - 16) % 16 == 0;
    }
  }

  // ---------- the state ----------

  /** The live blocks, each under its address, and the two counters. */
  datatype State = State(blocks: map<int, Entry>, currentSize: int, maxSize: int)

  datatype Op =
    | Malloc(ptr: int, size: nat, file: nat)
    | Free(p: int)
    | Realloc(p: int, ptr: int, size: nat, file: nat)

  const NO_BLOCKS := State(map[], 0, 0)

  /** The record of a block: its address, its rounded size and the length of the file name. */
  function Record(ptr: int, size: int, file: int): Content {
    Content(ptr, [size, file])
  }

  function Max(a: int, b: int): int { if a < b then b else a }

  /** What the operations are to do: the address of a block is one int below the pointer a caller has. */
  ghost function Apply(s: State, op: Op): State {
    match op
    case Malloc(ptr, size, file) =>
      var r := Roundup(size);
      State(s.blocks[ptr := Entry(Record(ptr, r, file), r)], s.currentSize + r, Max(s.maxSize, s.currentSize + r))
    case Free(p) =>
      if p - INT !in s.blocks then s
      else s.(blocks := s.blocks - {p - INT}, currentSize := s.currentSize - s.blocks[p - INT].size)
    case Realloc(p, ptr, size, file) =>
      if p - INT !in s.blocks then s
      else
        var r := Roundup(size);
        var current := s.currentSize - s.blocks[p - INT].size + r;
        State((s.blocks - {p - INT})[ptr := Entry(Record(ptr, r, file), r)], current, Max(s.maxSize, current))
  }

  /** The system gives no block an address that a live one has. */
  ghost predicate Possible(s: State, op: Op) {
    match op
    case Malloc(ptr, _, _) => ptr !in s.blocks
    case Free(_) => true
    case Realloc(p, ptr, _, _) => ptr !in s.blocks - {p - INT}
  }

  // ---------- every run ----------

  ghost predicate IsRun(s: State, ops: seq<Op>, states: seq<State>) {
    && |states| == |ops| + 1 && states[0] == s
    && forall i :: 0 <= i < |ops| ==> Possible(states[i], ops[i]) && states[i + 1] == Apply(states[i], ops[i])
  }

  ghost predicate Accounted(s: State) {
    Sums(s.blocks, s.currentSize)
  }

  ghost predicate Sums(blocks: map<int, Entry>, size: int) {
    size == TotalSize(blocks) && forall k :: k in blocks ==> blocks[k].size >= 0
  }

  lemma BlockAdded(blocks: map<int, Entry>, size: int, ptr: int, x: Entry)
    requires Sums(blocks, size) && ptr !in blocks && x.size >= 0
    ensures Sums(blocks[ptr := x], size + x.size)
  {
    hide TotalSize;
    NewEntry(blocks, ptr, x);
  }

  lemma BlockRemoved(blocks: map<int, Entry>, size: int, ptr: int)
    requires Sums(blocks, size) && ptr in blocks
    ensures Sums(blocks - {ptr}, size - blocks[ptr].size)
  {
    hide TotalSize;
    RemovedEntry(blocks, ptr);
  }

  lemma RoundedIsNat(size: nat)
    ensures Roundup(size) >= 0
  {
  }

  lemma StepAccounts(s: State, op: Op)
    requires Accounted(s) && Possible(s, op)
    ensures Accounted(Apply(s, op))
  {
    hide Sums, Roundup;
    match op
    case Malloc(ptr, size, file) =>
      RoundedIsNat(size);
      BlockAdded(s.blocks, s.currentSize, ptr, Entry(Record(ptr, Roundup(size), file), Roundup(size)));
    case Free(p) =>
      if p - INT in s.blocks {
        BlockRemoved(s.blocks, s.currentSize, p - INT);
      }
    case Realloc(p, ptr, size, file) =>
      if p - INT in s.blocks {
        RoundedIsNat(size);
        BlockRemoved(s.blocks, s.currentSize, p - INT);
        BlockAdded(s.blocks - {p - INT}, s.currentSize - s.blocks[p - INT].size, ptr,
                   Entry(Record(ptr, Roundup(size), file), Roundup(size)));
      }
  }

  /** In every run the current size is the sum of the rounded sizes of the live blocks, and the maximum is the
      largest value the current size has had. */
  lemma {:induction false} RunsAccount(ops: seq<Op>, states: seq<State>)
    requires IsRun(NO_BLOCKS, ops, states)
    ensures forall i :: 0 <= i < |states| ==> Accounted(states[i]) && states[i].currentSize <= states[|ops|].maxSize
    ensures exists i :: 0 <= i < |states| && states[i].currentSize == states[|ops|].maxSize
    decreases |ops|
  {
    if ops == [] {
      assert states[0] == NO_BLOCKS;
    } else {
      var n := |ops| - 1;
      var fewer := states[..n + 1];
      assert IsRun(NO_BLOCKS, ops[..n], fewer);
      RunsAccount(ops[..n], fewer);
      var best :| 0 <= best < |fewer| && fewer[best].currentSize == fewer[n].maxSize;
      assert states[n + 1] == Apply(states[n], ops[n]) && Possible(states[n], ops[n]);
      assert Accounted(fewer[n]) && fewer[n] == states[n];
      StepAccounts(states[n], ops[n]);
      forall i | 0 <= i < |states|
        ensures Accounted(states[i]) && states[i].currentSize <= states[n + 1].maxSize
      {
        if i <= n {
          assert states[i] == fewer[i];
        } else {
          NotAboveMax(states[n], ops[n]);
        }
      }
      assert states[best].currentSize == states[n + 1].maxSize
             || states[n + 1].currentSize == states[n + 1].maxSize by {
        assert states[best] == fewer[best];
      }
    }
  }

  lemma NotAboveMax(s: State, op: Op)
    requires Accounted(s) && s.currentSize <= s.maxSize
    ensures Apply(s, op).currentSize <= Apply(s, op).maxSize && s.maxSize <= Apply(s, op).maxSize
  {
  }

  // ---------- the heap ----------

  class Heap {
    const tree: T.Tree
    var currentSize: int
    var maxSize: int

    constructor ()
      ensures Valid() && fresh(tree) && GetState() == NO_BLOCKS
    {
      tree := new T.Tree();
      currentSize, maxSize := 0, 0;
    }

    /** The tree is a red-black tree whose elements are records of blocks. */
    ghost predicate Valid()
      reads this, tree, tree.mem.Keys
    {
      tree.Valid() && tree.IsRedBlack() && AreRecords(tree.entries)
    }

    ghost function GetState(): State
      reads this, tree
    {
      State(Blocks(tree.entries), currentSize, maxSize)
    }

    /** mymalloc, where the system gives out `ptr`. */
    method Malloc(ptr: int, size: nat, file: nat) returns (p: int)
      requires Valid() && ptr !in GetState().blocks
      modifies this, tree, tree.mem.Keys
      ensures Valid() && fresh(tree.mem.Keys - old(tree.mem).Keys)
      ensures p == ptr + 4 && GetState() == Apply(old(GetState()), Op.Malloc(ptr, size, file))
      ensures var r, s := Roundup(size), old(GetState());
              && GetState().blocks == s.blocks[ptr := Entry(Content(ptr, [r, file]), r)]
              && currentSize == s.currentSize + r
              && maxSize == if s.maxSize < currentSize then currentSize else s.maxSize
    {
      hide TotalSize, Holds, TreeNodes.Linked, TreeNodes.Ordered, TreeNodes.RedBlack, AreRecords, Blocks, BlockSize,
           Apply;
      ghost var s := GetState();
      var r := Roundup(size);
      PutRecord(ptr, r, file, STORAGE_ELEMENT + file + r + 2 * INT);
      currentSize := currentSize + r;
      if currentSize > maxSize {
        maxSize := currentSize;
      }
      p := ptr + INT;
      MallocApplied(s, ptr, size, file, GetState());
    }

    /** The element of the block of a pointer. */
    method Block(p: int) returns (e: Node?)
      requires Valid()
      ensures e != null <==> p - INT in GetState().blocks
      ensures e != null ==>
                && e in tree.mem && Key(tree.mem[e]) == p - INT
                && e.content == GetState().blocks[p - INT].content
    {
      hide TotalSize, Holds, TreeNodes.Linked, TreeNodes.Ordered, TreeNodes.RedBlack, AreRecords, Blocks, BlockSize,
           Apply;
      RecordRemoved(tree.entries, p - INT);
      e := tree.Find(p - INT);
    }

    /** Internal_heap_unlink, which is all of Heap_unlink and the accounting of myfree. */
    method Unlink(p: int) returns (rc: bool)
      requires Valid()
      modifies this, tree, tree.mem.Keys
      ensures Valid() && fresh(tree.mem.Keys - old(tree.mem).Keys)
      ensures rc == (p - 4 in old(GetState()).blocks) && GetState() == Apply(old(GetState()), Op.Free(p))
      ensures var s := old(GetState());
              && GetState().blocks == s.blocks - {p - 4} && maxSize == s.maxSize
              && currentSize == if rc then s.currentSize - s.blocks[p - 4].size else s.currentSize
    {
      hide TotalSize, Holds, TreeNodes.Linked, TreeNodes.Ordered, TreeNodes.RedBlack, AreRecords, Blocks, BlockSize,
           Apply;
      var e := Block(p);
      rc := e != null;
      if e != null {
        Release(e, p);
      } else {
        FreeApplied(GetState(), p, GetState());
        assert GetState().blocks == GetState().blocks - {p - INT};
      }
    }

    method Release(e: Node, p: int)
      requires Valid() && e in tree.mem && Key(tree.mem[e]) == p - INT && p - INT in GetState().blocks
      requires e.content == GetState().blocks[p - INT].content
      modifies this, tree, tree.mem.Keys
      ensures Valid() && fresh(tree.mem.Keys - old(tree.mem).Keys)
      ensures GetState() == Apply(old(GetState()), Op.Free(p))
      ensures var s := old(GetState());
              && GetState().blocks == s.blocks - {p - INT} && maxSize == s.maxSize
              && currentSize == s.currentSize - s.blocks[p - INT].size
    {
      hide TotalSize, Holds, TreeNodes.Linked, TreeNodes.Ordered, TreeNodes.RedBlack, AreRecords, Blocks, BlockSize,
           Apply;
      ghost var s := GetState();
      RecordRemoved(tree.entries, p - INT);
      currentSize := currentSize - e.content.data[0];
      var _ := tree.RemoveNode(e);
      FreeApplied(s, p, GetState());
    }

    /** myrealloc, where the system moves the block to `ptr`. */
    method Realloc(p: int, ptr: int, size: nat, file: nat) returns (rc: int)
      requires Valid() && ptr !in GetState().blocks - {p - INT}
      modifies this, tree, tree.mem.Keys
      ensures Valid() && fresh(tree.mem.Keys - old(tree.mem).Keys)
      ensures GetState() == Apply(old(GetState()), Op.Realloc(p, ptr, size, file))
      ensures var r, s := Roundup(size), old(GetState());
              if p - 4 !in s.blocks then rc == 0 && GetState() == s
              else
                && rc == ptr + 4
                && GetState().blocks == (s.blocks - {p - 4})[ptr := Entry(Content(ptr, [r, file]), r)]
                && currentSize == s.currentSize - s.blocks[p - 4].size + r
                && maxSize == if s.maxSize < currentSize then currentSize else s.maxSize
    {
      hide TotalSize, Holds, TreeNodes.Linked, TreeNodes.Ordered, TreeNodes.RedBlack, AreRecords, Blocks, BlockSize,
           Apply;
      ghost var before := GetState();
      rc := 0;
      var s := TakeRecord(p);
      if s != NULL {
        var r := Roundup(size);
        currentSize := currentSize + (r - s.data[0]);
        if currentSize > maxSize {
          maxSize := currentSize;
        }
        PutRecord(ptr, r, file, STORAGE_ELEMENT + r + 2 * INT - s.data[0] - (s.data[1] - 1) + file);
        rc := ptr + INT;
      }
      ReallocApplied(before, p, ptr, size, file, GetState());
    }

    /** The record of the block is taken from the tree. */
    method TakeRecord(p: int) returns (s: Content)
      requires Valid()
      modifies tree, tree.mem.Keys
      ensures Valid() && fresh(tree.mem.Keys - old(tree.mem).Keys)
      ensures s != NULL <==> p - INT in old(GetState()).blocks
      ensures s != NULL ==> IsRecord(p - INT, s) && s.data[0] == old(GetState()).blocks[p - INT].size
      ensures GetState() == if s == NULL then old(GetState())
                            else old(GetState().(blocks := GetState().blocks - {p - INT}))
    {
      hide TotalSize, Holds, TreeNodes.Linked, TreeNodes.Ordered, TreeNodes.RedBlack, AreRecords, Blocks, BlockSize,
           Apply;
      RecordRemoved(tree.entries, p - INT);
      s := tree.RemoveKey(p - INT);
    }

    /** A record of a block is put into the tree. */
    method PutRecord(ptr: int, size: int, file: nat, space: int)
      requires Valid() && ptr !in GetState().blocks
      modifies tree, tree.mem.Keys
      ensures Valid() && fresh(tree.mem.Keys - old(tree.mem).Keys)
      ensures GetState() == old(GetState().(blocks := GetState().blocks[ptr := Entry(Record(ptr, size, file), size)]))
    {
      hide TotalSize, Holds, TreeNodes.Linked, TreeNodes.Ordered, TreeNodes.RedBlack, AreRecords, Blocks, BlockSize,
           Apply;
      RecordAdded(tree.entries, ptr, size, file, space);
      var _ := tree.Add(Record(ptr, size, file), space);
    }
  }

  lemma MallocApplied(s: State, ptr: int, size: nat, file: nat, t: State)
    requires var r := Roundup(size);
             && t.blocks == s.blocks[ptr := Entry(Record(ptr, r, file), r)]
             && t.currentSize == s.currentSize + r && t.maxSize == Max(s.maxSize, t.currentSize)
    ensures t == Apply(s, Op.Malloc(ptr, size, file))
  {
  }

  lemma FreeApplied(s: State, p: int, t: State)
    requires if p - INT !in s.blocks then t == s else
               t.blocks == s.blocks - {p - INT} && t.maxSize == s.maxSize
               && t.currentSize == s.currentSize - s.blocks[p - INT].size
    ensures t == Apply(s, Op.Free(p))
  {
  }

  lemma ReallocApplied(s: State, p: int, ptr: int, size: nat, file: nat, t: State)
    requires if p - INT !in s.blocks then t == s else
               var r := Roundup(size);
               && t.blocks == (s.blocks - {p - INT})[ptr := Entry(Record(ptr, r, file), r)]
               && t.currentSize == s.currentSize - s.blocks[p - INT].size + r
               && t.maxSize == Max(s.maxSize, t.currentSize)
    ensures t == Apply(s, Op.Realloc(p, ptr, size, file))
  {
  }

  ghost predicate AreRecords(e: map<int, Entry>) {
    forall k :: k in e ==> IsRecord(k, e[k].content)
  }

  predicate IsRecord(k: int, c: Content) {
    c != NULL && c.key == k && |c.data| == 2
  }

  /** The blocks that the elements of the tree are records of. */
  ghost function Blocks(e: map<int, Entry>): map<int, Entry> {
    map k | k in e :: Entry(e[k].content, BlockSize(e[k].content))
  }

  function BlockSize(c: Content): int {
    if c != NULL && |c.data| > 0 then c.data[0] else 0
  }

  lemma RecordAdded(e: map<int, Entry>, ptr: int, size: int, file: int, space: int)
    requires AreRecords(e)
    ensures ptr in Blocks(e) <==> ptr in e
    ensures AreRecords(e[ptr := Entry(Record(ptr, size, file), space)])
    ensures Blocks(e[ptr := Entry(Record(ptr, size, file), space)])
            == Blocks(e)[ptr := Entry(Record(ptr, size, file), size)]
  {
  }

  lemma RecordRemoved(e: map<int, Entry>, k: int)
    requires AreRecords(e)
    ensures AreRecords(e - {k}) && Blocks(e - {k}) == Blocks(e) - {k}
    ensures k in e ==> IsRecord(k, e[k].content) && Blocks(e)[k] == Entry(e[k].content, e[k].content.data[0])
    ensures k in Blocks(e) <==> k in e
  {
  }
}
