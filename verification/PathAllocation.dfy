// Allocation along a path of indirect blocks: ffs_balloc_ufs2 maps one block of a file or leaves
// everything as it was.
module PathAllocation {
  import opened Basics
  import opened BlockTree
  import opened Truncation

  /** The subtree at the end of a path of pointer indices. */
  function Sub(t: Tree, path: seq<nat>): Tree {
    if path == [] then t
    else if t.Node? && path[0] < |t.kids| then Sub(t.kids[path[0]], path[1..])
    else Hole
  }

  /** The block a path leads to. */
  function AtPath(t: Tree, path: seq<nat>): nat { Ptr(Sub(t, path)) }

  /** A tree of just one block: an indirect block of empty pointers, or a data block at the end of a path. */
  function Sprout(n: nat, path: seq<nat>, c: nat): Tree { if path == [] then Leaf(c) else Node(c, Blank(n)) }

  /** The tree with block c at the first empty pointer of the path. */
  function Insert(t: Tree, n: nat, path: seq<nat>, c: nat): Tree {
    if t.Hole? then Sprout(n, path, c)
    else if path != [] && t.Node? && path[0] < |t.kids| then
      Node(t.blk, t.kids[path[0] := Insert(t.kids[path[0]], n, path[1..], c)])
    else t
  }

  lemma HoleSub(path: seq<nat>)
    ensures Sub(Hole, path) == Hole
  {
  }

  predicate InRange(path: seq<nat>, n: nat) { forall i :: 0 <= i < |path| ==> path[i] < n }

  lemma {:induction false} InsertShaped(t: Tree, n: nat, path: seq<nat>, c: nat)
    requires Shaped(t, n, |path|) && InRange(path, n) && c != 0
    ensures Shaped(Insert(t, n, path, c), n, |path|)
    decreases |path|
  {
    if t.Node? {
      InsertShaped(t.kids[path[0]], n, path[1..], c);
    }
  }

  /** Paths of the same length other than this one lead where they led before. */
  lemma {:induction false} InsertElsewhere(t: Tree, n: nat, path: seq<nat>, c: nat, q: seq<nat>)
    requires Shaped(t, n, |path|) && InRange(path, n) && |q| == |path| && q != path
    ensures AtPath(Insert(t, n, path, c), q) == AtPath(t, q)
    decreases |path|
  {
    if t.Hole? {
      assert q != [];
      HoleSub(q);
      HoleSub(q[1..]);
    } else if t.Node? {
      if q[0] == path[0] {
        assert q == [q[0]] + q[1..] && path == [path[0]] + path[1..];
        InsertElsewhere(t.kids[path[0]], n, path[1..], c, q[1..]);
      }
    }
  }

  lemma {:induction false} SubNext(t: Tree, path: seq<nat>, i: nat)
    requires i < |path|
    ensures Sub(t, path[..i + 1]) == Sub(Sub(t, path[..i]), [path[i]])
    decreases i
  {
    if i > 0 {
      if t.Node? && path[0] < |t.kids| {
        SubNext(t.kids[path[0]], path[1..], i - 1);
        assert path[..i + 1][1..] == path[1..][..i] && path[..i][1..] == path[1..][..i - 1];
      }
    } else {
      assert path[..1] == [path[0]];
    }
  }

  lemma {:induction false} SubShaped(t: Tree, n: nat, path: seq<nat>, i: nat)
    requires Shaped(t, n, |path|) && InRange(path, n) && i <= |path|
    ensures Shaped(Sub(t, path[..i]), n, |path| - i)
    decreases i
  {
    if i > 0 && t.Node? {
      SubShaped(t.kids[path[0]], n, path[1..], i - 1);
      assert path[..i][1..] == path[1..][..i - 1];
    }
  }

  /** The number of blocks on the path. */
  function Depth(t: Tree, path: seq<nat>): (r: nat)
    ensures r <= |path| + 1
  {
    if t.Hole? then 0
    else if path != [] && t.Node? && path[0] < |t.kids| then 1 + Depth(t.kids[path[0]], path[1..])
    else 1
  }

  lemma {:induction false} InsertDepth(t: Tree, n: nat, path: seq<nat>, c: nat)
    requires Shaped(t, n, |path|) && InRange(path, n) && AtPath(t, path) == 0
    ensures Depth(Insert(t, n, path, c), path) == Depth(t, path) + 1 && Depth(t, path) <= |path|
    decreases |path|
  {
    if t.Node? {
      InsertDepth(t.kids[path[0]], n, path[1..], c);
    }
  }

  /** A pointer on the path that is empty makes the whole path lead nowhere. */
  lemma {:induction false} GapOnPath(t: Tree, path: seq<nat>, i: nat)
    requires i <= |path| && Sub(t, path[..i]).Hole?
    ensures Sub(t, path).Hole?
    decreases i
  {
    if i == 0 {
      HoleSub(path);
    } else if t.Node? && path[0] < |t.kids| {
      assert path[..i][1..] == path[1..][..i - 1];
      GapOnPath(t.kids[path[0]], path[1..], i - 1);
    }
  }

  // ---- the indirect blocks on disk

  function Zeros(n: nat): (r: seq<nat>)
    ensures |r| == n && forall i :: 0 <= i < n ==> r[i] == 0
  {
    seq(n, i => 0)
  }

  /** The disk after pointer off of block b was set to c, a cleared indirect block or a data block. */
  function Linked(mem: Memory, n: nat, b: nat, off: nat, c: nat, indirect: bool): Memory
    requires b in mem && off < |mem[b]|
  {
    var m := if indirect then mem[c := Zeros(n)] else mem;
    m[b := mem[b][off := c]]
  }

  lemma ZeroPtrs(n: nat)
    ensures Ptrs(Blank(n)) == Zeros(n)
  {
  }

  lemma {:induction false} LinkInMem(mem: Memory, t: Tree, n: nat, path: seq<nat>, i: nat, c: nat)
    requires Shaped(t, n, |path|) && InRange(path, n) && InMem(mem, t) && Distinct(t) && !Uses(t, c) && i < |path|
    requires Sub(t, path[..i]).Node? && Sub(t, path[..i + 1]).Hole?
    ensures Sub(t, path[..i]).blk in mem && |mem[Sub(t, path[..i]).blk]| == n && Uses(t, Sub(t, path[..i]).blk)
    ensures InMem(Linked(mem, n, Sub(t, path[..i]).blk, path[i], c, i + 1 < |path|), Insert(t, n, path, c))
    decreases |path|
  {
    var kid := t.kids[path[0]];
    if i == 0 {
      assert path[..0] == [] && path[..1] == [path[0]];
      assert Sub(t, path[..1]) == Sub(kid, []);
      LinkHere(mem, t, n, path, c);
    } else {
      assert path[..i][1..] == path[1..][..i - 1] && path[..i + 1][1..] == path[1..][..i];
      assert !Uses(kid, c);
      LinkInMem(mem, kid, n, path[1..], i - 1, c);
      LinkBelow(mem, t, n, path, Sub(t, path[..i]).blk, path[i], c, i + 1 < |path|);
    }
  }

  lemma LinkHere(mem: Memory, t: Tree, n: nat, path: seq<nat>, c: nat)
    requires t.Node? && Shaped(t, n, |path|) && InRange(path, n) && InMem(mem, t) && Distinct(t) && !Uses(t, c)
    requires t.kids[path[0]].Hole?
    ensures InMem(Linked(mem, n, t.blk, path[0], c, 1 < |path|), Insert(t, n, path, c)) && Uses(t, t.blk)
  {
    var m := Linked(mem, n, t.blk, path[0], c, 1 < |path|);
    var kids := t.kids[path[0] := Sprout(n, path[1..], c)];
    ZeroPtrs(n);
    assert Ptrs(kids) == Ptrs(t.kids)[path[0] := c];
    forall j | 0 <= j < n
      ensures InMem(m, kids[j])
    {
      if j != path[0] {
        assert !Uses(t.kids[j], c) && !Uses(t.kids[j], t.blk);
        Frame(mem, m, t.kids[j]);
      }
    }
  }

  lemma LinkBelow(mem: Memory, t: Tree, n: nat, path: seq<nat>, b: nat, off: nat, c: nat, indirect: bool)
    requires t.Node? && path != [] && Shaped(t, n, |path|) && InRange(path, n) && InMem(mem, t) && Distinct(t)
             && !Uses(t, c)
    requires Uses(t.kids[path[0]], b) && b in mem && off < |mem[b]| && t.kids[path[0]].Node?
    requires InMem(Linked(mem, n, b, off, c, indirect), Insert(t.kids[path[0]], n, path[1..], c))
    ensures InMem(Linked(mem, n, b, off, c, indirect), Insert(t, n, path, c)) && Uses(t, b)
  {
    var m := Linked(mem, n, b, off, c, indirect);
    var kids := t.kids[path[0] := Insert(t.kids[path[0]], n, path[1..], c)];
    assert b != t.blk && c != t.blk;
    assert Ptrs(kids) == Ptrs(t.kids);
    forall j | 0 <= j < n
      ensures InMem(m, kids[j])
    {
      if j != path[0] {
        assert !Uses(t.kids[j], c) && !Uses(t.kids[j], b);
        Frame(mem, m, t.kids[j]);
      }
    }
  }

  lemma {:induction false} InsertUses(t: Tree, n: nat, path: seq<nat>, c: nat, b: nat)
    requires Uses(Insert(t, n, path, c), b)
    ensures b == c || Uses(t, b)
    decreases |path|
  {
    var r := Insert(t, n, path, c);
    if t.Node? && path != [] && path[0] < |t.kids| && b != t.blk {
      var j :| 0 <= j < |r.kids| && Uses(r.kids[j], b);
      if j == path[0] {
        InsertUses(t.kids[j], n, path[1..], c, b);
      } else {
        assert Uses(t.kids[j], b);
      }
    }
  }

  lemma {:induction false} InsertUsed(t: Tree, n: nat, path: seq<nat>, c: nat, b: nat)
    requires Uses(t, b)
    ensures Uses(Insert(t, n, path, c), b)
    decreases |path|
  {
    var r := Insert(t, n, path, c);
    if b != t.blk {
      var j :| 0 <= j < |t.kids| && Uses(t.kids[j], b);
      if path != [] && path[0] == j {
        InsertUsed(t.kids[j], n, path[1..], c, b);
      }
      assert Uses(r.kids[j], b);
    }
  }

  lemma {:induction false} InsertNew(t: Tree, n: nat, path: seq<nat>, c: nat)
    requires Shaped(t, n, |path|) && InRange(path, n) && Depth(t, path) < |path|
    ensures Uses(Insert(t, n, path, c), c)
    decreases |path|
  {
    if t.Node? {
      var r := Insert(t, n, path, c);
      InsertNew(t.kids[path[0]], n, path[1..], c);
      assert Uses(r.kids[path[0]], c);
    }
  }

  lemma {:induction false} InsertDistinct(t: Tree, n: nat, path: seq<nat>, c: nat)
    requires Distinct(t) && !Uses(t, c)
    ensures Distinct(Insert(t, n, path, c))
    decreases |path|
  {
    if t.Node? && path != [] && path[0] < |t.kids| {
      var k := path[0];
      assert !Uses(t.kids[k], c);
      InsertDistinct(t.kids[k], n, path[1..], c);
      forall b | Uses(Insert(t.kids[k], n, path[1..], c), b)
        ensures b == c || Uses(t.kids[k], b)
      {
        InsertUses(t.kids[k], n, path[1..], c, b);
      }
      assert forall j :: 0 <= j < |t.kids| ==> !Uses(t.kids[j], c);
    }
  }

  /** b is a block of the tree, an indirect block or a data block. */
  ghost predicate HasBlock(t: Tree, b: nat) {
    match t
    case Hole => false
    case Leaf(c) => b == c
    case Node(c, kids) => b == c || exists i :: 0 <= i < |kids| && HasBlock(kids[i], b)
  }

  lemma {:induction false} InsertBlocks(t: Tree, n: nat, path: seq<nat>, c: nat, b: nat)
    requires HasBlock(Insert(t, n, path, c), b)
    ensures b == c || HasBlock(t, b)
    decreases |path|
  {
    var r := Insert(t, n, path, c);
    if t.Node? && path != [] && path[0] < |t.kids| && b != t.blk {
      var j :| 0 <= j < |r.kids| && HasBlock(r.kids[j], b);
      if j == path[0] {
        InsertBlocks(t.kids[j], n, path[1..], c, b);
      } else {
        assert HasBlock(t.kids[j], b);
      }
    }
  }

  /** The number of blocks of a tree. */
  function Size(t: Tree): nat {
    match t
    case Hole => 0
    case Leaf(c) => 1
    case Node(c, kids) => 1 + SizeOf(kids)
  }

  function SizeOf(kids: seq<Tree>): nat { if kids == [] then 0 else Size(kids[0]) + SizeOf(kids[1..]) }

  lemma {:induction false} SizeReplaced(kids: seq<Tree>, i: nat, t: Tree)
    requires i < |kids|
    ensures SizeOf(kids[i := t]) + Size(kids[i]) == SizeOf(kids) + Size(t)
    decreases i
  {
    if i == 0 {
      assert kids[0 := t][1..] == kids[1..];
    } else {
      assert kids[i := t][1..] == kids[1..][i - 1 := t];
      SizeReplaced(kids[1..], i - 1, t);
    }
  }

  lemma {:induction false} BlankSize(n: nat)
    ensures SizeOf(Blank(n)) == 0
  {
    if n > 0 {
      assert Blank(n)[1..] == Blank(n - 1);
      BlankSize(n - 1);
    }
  }

  lemma {:induction false} InsertSize(t: Tree, n: nat, path: seq<nat>, c: nat)
    requires Shaped(t, n, |path|) && InRange(path, n) && AtPath(t, path) == 0
    ensures Size(Insert(t, n, path, c)) == Size(t) + 1
    decreases |path|
  {
    if t.Hole? {
      BlankSize(n);
    } else {
      InsertSize(t.kids[path[0]], n, path[1..], c);
      SizeReplaced(t.kids, path[0], Insert(t.kids[path[0]], n, path[1..], c));
    }
  }

  /** The blocks that were on the path stay where they were. */
  lemma {:induction false} InsertAbove(t: Tree, n: nat, path: seq<nat>, c: nat, i: nat)
    requires Shaped(t, n, |path|) && InRange(path, n) && i < Depth(t, path) && i <= |path|
    ensures AtPath(Insert(t, n, path, c), path[..i]) == AtPath(t, path[..i])
    decreases i
  {
    if i > 0 && t.Node? {
      assert path[..i][1..] == path[1..][..i - 1];
      InsertAbove(t.kids[path[0]], n, path[1..], c, i - 1);
    }
  }

  // ---- the work of one call

  /** What the allocator answers: no space, or a block, which the device may then fail to write. */
  datatype Answer = NoSpace | Got(blk: nat, written: bool)

  /** The indirect pointers of the inode, the indirect blocks on disk, the free blocks, and di_blocks. */
  datatype Space = Space(ib: seq<nat>, mem: Memory, free: set<nat>, charged: nat)

  /**
   * The state of the call: the disk, the first indirect block, allociblk, whether the inode's own
   * pointer was set (allocib), and otherwise the first pointer that was (unwindidx).
   */
  datatype Work = Work(mem: Memory, root: nat, taken: seq<nat>, atRoot: bool, link: Option<(nat, nat)>)

  function Elements(s: seq<nat>): set<nat> { set x | x in s }

  /** The disk with the new blocks forgotten and the first new pointer cleared. */
  function Restored(w: Work): Memory {
    var m := w.mem;
    var back := match w.link
      case None => m
      case Some((b, off)) => if b in m && off < |m[b]| then m[b := m[b][off := 0]] else m;
    back - Elements(w.taken)
  }

  /** Free blocks are not indirect blocks of anything. */
  ghost predicate FreeApart(free: set<nat>, mem: Memory) { forall b :: b in free ==> b != 0 && b !in mem }

  /** The blocks offered are free and different. */
  ghost predicate Offered(supply: seq<Answer>, s: Space) {
    && FreeApart(s.free, s.mem)
    && (forall k :: 0 <= k < |supply| && supply[k].Got? ==> supply[k].blk in s.free)
    && (forall j, k :: 0 <= j < k < |supply| && supply[j].Got? && supply[k].Got? ==> supply[j].blk != supply[k].blk)
  }

  /** The tree is on disk under root, in order. */
  ghost predicate Planted(mem: Memory, root: nat, t: Tree, n: nat, path: seq<nat>) {
    Shaped(t, n, |path|) && InRange(path, n) && path != [] && Ptr(t) == root && InMem(mem, t) && Distinct(t)
  }

  /** Every other path of this length leads where it led before. */
  ghost predicate SameElsewhere(t: Tree, t0: Tree, path: seq<nat>) {
    forall q :: |q| == |path| && q != path ==> AtPath(t, q) == AtPath(t0, q)
  }

  /** The blocks are those of the path from depth lo on, in order. */
  ghost predicate Along(taken: seq<nat>, t: Tree, path: seq<nat>, lo: nat) {
    && Depth(t, path) == lo + |taken|
    && forall i :: 0 <= i < |taken| ==> AtPath(t, path[..lo + i]) == taken[i]
  }

  /** The new blocks are the missing indirect ones of the path, from the top. */
  ghost predicate OnPath(w: Work, t: Tree, t0: Tree, path: seq<nat>) {
    && Along(w.taken, t, path, Depth(t0, path)) && Size(t) == Size(t0) + |w.taken|
    && (w.taken != [] ==> Depth(t, path) <= |path|)
  }

  /** Indirect blocks are those there were and the new ones; those of other trees are untouched. */
  ghost predicate Accounted(w: Work, t: Tree, mem0: Memory, t0: Tree) {
    && (forall b :: b in w.taken ==> b !in mem0)
    && (forall b :: b in w.mem ==> b in mem0 || (b in w.taken && Uses(t, b)))
    && (forall b :: b in mem0 && !Uses(t0, b) ==> b in w.mem && w.mem[b] == mem0[b])
    && (forall b :: Uses(t, b) ==> Uses(t0, b) || b in w.taken)
    && (forall b :: HasBlock(t, b) ==> HasBlock(t0, b) || b in w.taken)
  }

  /** What holds throughout the call. */
  ghost predicate Growing(w: Work, t: Tree, mem0: Memory, t0: Tree, n: nat, path: seq<nat>) {
    && Planted(w.mem, w.root, t, n, path)
    && Restored(w) == mem0
    && SameElsewhere(t, t0, path) && AtPath(t, path) == AtPath(t0, path)
    && OnPath(w, t, t0, path)
    && Accounted(w, t, mem0, t0)
    && (w.taken == [] <==> !w.atRoot && w.link.None?)
    && (w.taken == [] ==> w.mem == mem0 && t == t0)
    && (AtPath(t0, path) != 0 ==> w.taken == [])
    && (w.link.Some? ==> w.link.value.0 in mem0)
  }

  lemma {:induction false} UsesInMem(mem: Memory, t: Tree, b: nat)
    requires InMem(mem, t) && Uses(t, b)
    ensures b in mem
  {
    if t.Node? && b != t.blk {
      var i :| 0 <= i < |t.kids| && Uses(t.kids[i], b);
      UsesInMem(mem, t.kids[i], b);
    }
  }

  lemma {:induction false} GapDepth(t: Tree, n: nat, path: seq<nat>, i: nat)
    requires Shaped(t, n, |path|) && InRange(path, n) && i < |path|
    requires Sub(t, path[..i]).Node? && Sub(t, path[..i + 1]).Hole?
    ensures Depth(t, path) == i + 1
    decreases |path|
  {
    var kid := t.kids[path[0]];
    if i == 0 {
      assert path[..1] == [path[0]] && Sub(t, path[..1]) == Sub(kid, []);
    } else {
      assert path[..i][1..] == path[1..][..i - 1] && path[..i + 1][1..] == path[1..][..i];
      GapDepth(kid, n, path[1..], i - 1);
    }
  }

  lemma {:induction false} InsertedAt(t: Tree, n: nat, path: seq<nat>, c: nat)
    requires Shaped(t, n, |path|) && InRange(path, n) && AtPath(t, path) == 0 && c != 0
    ensures Depth(t, path) <= |path|
    ensures Sub(Insert(t, n, path, c), path[..Depth(t, path)]) == Sprout(n, path[Depth(t, path)..], c)
    decreases |path|
  {
    if t.Node? {
      InsertedAt(t.kids[path[0]], n, path[1..], c);
      var d := Depth(t.kids[path[0]], path[1..]);
      assert path[..d + 1][1..] == path[1..][..d] && path[d + 1..] == path[1..][d..];
    }
  }

  /** Block c becomes pointer off of block b; the first such pointer is remembered. */
  function Extended(w: Work, n: nat, b: nat, off: nat, c: nat): Work
    requires b in w.mem && off < |w.mem[b]|
  {
    Work(Linked(w.mem, n, b, off, c, true), w.root, w.taken + [c], w.atRoot,
         if w.atRoot || w.link.Some? then w.link else Some((b, off)))
  }

  lemma RestoreExtended(w: Work, mem0: Memory, n: nat, b: nat, off: nat, c: nat)
    requires b in w.mem && off < |w.mem[b]| && w.mem[b][off] == 0
    requires Restored(w) == mem0 && c !in mem0 && c !in w.mem
    requires if w.atRoot || w.link.Some? then b in w.taken else w.taken == []
    requires w.link.Some? ==> w.link.value.0 !in w.taken && w.link.value.0 != c
    ensures Restored(Extended(w, n, b, off, c)) == mem0
  {
    var v := Extended(w, n, b, off, c);
    assert Elements(v.taken) == Elements(w.taken) + {c};
    if w.link.Some? {
      assert w.link.value.0 != b;
    } else if !w.atRoot {
      assert v.mem[b][off := 0] == w.mem[b];
      assert Elements(w.taken) == {};
    }
    assert forall x :: x in Restored(v) <==> x in mem0;
    assert forall x :: x in mem0 ==> Restored(v)[x] == mem0[x];
  }

  lemma PlantExtended(w: Work, t: Tree, n: nat, path: seq<nat>, j: nat, c: nat)
    requires Planted(w.mem, w.root, t, n, path) && j + 1 < |path| && c != 0 && c !in w.mem
    requires Sub(t, path[..j]).Node? && Sub(t, path[..j + 1]).Hole?
    ensures Sub(t, path[..j]).blk in w.mem && |w.mem[Sub(t, path[..j]).blk]| == n
    ensures Uses(t, Sub(t, path[..j]).blk) && w.mem[Sub(t, path[..j]).blk][path[j]] == 0
    ensures Planted(Extended(w, n, Sub(t, path[..j]).blk, path[j], c).mem, w.root, Insert(t, n, path, c), n, path)
  {
    if Uses(t, c) {
      UsesInMem(w.mem, t, c);
    }
    LinkInMem(w.mem, t, n, path, j, c);
    InsertShaped(t, n, path, c);
    InsertDistinct(t, n, path, c);
    NodeInMem(w.mem, t, n, path, j);
  }

  /** The pointer of the block on disk is what the tree has there. */
  lemma {:induction false} NodeInMem(mem: Memory, t: Tree, n: nat, path: seq<nat>, j: nat)
    requires Shaped(t, n, |path|) && InRange(path, n) && InMem(mem, t) && j < |path| && Sub(t, path[..j]).Node?
    ensures Sub(t, path[..j]).blk in mem && |mem[Sub(t, path[..j]).blk]| == n
    ensures mem[Sub(t, path[..j]).blk][path[j]] == AtPath(t, path[..j + 1])
    decreases |path|
  {
    if j == 0 {
      assert path[..1] == [path[0]] && Sub(t, path[..1]) == Sub(t.kids[path[0]], []);
    } else {
      assert path[..j][1..] == path[1..][..j - 1] && path[..j + 1][1..] == path[1..][..j];
      NodeInMem(mem, t.kids[path[0]], n, path[1..], j - 1);
    }
  }

  lemma PathExtended(w: Work, t: Tree, t0: Tree, n: nat, path: seq<nat>, j: nat, b: nat, c: nat)
    requires Shaped(t, n, |path|) && InRange(path, n) && OnPath(w, t, t0, path) && j + 1 < |path| && c != 0
    requires Sub(t, path[..j]).Node? && Sub(t, path[..j + 1]).Hole?
    requires b in w.mem && path[j] < |w.mem[b]|
    ensures Depth(t, path) == j + 1
    ensures OnPath(Extended(w, n, b, path[j], c), Insert(t, n, path, c), t0, path)
    ensures Sub(Insert(t, n, path, c), path[..j + 1]) == Node(c, Blank(n))
    ensures w.taken != [] ==> Sub(t, path[..j]).blk in w.taken
    ensures AtPath(t, path) == 0 == AtPath(Insert(t, n, path, c), path)
  {
    GapDepth(t, n, path, j);
    GapOnPath(t, path, j + 1);
    InsertDepth(t, n, path, c);
    InsertedAt(t, n, path, c);
    InsertSize(t, n, path, c);
    AlongExtended(w.taken, t, n, path, Depth(t0, path), c);
    StillGap(Insert(t, n, path, c), n, path, j + 1, c);
    if w.taken != [] {
      assert AtPath(t, path[..Depth(t0, path) + (|w.taken| - 1)]) == w.taken[|w.taken| - 1];
    }
  }

  lemma AlongExtended(taken: seq<nat>, t: Tree, n: nat, path: seq<nat>, lo: nat, c: nat)
    requires Shaped(t, n, |path|) && InRange(path, n) && Along(taken, t, path, lo) && AtPath(t, path) == 0 && c != 0
    ensures Along(taken + [c], Insert(t, n, path, c), path, lo)
  {
    InsertDepth(t, n, path, c);
    InsertedAt(t, n, path, c);
    forall i | 0 <= i < |taken| + 1
      ensures AtPath(Insert(t, n, path, c), path[..lo + i]) == (taken + [c])[i]
    {
      if i < |taken| {
        InsertAbove(t, n, path, c, lo + i);
      }
    }
  }

  lemma StillGap(t: Tree, n: nat, path: seq<nat>, k: nat, c: nat)
    requires k < |path| && Sub(t, path[..k]) == Node(c, Blank(n))
    ensures AtPath(t, path) == 0
  {
    SubNext(t, path, k);
    var kid := Sub(t, path[..k]);
    assert Sub(kid, [path[k]]) == if path[k] < n then Sub(Hole, [path[k]][1..]) else Hole;
    assert Sub(t, path[..k + 1]).Hole?;
    GapOnPath(t, path, k + 1);
  }

  lemma ElsewhereExtended(t: Tree, t0: Tree, n: nat, path: seq<nat>, c: nat)
    requires Shaped(t, n, |path|) && InRange(path, n) && SameElsewhere(t, t0, path)
    ensures SameElsewhere(Insert(t, n, path, c), t0, path)
  {
    forall q | |q| == |path| && q != path
      ensures AtPath(Insert(t, n, path, c), q) == AtPath(t0, q)
    {
      InsertElsewhere(t, n, path, c, q);
    }
  }

  lemma AccountExtended(w: Work, t: Tree, mem0: Memory, t0: Tree, n: nat, path: seq<nat>, b: nat, off: nat, c: nat)
    requires Accounted(w, t, mem0, t0) && b in w.mem && off < |w.mem[b]| && c !in mem0 && Uses(t, b)
    requires Shaped(t, n, |path|) && InRange(path, n) && Depth(t, path) < |path|
    ensures Accounted(Extended(w, n, b, off, c), Insert(t, n, path, c), mem0, t0)
  {
    InsertNew(t, n, path, c);
    forall x | Uses(t, x)
      ensures Uses(Insert(t, n, path, c), x)
    {
      InsertUsed(t, n, path, c, x);
    }
    forall x | Uses(Insert(t, n, path, c), x)
      ensures Uses(t0, x) || x in w.taken + [c]
    {
      InsertUses(t, n, path, c, x);
    }
    forall x | HasBlock(Insert(t, n, path, c), x)
      ensures HasBlock(t0, x) || x in w.taken + [c]
    {
      InsertBlocks(t, n, path, c, x);
    }
  }

  /** An indirect block is added at the first gap of the path. */
  lemma GrowStep(w: Work, t: Tree, mem0: Memory, t0: Tree, n: nat, path: seq<nat>, j: nat, c: nat)
    requires Growing(w, t, mem0, t0, n, path) && j + 1 < |path| && c != 0 && c !in w.mem && c !in mem0
    requires Sub(t, path[..j]).Node? && Sub(t, path[..j + 1]).Hole?
    ensures Sub(t, path[..j]).blk in w.mem && |w.mem[Sub(t, path[..j]).blk]| == n
    ensures Growing(Extended(w, n, Sub(t, path[..j]).blk, path[j], c), Insert(t, n, path, c), mem0, t0, n, path)
    ensures Sub(Insert(t, n, path, c), path[..j + 1]) == Node(c, Blank(n))
  {
    var b := Sub(t, path[..j]).blk;
    PlantExtended(w, t, n, path, j, c);
    PathExtended(w, t, t0, n, path, j, b, c);
    ElsewhereExtended(t, t0, n, path, c);
    AccountExtended(w, t, mem0, t0, n, path, b, path[j], c);
    RestoreExtended(w, mem0, n, b, path[j], c);
  }

  // ---- the call itself

  function Next(supply: seq<Answer>, pos: nat): Answer { if pos < |supply| then supply[pos] else NoSpace }

  /** These answers are all there and all blocks, and the indirect ones among them are written. */
  ghost predicate Granted(supply: seq<Answer>, from: nat, count: nat, data: bool) {
    (count > 0 ==> from + count <= |supply|)
    && forall i :: from <= i < from + count ==>
         supply[i].Got? && (supply[i].written || (data && i + 1 == from + count))
  }

  /**
   * The answers with which a call that lacks this many blocks succeeds: every block is granted, or,
   * with soft updates, one refusal below the first indirect block is followed by all that were left.
   */
  ghost predicate Enough(supply: seq<Answer>, count: nat, data: bool, softdep: bool, first: nat) {
    || Granted(supply, 0, count, data)
    || (softdep && exists g :: first <= g < count && RefusedAt(supply, count, data, g))
  }

  ghost predicate RefusedAt(supply: seq<Answer>, count: nat, data: bool, g: nat) {
    g < count && Granted(supply, 0, g, false) && Next(supply, g).NoSpace? && Granted(supply, g + 1, count - g, data)
  }

  /** The number of blocks the path lacks, the data block among them unless only metadata is asked for. */
  function Lacks(t: Tree, path: seq<nat>, metaonly: bool): nat {
    var full := if metaonly then |path| else |path| + 1;
    if Depth(t, path) < full then full - Depth(t, path) else 0
  }

  /** The first refusal that soft updates may answer with a cleanup. */
  function FirstRetry(t0: Tree): nat { if t0.Hole? then 1 else 0 }

  /** The blocks among the first answers, in order. */
  function Drawn(supply: seq<Answer>, pos: nat): seq<nat> {
    if pos == 0 then []
    else
      var a := Next(supply, pos - 1);
      Drawn(supply, pos - 1) + if a.Got? then [a.blk] else []
  }

  /** How far a call has come that lacks `left` of `count` blocks; after a cleanup, g was refused. */
  ghost predicate Progress(supply: seq<Answer>, pos: nat, left: nat, count: nat, softdep: bool, first: nat,
                           reclaimed: bool, g: nat) {
    if reclaimed then
      && softdep && first <= g < count && g < pos && pos + left == count + 1
      && Granted(supply, 0, g, false) && Next(supply, g).NoSpace? && Granted(supply, g + 1, pos - g - 1, false)
    else
      pos + left == count && Granted(supply, 0, pos, false)
  }

  /** The answer at pos, on which a call in progress depends. */
  lemma Decided(supply: seq<Answer>, pos: nat, left: nat, count: nat, data: bool, softdep: bool, first: nat,
                reclaimed: bool, g: nat)
    requires Progress(supply, pos, left, count, softdep, first, reclaimed, g)
    ensures left == 0 ==> Enough(supply, count, data, softdep, first)
    ensures left == 1 && data && Next(supply, pos).Got? ==> Enough(supply, count, data, softdep, first)
    ensures left > 0 && Next(supply, pos).NoSpace? && (reclaimed || !softdep || pos < first) ==>
              !Enough(supply, count, data, softdep, first)
    ensures left > 0 && Next(supply, pos).Got? && !Next(supply, pos).written && !(left == 1 && data) ==>
              !Enough(supply, count, data, softdep, first)
    ensures left > 0 && Next(supply, pos).Got? && Next(supply, pos).written ==>
              Progress(supply, pos + 1, left - 1, count, softdep, first, reclaimed, g)
    ensures left > 0 && Next(supply, pos).NoSpace? && !reclaimed && softdep && pos >= first ==>
              Progress(supply, pos + 1, left, count, softdep, first, true, pos)
  {
    if reclaimed && (left == 0 || (left == 1 && data && Next(supply, pos).Got?)) {
      assert RefusedAt(supply, count, data, g);
    }
  }

  function Cost(k: nat, frag: nat): nat { if k == 0 then 0 else Cost(k - 1, frag) + frag }

  /** The free blocks and the charge after the allocations so far. */
  ghost predicate Spent(s: Space, taken: seq<nat>, free: set<nat>, charged: nat, frag: nat) {
    && (forall b :: b in taken ==> b in s.free)
    && free == s.free - Elements(taken) && charged == s.charged + Cost(|taken|, frag)
  }

  lemma SpendNext(s: Space, taken: seq<nat>, free: set<nat>, charged: nat, frag: nat, c: nat)
    requires Spent(s, taken, free, charged, frag) && c in s.free
    ensures Spent(s, taken + [c], free - {c}, charged + frag, frag)
  {
    assert Elements(taken + [c]) == Elements(taken) + {c};
  }

  /** The failure path: give back every new block and its charge. */
  method GiveBack(ghost s: Space, taken: seq<nat>, free: set<nat>, charged: nat, frag: nat)
    returns (free': set<nat>, charged': nat)
    requires Spent(s, taken, free, charged, frag)
    ensures free' == s.free && charged' == s.charged
  {
    var deallocated := 0;
    free' := free;
    var k := 0;
    while k < |taken|
      invariant k <= |taken| && deallocated == Cost(k, frag)
      invariant free' == free + Elements(taken[..k])
    {
      deallocated := deallocated + frag;
      assert taken[..k + 1] == taken[..k] + [taken[k]];
      assert Elements(taken[..k + 1]) == Elements(taken[..k]) + {taken[k]};
      free' := free' + {taken[k]};
      k := k + 1;
    }
    assert taken[..k] == taken;
    assert free + Elements(taken) == s.free;
    charged' := charged - deallocated;
  }

  /** The whole failure path restores everything. */
  method Unwind(ghost s: Space, ib: seq<nat>, w: Work, free: set<nat>, charged: nat, frag: nat) returns (s': Space)
    requires ib == s.ib && Restored(w) == s.mem && Spent(s, w.taken, free, charged, frag)
    ensures s' == s
  {
    var f, ch := GiveBack(s, w.taken, free, charged, frag);
    s' := Space(ib, Restored(w), f, ch);
  }

  /** The blocks on the path from depth lo to depth hi. */
  function OnWay(t: Tree, path: seq<nat>, lo: nat, hi: nat): set<nat> {
    set i | lo <= i < hi && i <= |path| :: AtPath(t, path[..i])
  }

  /** The blocks that the path has in t and had not in t0. */
  function Missing(t0: Tree, t: Tree, path: seq<nat>): set<nat> { OnWay(t, path, Depth(t0, path), Depth(t, path)) }

  lemma AlongWay(taken: seq<nat>, t: Tree, path: seq<nat>, lo: nat)
    requires Along(taken, t, path, lo)
    ensures Elements(taken) == OnWay(t, path, lo, Depth(t, path))
  {
    forall b | b in taken
      ensures b in OnWay(t, path, lo, Depth(t, path))
    {
      var i :| 0 <= i < |taken| && taken[i] == b;
      assert AtPath(t, path[..lo + i]) == b;
    }
    forall b | b in OnWay(t, path, lo, Depth(t, path))
      ensures b in taken
    {
      var i :| lo <= i < Depth(t, path) && i <= |path| && AtPath(t, path[..i]) == b;
      assert taken[i - lo] == b;
    }
  }

  /** The tree is on disk, all other indirect blocks are as before, and new blocks are those in the set. */
  ghost predicate Settled(s: Space, s': Space, t0: Tree, t: Tree, new_: set<nat>) {
    && (forall b :: b in s.mem && !Uses(t0, b) ==> b in s'.mem && s'.mem[b] == s.mem[b])
    && (forall b :: b in s'.mem ==> b in s.mem || (b in new_ && Uses(t, b)))
    && (forall b :: Uses(t, b) ==> Uses(t0, b) || b in new_)
    && (forall b :: HasBlock(t, b) ==> HasBlock(t0, b) || b in new_)
    && new_ <= s.free && s'.free == s.free - new_ && FreeApart(s'.free, s'.mem)
  }

  /**
   * What a successful call has done: the missing blocks of the path are there, exactly those have left
   * the free blocks and were charged, and all else is as before.
   */
  ghost predicate Mapped(s: Space, s': Space, t0: Tree, t: Tree, l: nat, n: nat, path: seq<nat>, frag: nat)
    requires l < |s.ib|
  {
    && s'.ib == s.ib[l := Ptr(t)] && Planted(s'.mem, Ptr(t), t, n, path)
    && SameElsewhere(t, t0, path) && Settled(s, s', t0, t, Missing(t0, t, path))
    && Depth(t0, path) <= Depth(t, path) && Size(t) == Size(t0) + Depth(t, path) - Depth(t0, path)
    && s'.charged == s.charged + Cost(Depth(t, path) - Depth(t0, path), frag)
    && (Depth(t, path) == Depth(t0, path) ==> s' == s && t == t0)
  }

  lemma DoneMapped(s: Space, w: Work, t: Tree, t0: Tree, l: nat, n: nat, path: seq<nat>, free: set<nat>, charged: nat,
                   frag: nat)
    requires Growing(w, t, s.mem, t0, n, path) && l < |s.ib| && Ptr(t0) == s.ib[l]
             && Spent(s, w.taken, free, charged, frag)
    requires FreeApart(s.free, s.mem)
    ensures Mapped(s, Space(s.ib[l := w.root], w.mem, free, charged), t0, t, l, n, path, frag)
    ensures Along(w.taken, t, path, Depth(t0, path))
  {
    hide OnWay, Accounted, FreeApart, Restored, Ptr;
    AlongWay(w.taken, t, path, Depth(t0, path));
    SettledWork(s, w, t, t0, free, s.ib[l := w.root], charged, frag);
    if w.taken == [] {
      assert s.ib[l := w.root] == s.ib && Elements([]) == {} && free == s.free;
    }
  }

  lemma SettledWork(s: Space, w: Work, t: Tree, t0: Tree, free: set<nat>, ib: seq<nat>, charged: nat, frag: nat)
    requires Accounted(w, t, s.mem, t0) && Spent(s, w.taken, free, charged, frag) && FreeApart(s.free, s.mem)
    ensures Settled(s, Space(ib, w.mem, free, charged), t0, t, Elements(w.taken))
  {
  }

  lemma NothingGrown(mem: Memory, root: nat, t: Tree, n: nat, path: seq<nat>)
    requires Planted(mem, root, t, n, path)
    ensures Growing(Work(mem, root, [], false, None), t, mem, t, n, path)
  {
    assert Elements([]) == {};
  }

  /** The first indirect block, allocated if the inode has none. */
  lemma RootGrows(s: Space, t0: Tree, n: nat, path: seq<nat>, c: nat)
    requires Planted(s.mem, 0, t0, n, path) && c != 0 && c !in s.mem
    ensures Growing(Work(s.mem[c := Zeros(n)], c, [c], true, None), Node(c, Blank(n)), s.mem, t0, n, path)
  {
    hide SameElsewhere, Planted;
    var w := Work(s.mem[c := Zeros(n)], c, [c], true, None);
    var t := Node(c, Blank(n));
    RootPlanted(s.mem, t0, n, path, c);
    ElsewhereExtended(t0, t0, n, path, c);
    assert Elements([c]) == {c};
    assert Restored(w) == s.mem;
    HoleSub(path);
    assert path[..0] == [] && Sub(t, path[..0]) == t;
    StillGap(t, n, path, 0, c);
    AlongExtended([], t0, n, path, 0, c);
    assert [] + [c] == [c];
    InsertSize(t0, n, path, c);
  }

  lemma RootPlanted(mem: Memory, t0: Tree, n: nat, path: seq<nat>, c: nat)
    requires Planted(mem, 0, t0, n, path) && c != 0 && c !in mem
    ensures t0.Hole? && Insert(t0, n, path, c) == Node(c, Blank(n)) && Shaped(t0, n, |path|) && InRange(path, n)
            && path != []
    ensures Planted(mem[c := Zeros(n)], c, Node(c, Blank(n)), n, path) && SameElsewhere(t0, t0, path)
    ensures forall b :: Uses(Node(c, Blank(n)), b) ==> b == c
    ensures forall b :: HasBlock(Node(c, Blank(n)), b) ==> b == c
  {
    var t := Node(c, Blank(n));
    ZeroPtrs(n);
    assert forall i :: 0 <= i < n ==> t.kids[i] == Hole;
    assert Shaped(t, n, |path|);
    assert Distinct(t);
    assert InMem(mem[c := Zeros(n)], t);
  }

  /** A new block that could not be written, or is not yet linked, is forgotten by the failure path. */
  lemma UnlinkedRestores(w: Work, mem0: Memory, n: nat, c: nat)
    requires Restored(w) == mem0 && c !in mem0 && c !in w.mem && (w.link.Some? ==> w.link.value.0 != c)
    ensures Restored(w.(mem := w.mem[c := Zeros(n)], taken := w.taken + [c])) == mem0
  {
    var v := w.(mem := w.mem[c := Zeros(n)], taken := w.taken + [c]);
    assert Elements(v.taken) == Elements(w.taken) + {c};
    assert forall x :: x in Restored(v) <==> x in mem0;
    assert forall x :: x in mem0 ==> Restored(v)[x] == mem0[x];
  }

  lemma DataMapped(s: Space, w: Work, t: Tree, t0: Tree, l: nat, n: nat, path: seq<nat>, free: set<nat>, charged: nat,
                   frag: nat, c: nat)
    requires Growing(w, t, s.mem, t0, n, path) && l < |s.ib| && Ptr(t0) == s.ib[l]
             && Spent(s, w.taken, free, charged, frag)
    requires Sub(t, path[..|path| - 1]).Node? && AtPath(t, path) == 0 && c != 0 && c in s.free && c !in w.mem
    requires FreeApart(s.free, s.mem)
    ensures var b := Sub(t, path[..|path| - 1]).blk; var off := path[|path| - 1];
            && b in w.mem && off < |w.mem[b]|
            && Mapped(s, Space(s.ib[l := w.root], Linked(w.mem, n, b, off, c, false), free - {c}, charged + frag),
                      t0, Insert(t, n, path, c), l, n, path, frag)
    ensures AtPath(Insert(t, n, path, c), path) == c
    ensures Along(w.taken + [c], Insert(t, n, path, c), path, Depth(t0, path))
  {
    hide Accounted, Settled, Linked, InMem, Distinct, Insert, OnWay, Restored;
    var b, off, r := Sub(t, path[..|path| - 1]).blk, path[|path| - 1], Insert(t, n, path, c);
    DataPlanted(w.mem, w.root, t, n, path, c);
    ElsewhereExtended(t, t0, n, path, c);
    SpendNext(s, w.taken, free, charged, frag, c);
    InsertSize(t, n, path, c);
    AlongExtended(w.taken, t, n, path, Depth(t0, path), c);
    AlongWay(w.taken + [c], r, path, Depth(t0, path));
    DataSettled(s, w, t, t0, n, path, b, off, free, charged, frag, c, s.ib[l := w.root]);
  }

  lemma DataSettled(s: Space, w: Work, t: Tree, t0: Tree, n: nat, path: seq<nat>, b: nat, off: nat, free: set<nat>,
                    charged: nat, frag: nat, c: nat, ib: seq<nat>)
    requires Accounted(w, t, s.mem, t0) && Spent(s, w.taken + [c], free - {c}, charged + frag, frag)
             && FreeApart(s.free, s.mem)
    requires b in w.mem && off < |w.mem[b]| && Uses(t, b)
    ensures Settled(s, Space(ib, Linked(w.mem, n, b, off, c, false), free - {c}, charged + frag),
                    t0, Insert(t, n, path, c), Elements(w.taken + [c]))
  {
    var m := Linked(w.mem, n, b, off, c, false);
    OutsideKept(w, t, s.mem, t0, b);
    forall x | Uses(t, x)
      ensures Uses(Insert(t, n, path, c), x)
    {
      InsertUsed(t, n, path, c, x);
    }
    forall x | Uses(Insert(t, n, path, c), x)
      ensures Uses(t0, x) || x in w.taken + [c]
    {
      InsertUses(t, n, path, c, x);
    }
    forall x | HasBlock(Insert(t, n, path, c), x)
      ensures HasBlock(t0, x) || x in w.taken + [c]
    {
      InsertBlocks(t, n, path, c, x);
    }
    assert FreeApart(free - {c}, m);
  }

  /** The data block completes the path. */
  lemma DataPlanted(mem: Memory, root: nat, t: Tree, n: nat, path: seq<nat>, c: nat)
    requires Planted(mem, root, t, n, path) && c != 0 && c !in mem
    requires Sub(t, path[..|path| - 1]).Node? && AtPath(t, path) == 0
    ensures var b := Sub(t, path[..|path| - 1]).blk; var off := path[|path| - 1];
            && b in mem && off < |mem[b]| && Uses(t, b)
            && Planted(Linked(mem, n, b, off, c, false), root, Insert(t, n, path, c), n, path)
    ensures Depth(Insert(t, n, path, c), path) == Depth(t, path) + 1
    ensures AtPath(Insert(t, n, path, c), path) == c
  {
    var j := |path| - 1;
    assert path[..j + 1] == path;
    SubShaped(t, n, path, |path|);
    if Uses(t, c) {
      UsesInMem(mem, t, c);
    }
    LinkInMem(mem, t, n, path, j, c);
    InsertShaped(t, n, path, c);
    InsertDistinct(t, n, path, c);
    InsertDepth(t, n, path, c);
    GapDepth(t, n, path, j);
    InsertedAt(t, n, path, c);
  }

  /** The block whose pointer is set belongs to this tree, or is new. */
  lemma OutsideKept(w: Work, t: Tree, mem0: Memory, t0: Tree, b: nat)
    requires Accounted(w, t, mem0, t0) && Uses(t, b)
    ensures b in mem0 ==> Uses(t0, b)
  {
  }

  /** The walk has come down j levels, to indirect block cur. */
  ghost predicate AtNode(t: Tree, path: seq<nat>, j: nat, cur: nat) {
    j < |path| && Sub(t, path[..j]).Node? && Sub(t, path[..j]).blk == cur
  }

  /** Pointer j of the path is empty. */
  ghost predicate Empty(t: Tree, path: seq<nat>, j: nat) { j < |path| && Sub(t, path[..j + 1]).Hole? }

  /** Descend one level, or find where the path ends. */
  lemma WalkStep(w: Work, t: Tree, mem0: Memory, t0: Tree, n: nat, path: seq<nat>, j: nat, cur: nat)
    requires Growing(w, t, mem0, t0, n, path) && AtNode(t, path, j, cur)
    ensures Restored(w) == mem0 && AtPath(t, path) == AtPath(t0, path)
    ensures cur in w.mem && path[j] < |w.mem[cur]|
    ensures j + 1 == |path| ==> w.mem[cur][path[j]] == AtPath(t, path)
    ensures w.mem[cur][path[j]] != 0 && j + 1 < |path| ==> AtNode(t, path, j + 1, w.mem[cur][path[j]])
    ensures w.mem[cur][path[j]] == 0 ==> Empty(t, path, j) && AtPath(t, path) == 0
  {
    NodeInMem(w.mem, t, n, path, j);
    SubShaped(t, n, path, j + 1);
    if j + 1 == |path| {
      assert path[..j + 1] == path;
    }
    if w.mem[cur][path[j]] == 0 {
      GapOnPath(t, path, j + 1);
    }
  }

  /**
   * The indirect part of ffs_balloc_ufs2.  It either maps the block at the end of the path, adding
   * exactly the blocks the path was missing and changing no other mapping, or it fails and everything
   * is as before: pointers, indirect blocks, free blocks and charge.
   */
  method Balloc(s: Space, l: nat, path: seq<nat>, n: nat, frag: nat, softdep: bool, metaonly: bool, supply: seq<Answer>,
                ghost t0: Tree)
    returns (s': Space, ok: bool, nb: nat, ghost t: Tree, ghost used: nat)
    requires l < |s.ib| && Planted(s.mem, s.ib[l], t0, n, path) && Offered(supply, s)
    ensures ok <==> Enough(supply, Lacks(t0, path, metaonly), !metaonly, softdep, FirstRetry(t0))
    ensures !ok ==> s' == s
    ensures ok ==> Mapped(s, s', t0, t, l, n, path, frag) && Along(Drawn(supply, used), t, path, Depth(t0, path))
    ensures ok && !metaonly ==> nb != 0 && nb == AtPath(t, path)
    ensures ok && metaonly ==> AtPath(t, path) == AtPath(t0, path) == nb && Depth(t, path) >= |path|
    ensures AtPath(t0, path) != 0 ==> ok && t == t0
  {
    hide Growing, Enough, Mapped, Along;
    var w, free, charged, pos;
    t, used, nb := t0, 0, 0;
    s', ok, w, free, charged, pos, t :=
      FirstIndirect(s, s.ib, s.mem, s.free, s.charged, l, path, n, frag, softdep,
        metaonly, supply, t0);
    if ok {
      s', ok, nb, t, used :=
        Descend(s, s.ib, w, free, charged, l, path, n, frag, softdep, metaonly, supply,
        pos, t0, t);
    }
  }

  /** The first indirect block, allocated if there is none: without it the call fails at once. */
  method FirstIndirect(ghost s: Space, ib: seq<nat>, mem: Memory, free0: set<nat>, charged0: nat, l: nat,
                       path: seq<nat>, n: nat, frag: nat, softdep: bool, metaonly: bool,
                       supply: seq<Answer>, ghost t0: Tree)
    returns (s': Space, ok: bool, w: Work, free: set<nat>, charged: nat, pos: nat, ghost t: Tree)
    requires s == Space(ib, mem, free0, charged0)
    requires l < |s.ib| && Planted(s.mem, s.ib[l], t0, n, path) && Offered(supply, s)
    ensures !ok ==> s' == s && !Enough(supply, Lacks(t0, path, metaonly), !metaonly, softdep, FirstRetry(t0))
    ensures AtPath(t0, path) != 0 ==> ok
    ensures ok ==> w.root != 0 && Growing(w, t, s.mem, t0, n, path) && Spent(s, w.taken, free, charged, frag)
    ensures ok ==> Unspent(w, supply, pos) && pos >= FirstRetry(t0) && w.taken == Drawn(supply, pos)
    ensures ok ==> Progress(supply, pos, Lacks(t, path, metaonly), Lacks(t0, path, metaonly), softdep, FirstRetry(t0),
                            false, 0)
  {
    hide Growing, Enough, InMem, Distinct;
    ok, w, free, charged, pos, t := true, Work(mem, ib[l], [], false, None), free0, charged0, 0, t0;
    assert Elements([]) == {};
    NothingGrown(s.mem, s.ib[l], t0, n, path);
    if w.root == 0 {
      RootDecided(supply, t0, path, metaonly, softdep);
      var a := Next(supply, 0);
      pos := 1;
      if a.NoSpace? {
        s', ok := Space(ib, mem, free0, charged0), false;
      } else {
        RootGrows(s, t0, n, path, a.blk);
        SpendNext(s, [], free, charged, frag, a.blk);
        assert [] + [a.blk] == [a.blk];
        free, charged := free - {a.blk}, charged + frag;
        if a.written {
          w, t := Work(w.mem[a.blk := Zeros(n)], a.blk, [a.blk], true, None), Node(a.blk, Blank(n));
          assert t.kids[path[0]].Hole? && Depth(t, path) == 1 && Depth(t0, path) == 0;
          s' := Space(ib, w.mem, free, charged);
          assert Lacks(t, path, metaonly) == Lacks(t0, path, metaonly) - 1;
        } else {
          UnlinkedRestores(w, s.mem, n, a.blk);
          s' := Unwind(s, ib, w.(mem := w.mem[a.blk := Zeros(n)], taken := [a.blk]), free, charged, frag);
          ok := false;
        }
      }
    } else {
      s' := Space(ib, mem, free, charged);
    }
  }

  /** What the answer for the first indirect block decides. */
  lemma RootDecided(supply: seq<Answer>, t0: Tree, path: seq<nat>, metaonly: bool, softdep: bool)
    requires t0.Hole? && path != []
    ensures AtPath(t0, path) == 0
    ensures !(Next(supply, 0).Got? && Next(supply, 0).written) ==>
              !Enough(supply, Lacks(t0, path, metaonly), !metaonly, softdep, 1)
    ensures Next(supply, 0).Got? && Next(supply, 0).written && Lacks(t0, path, metaonly) > 0 ==>
              Progress(supply, 1, Lacks(t0, path, metaonly) - 1, Lacks(t0, path, metaonly), softdep, 1, false, 0)
  {
    HoleSub(path);
    var count := Lacks(t0, path, metaonly);
    Decided(supply, 0, count, count, !metaonly, softdep, 1, false, 0);
  }

  /** The loop over the levels, from the first indirect block down, started over once after a cleanup. */
  method Descend(ghost s: Space, ib: seq<nat>, w0: Work, free0: set<nat>, charged0: nat, l: nat, path: seq<nat>, n: nat,
                 frag: nat, softdep: bool, metaonly: bool, supply: seq<Answer>, pos0: nat,
                 ghost t0: Tree, ghost t1: Tree)
    returns (s': Space, ok: bool, nb: nat, ghost t: Tree, ghost used: nat)
    requires ib == s.ib && l < |ib| && Ptr(t0) == ib[l] && Offered(supply, s) && w0.root != 0
    requires Growing(w0, t1, s.mem, t0, n, path) && Spent(s, w0.taken, free0, charged0, frag)
             && Unspent(w0, supply, pos0)
    requires pos0 >= FirstRetry(t0) && w0.taken == Drawn(supply, pos0)
    requires Progress(supply, pos0, Lacks(t1, path, metaonly), Lacks(t0, path, metaonly), softdep, FirstRetry(t0),
                      false, 0)
    ensures ok <==> Enough(supply, Lacks(t0, path, metaonly), !metaonly, softdep, FirstRetry(t0))
    ensures !ok ==> s' == s
    ensures ok ==> Mapped(s, s', t0, t, l, n, path, frag) && Along(Drawn(supply, used), t, path, Depth(t0, path))
    ensures ok && !metaonly ==> nb != 0 && nb == AtPath(t, path)
    ensures ok && metaonly ==> AtPath(t, path) == AtPath(t0, path) == nb && Depth(t, path) >= |path|
    ensures AtPath(t0, path) != 0 ==> ok && t == t0
  {
    hide Mapped, Growing, Spent, Enough, Progress, Along, Drawn, Depth, FreeApart, Size, Sub, Settled;
    var w, free, reclaimed := w0, free0, false;
    var charged: nat, pos: nat := charged0, pos0;
    ghost var count, first := Lacks(t0, path, metaonly), FirstRetry(t0);
    ghost var g: nat := 0;
    t, used := t1, pos0;
    var i, cur := 1, w.root;
    StartNode(w, t, s.mem, t0, n, path);
    while true
      invariant 1 <= i <= |path| && Growing(w, t, s.mem, t0, n, path) && w.root == w0.root
      invariant Spent(s, w.taken, free, charged, frag) && Unspent(w, supply, pos)
      invariant AtNode(t, path, i - 1, cur)
      invariant pos >= first && w.taken == Drawn(supply, pos)
      invariant Progress(supply, pos, Lacks(t, path, metaonly), count, softdep, first, reclaimed, g)
      decreases if reclaimed then 0 else 1, |path| - i
    {
      WalkStep(w, t, s.mem, t0, n, path, i - 1, cur);
      Decided(supply, pos, Lacks(t, path, metaonly), count, !metaonly, softdep, first, reclaimed, g);
      nb := w.mem[cur][path[i - 1]];
      used := pos;
      if i == |path| && (metaonly || nb != 0) {
        s' := Finish(s, ib, w, free, charged, l, path, n, frag, cur, t0, t);
        return s', true, nb, t, used;
      }
      if nb != 0 {
        i, cur := i + 1, nb;
      } else {
        var a := Next(supply, pos);
        pos := pos + 1;
        DrawnNext(supply, pos);
        LacksAtGap(w, t, s.mem, t0, n, path, i - 1, cur, metaonly);
        if a.Got? {
          NewBlock(s, w, t, t0, n, path, supply, pos - 1);
          var over;
          s', over, ok, w, free, charged, t := Extend(s, ib, w, free, charged, l, path, n, frag, a, i - 1, cur, t0, t);
          if over {
            return s', ok, if ok then a.blk else 0, t, pos;
          }
          i, cur := i + 1, a.blk;
        } else if softdep && !reclaimed {
          reclaimed, g, i, cur := true, pos - 1, 1, w.root;
          StartNode(w, t, s.mem, t0, n, path);
        } else {
          s' := Unwind(s, ib, w, free, charged, frag);
          return s', false, 0, t, used;
        }
      }
    }
  }

  lemma DrawnNext(supply: seq<Answer>, pos: nat)
    requires pos > 0
    ensures Drawn(supply, pos) == Drawn(supply, pos - 1)
                                  + if Next(supply, pos - 1).Got? then [Next(supply, pos - 1).blk] else []
  {
  }

  /** At an empty pointer the number of missing blocks is that of the levels from there on. */
  lemma LacksAtGap(w: Work, t: Tree, mem0: Memory, t0: Tree, n: nat, path: seq<nat>, j: nat, cur: nat, metaonly: bool)
    requires Growing(w, t, mem0, t0, n, path) && AtNode(t, path, j, cur) && Empty(t, path, j)
    ensures Lacks(t, path, metaonly) == (if metaonly then |path| - 1 - j else |path| - j)
  {
    GapDepth(t, n, path, j);
  }

  /** The new block becomes the data block, which ends the call, or the next indirect block. */
  method Extend(ghost s: Space, ib: seq<nat>, w: Work, free: set<nat>, charged: nat, l: nat, path: seq<nat>, n: nat,
                frag: nat, a: Answer, j: nat, cur: nat, ghost t0: Tree, ghost t: Tree)
    returns (s': Space, over: bool, ok: bool, w': Work, free': set<nat>, charged': nat, ghost t': Tree)
    requires Growing(w, t, s.mem, t0, n, path) && Spent(s, w.taken, free, charged, frag) && l < |ib|
             && Ptr(t0) == ib[l] && ib == s.ib
    requires AtNode(t, path, j, cur) && Empty(t, path, j) && AtPath(t, path) == 0
    requires a.Got? && a.blk != 0 && a.blk in s.free && a.blk !in w.mem && a.blk !in s.mem && FreeApart(s.free, s.mem)
    ensures over && !ok ==> s' == s
    ensures over && ok ==> j + 1 == |path| && Mapped(s, s', t0, t', l, n, path, frag) && AtPath(t', path) == a.blk
                           && Along(w.taken + [a.blk], t', path, Depth(t0, path))
    ensures over <==> j + 1 == |path| || !a.written
    ensures over && !ok ==> j + 1 < |path|
    ensures AtPath(t0, path) == 0
    ensures !over ==> Growing(w', t', s.mem, t0, n, path) && Spent(s, w'.taken, free', charged', frag)
    ensures !over ==> w'.taken == w.taken + [a.blk] && w'.root == w.root && AtNode(t', path, j + 1, a.blk)
    ensures !over ==> Depth(t', path) == Depth(t, path) + 1
  {
    w', free', charged' := w, free, charged;
    if j + 1 == |path| {
      s', t' := AddData(s, ib, w, free, charged, l, path, n, frag, a.blk, cur, t0, t);
      over, ok := true, true;
    } else {
      s', ok, w', free', charged', t' := AddIndirect(s, ib, w, free, charged, j, path, n, frag, a, cur, t0, t);
      over := !ok;
    }
  }

  /** The path is complete, but perhaps for its data block. */
  method Finish(ghost s: Space, ib: seq<nat>, w: Work, free: set<nat>, charged: nat, l: nat, path: seq<nat>, n: nat,
                frag: nat, cur: nat, ghost t0: Tree, ghost t: Tree) returns (s': Space)
    requires Growing(w, t, s.mem, t0, n, path) && ib == s.ib && l < |ib| && Ptr(t0) == ib[l]
             && Spent(s, w.taken, free, charged, frag)
    requires AtNode(t, path, |path| - 1, cur) && FreeApart(s.free, s.mem)
    ensures Mapped(s, s', t0, t, l, n, path, frag) && Depth(t, path) >= |path| && AtPath(t, path) == AtPath(t0, path)
    ensures AtPath(t0, path) != 0 ==> t == t0 && Depth(t, path) > |path|
    ensures s'.free == free && s'.charged == charged && s'.ib == ib[l := w.root]
    ensures Along(w.taken, t, path, Depth(t0, path))
  {
    if AtPath(t0, path) != 0 {
      FullDepth(t0, n, path);
    }
    DoneMapped(s, w, t, t0, l, n, path, free, charged, frag);
    DeepEnough(t, n, path);
    s' := Space(ib[l := w.root], w.mem, free, charged);
  }

  /** The data block at the end of the path. */
  method AddData(ghost s: Space, ib: seq<nat>, w: Work, free: set<nat>, charged: nat, l: nat, path: seq<nat>, n: nat,
                 frag: nat, c: nat, cur: nat, ghost t0: Tree, ghost t: Tree) returns (s': Space, ghost t': Tree)
    requires Growing(w, t, s.mem, t0, n, path) && ib == s.ib && l < |ib| && Ptr(t0) == ib[l]
             && Spent(s, w.taken, free, charged, frag)
    requires AtNode(t, path, |path| - 1, cur) && AtPath(t, path) == 0 && c != 0 && c in s.free && c !in w.mem
    requires FreeApart(s.free, s.mem)
    ensures Mapped(s, s', t0, t', l, n, path, frag) && AtPath(t', path) == c && AtPath(t0, path) == 0
    ensures Along(w.taken + [c], t', path, Depth(t0, path))
    ensures s'.free == free - {c} && s'.charged == charged + frag && s'.ib == ib[l := w.root]
  {
    DataMapped(s, w, t, t0, l, n, path, free, charged, frag, c);
    t' := Insert(t, n, path, c);
    s' := Space(ib[l := w.root], Linked(w.mem, n, cur, path[|path| - 1], c, false), free - {c}, charged + frag);
  }

  /** An indirect block for the first gap of the path, which fails if it cannot be written. */
  method AddIndirect(ghost s: Space, ib: seq<nat>, w: Work, free: set<nat>, charged: nat, j: nat, path: seq<nat>,
                     n: nat, frag: nat, a: Answer, cur: nat, ghost t0: Tree, ghost t: Tree)
    returns (s': Space, ok: bool, w': Work, free': set<nat>, charged': nat, ghost t': Tree)
    requires Growing(w, t, s.mem, t0, n, path) && Spent(s, w.taken, free, charged, frag) && j + 1 < |path|
             && ib == s.ib
    requires AtNode(t, path, j, cur) && Empty(t, path, j)
    requires a.Got? && a.blk != 0 && a.blk in s.free && a.blk !in w.mem && a.blk !in s.mem
    ensures ok <==> a.written
    ensures !ok ==> s' == s
    ensures ok ==> Growing(w', t', s.mem, t0, n, path) && Spent(s, w'.taken, free', charged', frag)
    ensures ok ==> w'.taken == w.taken + [a.blk] && w'.root == w.root && Depth(t', path) == Depth(t, path) + 1
    ensures ok ==> AtNode(t', path, j + 1, a.blk)
  {
    SpendNext(s, w.taken, free, charged, frag, a.blk);
    free', charged' := free - {a.blk}, charged + frag;
    ok, w', t' := a.written, w, t;
    if ok {
      GrowStep(w, t, s.mem, t0, n, path, j, a.blk);
      w', t' := Extended(w, n, cur, path[j], a.blk), Insert(t, n, path, a.blk);
      s' := Space(ib, w'.mem, free', charged');
    } else {
      UnlinkedRestores(w, s.mem, n, a.blk);
      s' := Unwind(s, ib, w.(mem := w.mem[a.blk := Zeros(n)], taken := w.taken + [a.blk]), free', charged', frag);
    }
  }

  /** The answers still to come are not blocks already taken. */
  ghost predicate Unspent(w: Work, supply: seq<Answer>, pos: nat) {
    forall k :: pos <= k < |supply| && supply[k].Got? ==> supply[k].blk !in w.taken
  }

  lemma NewBlock(s: Space, w: Work, t: Tree, t0: Tree, n: nat, path: seq<nat>, supply: seq<Answer>, k: nat)
    requires Growing(w, t, s.mem, t0, n, path) && Offered(supply, s) && Unspent(w, supply, k)
    requires k < |supply| && supply[k].Got?
    ensures supply[k].blk in s.free && supply[k].blk != 0 && supply[k].blk !in w.mem && supply[k].blk !in s.mem
    ensures forall v: Work :: v.taken == w.taken + [supply[k].blk] ==> Unspent(v, supply, k + 1)
  {
  }

  lemma StartNode(w: Work, t: Tree, mem0: Memory, t0: Tree, n: nat, path: seq<nat>)
    requires Growing(w, t, mem0, t0, n, path) && w.root != 0
    ensures path != [] && AtNode(t, path, 0, w.root)
  {
    assert path[..0] == [];
  }

  /** With an indirect block at the last level the path is complete but for its data block. */
  lemma DeepEnough(t: Tree, n: nat, path: seq<nat>)
    requires Shaped(t, n, |path|) && InRange(path, n) && path != [] && Sub(t, path[..|path| - 1]).Node?
    ensures Depth(t, path) >= |path|
    decreases |path|
  {
    if |path| > 1 {
      assert path[..|path| - 1][1..] == path[1..][..|path| - 2];
      DeepEnough(t.kids[path[0]], n, path[1..]);
    }
  }

  lemma {:induction false} FullDepth(t: Tree, n: nat, path: seq<nat>)
    requires Shaped(t, n, |path|) && InRange(path, n) && AtPath(t, path) != 0
    ensures Depth(t, path) == |path| + 1
    decreases |path|
  {
    if t.Hole? {
      HoleSub(path);
    } else if path != [] {
      FullDepth(t.kids[path[0]], n, path[1..]);
    }
  }

  // ---- paths of logical block numbers

  /** ufs_getlbns: the pointer indices on the way to data block x of a tree of that height. */
  function Digits(x: nat, n: nat, height: nat): (r: seq<nat>)
    requires n > 0 && x < Power(n, height)
    ensures |r| == height && InRange(r, n)
  {
    if height == 0 then []
    else
      Split(x, n, height);
      [x / Power(n, height - 1)] + Digits(x % Power(n, height - 1), n, height - 1)
  }

  lemma {:induction false} DigitsLead(t: Tree, n: nat, height: nat, x: nat)
    requires Shaped(t, n, height) && n > 0 && x < Power(n, height)
    ensures AtPath(t, Digits(x, n, height)) == At(t, n, height, 0, x)
    decreases height
  {
    var path := Digits(x, n, height);
    if t.Hole? {
      HoleSub(path);
    } else if height > 0 {
      Split(x, n, height);
      var f := Power(n, height - 1);
      DigitsLead(t.kids[x / f], n, height - 1, x % f);
      assert path[1..] == Digits(x % f, n, height - 1);
    }
  }

  lemma {:induction false} DigitsDiffer(x: nat, y: nat, n: nat, height: nat)
    requires n > 0 && x < Power(n, height) && y < Power(n, height) && x != y
    ensures Digits(x, n, height) != Digits(y, n, height)
    decreases height
  {
    if height > 0 {
      var f := Power(n, height - 1);
      DivPart(x, f, n);
      DivPart(y, f, n);
      if x / f == y / f {
        DigitsDiffer(x % f, y % f, n, height - 1);
        assert Digits(x, n, height)[1..] != Digits(y, n, height)[1..];
      } else {
        assert Digits(x, n, height)[0] != Digits(y, n, height)[0];
      }
    }
  }

  /** In terms of logical block numbers: block x is mapped, every other block is mapped as before. */
  lemma OneBlockMapped(t0: Tree, t: Tree, n: nat, height: nat, x: nat, y: nat)
    requires n > 0 && x < Power(n, height) && y < Power(n, height) && y != x
    requires Shaped(t0, n, height) && Shaped(t, n, height) && SameElsewhere(t, t0, Digits(x, n, height))
    ensures At(t, n, height, 0, y) == At(t0, n, height, 0, y)
    ensures At(t, n, height, 0, x) == AtPath(t, Digits(x, n, height))
  {
    DigitsDiffer(x, y, n, height);
    DigitsLead(t, n, height, x);
    DigitsLead(t, n, height, y);
    DigitsLead(t0, n, height, y);
  }

  // ---- the three trees of an inode

  /** The three trees are on disk under the pointers of the inode; what is free is no block of theirs. */
  ghost predicate Consistent(s: Space, trees: seq<Tree>, n: nat) {
    && |trees| == 3 && s.ib == Ptrs(trees) && ForestReady(s.mem, trees, n) && FreeApart(s.free, s.mem)
    && forall k, b :: 0 <= k < 3 && HasBlock(trees[k], b) ==> b !in s.free
  }

  lemma MappedConsistent(s: Space, s': Space, trees: seq<Tree>, t: Tree, l: nat, n: nat, path: seq<nat>, frag: nat)
    requires Consistent(s, trees, n) && l < 3 && |path| == l + 1 && Mapped(s, s', trees[l], t, l, n, path, frag)
    ensures Consistent(s', trees[l := t], n)
    ensures SizeOf(trees[l := t]) == SizeOf(trees) + Depth(t, path) - Depth(trees[l], path)
  {
    hide OnWay;
    SizeReplaced(trees, l, t);
    var r := trees[l := t];
    assert s'.ib == Ptrs(r);
    TreesApart(s, s', trees, t, l, n, Missing(trees[l], t, path));
    forall k, b | 0 <= k < 3 && HasBlock(r[k], b)
      ensures b !in s'.free
    {
    }
  }

  /** The other trees are as before, and share no indirect block with the new one. */
  lemma TreesApart(s: Space, s': Space, trees: seq<Tree>, t: Tree, l: nat, n: nat, new_: set<nat>)
    requires Consistent(s, trees, n) && l < 3 && Settled(s, s', trees[l], t, new_)
    requires Shaped(t, n, l + 1) && InMem(s'.mem, t) && Distinct(t)
    ensures ForestReady(s'.mem, trees[l := t], n)
  {
    hide Uses;
    var r := trees[l := t];
    forall k | 0 <= k < 3 && k != l
      ensures InMem(s'.mem, r[k]) && forall b :: Uses(r[k], b) ==> !Uses(t, b)
    {
      OtherTree(s, trees, n, l, k);
      Frame(s.mem, s'.mem, trees[k]);
    }
    forall j, k, b | 0 <= j < k < 3 && Uses(r[j], b)
      ensures !Uses(r[k], b)
    {
      assert j != l ==> Uses(trees[j], b);
    }
  }

  /** The indirect blocks of another tree are not blocks of this one. */
  lemma OtherTree(s: Space, trees: seq<Tree>, n: nat, l: nat, k: nat)
    requires Consistent(s, trees, n) && l < 3 && k < 3 && k != l
    ensures forall b :: Uses(trees[k], b) ==> b in s.mem && !Uses(trees[l], b) && b !in s.free
  {
    forall b | Uses(trees[k], b)
      ensures b in s.mem && !Uses(trees[l], b)
    {
      UsesInMem(s.mem, trees[k], b);
    }
  }

  /** The part of an inode and its file system that a call of ffs_balloc_ufs2 changes. */
  class BlockMap {
    const n: nat
    const frag: nat
    var ib: seq<nat>
    var mem: Memory
    var free: set<nat>
    var charged: nat
    ghost var trees: seq<Tree>

    ghost function Now(): Space
      reads this
    {
      Space(ib, mem, free, charged)
    }

    /** The trees are on disk, nothing of them is free, and every block of them is charged. */
    ghost predicate Valid()
      reads this
    {
      Consistent(Now(), trees, n) && charged == Cost(SizeOf(trees), frag)
    }

    constructor (n: nat, frag: nat, free: set<nat>)
      requires n > 0 && 0 !in free
      ensures Valid() && Now() == Space([0, 0, 0], map[], free, 0) && this.n == n && this.frag == frag
    {
      this.n, this.frag := n, frag;
      ib, mem, this.free, charged := [0, 0, 0], map[], free, 0;
      trees := Blank(3);
      new;
      BlankSize(3);
      assert ib == Ptrs(trees);
    }

    /** Either the block is mapped, with exactly the missing blocks of its path, or nothing has changed. */
    method Allocate(path: seq<nat>, softdep: bool, supply: seq<Answer>) returns (ok: bool, nb: nat, ghost used: nat)
      requires Valid() && 0 < |path| <= 3 && InRange(path, n) && Offered(supply, Now())
      modifies this
      ensures Valid() && |old(trees)| == 3
      ensures var t0 := old(trees)[|path| - 1];
              ok <==> Enough(supply, Lacks(t0, path, false), true, softdep, FirstRetry(t0))
      ensures !ok ==> Now() == old(Now()) && trees == old(trees)
      ensures ok ==> |trees| == 3 && trees == old(trees)[|path| - 1 := trees[|path| - 1]]
      ensures ok ==> Mapped(old(Now()), Now(), old(trees)[|path| - 1], trees[|path| - 1], |path| - 1, n, path, frag)
      ensures ok ==> nb != 0 && nb == AtPath(trees[|path| - 1], path)
      ensures ok ==> Along(Drawn(supply, used), trees[|path| - 1], path, Depth(old(trees)[|path| - 1], path))
    {
      hide Mapped, InRange, SizeOf, Enough, Along;
      var s;
      ghost var t;
      var l := |path| - 1;
      PlantedTree(Now(), trees, n, path);
      s, ok, nb, t, used := Balloc(Space(ib, mem, free, charged), l, path, n, frag, softdep, false, supply, trees[l]);
      if ok {
        MappedCharge(Now(), s, trees[l], t, l, n, path, frag);
        MappedConsistent(Now(), s, trees, t, l, n, path, frag);
        CostAdds(SizeOf(trees), Depth(t, path) - Depth(trees[l], path), frag);
        trees := trees[l := t];
      }
      ib, mem, free, charged := s.ib, s.mem, s.free, s.charged;
    }
  }

  lemma PlantedTree(s: Space, trees: seq<Tree>, n: nat, path: seq<nat>)
    requires Consistent(s, trees, n) && 0 < |path| <= 3 && InRange(path, n)
    ensures |s.ib| == 3 && Planted(s.mem, s.ib[|path| - 1], trees[|path| - 1], n, path)
  {
  }

  lemma MappedCharge(s: Space, s': Space, t0: Tree, t: Tree, l: nat, n: nat, path: seq<nat>, frag: nat)
    requires l < |s.ib| && Mapped(s, s', t0, t, l, n, path, frag)
    ensures Depth(t0, path) <= Depth(t, path) && s'.charged == s.charged + Cost(Depth(t, path) - Depth(t0, path), frag)
  {
  }

  lemma {:induction false} CostAdds(a: nat, b: nat, frag: nat)
    ensures Cost(a + b, frag) == Cost(a, frag) + Cost(b, frag)
    decreases b
  {
    if b > 0 {
      CostAdds(a, b - 1, frag);
    }
  }
}
