// The deduplication table: one entry for each block with known contents, with the number of pointers
// to it, so that a shared block is freed with its last pointer.
module Dedup {
  import opened Basics

  /** A SHA-1 key, standing for the contents it is the key of. */
  type Key = nat

  /** struct ddfs_dedup: unused, or a block and its key with a 16-bit reference count. */
  datatype Entry = Unused | Active(count: nat, blockptr: nat, key: Key)

  const MaxCount := 65535

  /** How many pointers lead to block b. */
  function References(ptrs: seq<nat>, b: nat): nat {
    if ptrs == [] then 0 else References(ptrs[..|ptrs| - 1], b) + if ptrs[|ptrs| - 1] == b then 1 else 0
  }

  lemma {:induction false} Repoint(ptrs: seq<nat>, s: nat, b: nat, x: nat)
    requires s < |ptrs|
    ensures References(ptrs[s := b], x)
            == References(ptrs, x) - (if ptrs[s] == x then 1 else 0) + (if b == x then 1 else 0)
    decreases |ptrs|
  {
    var n := |ptrs| - 1;
    if s < n {
      Repoint(ptrs[..n], s, b, x);
      assert ptrs[s := b][..n] == ptrs[..n][s := b];
    } else {
      assert ptrs[s := b][..n] == ptrs[..n];
    }
  }

  lemma {:induction false} Referenced(ptrs: seq<nat>, s: nat)
    requires s < |ptrs|
    ensures References(ptrs, ptrs[s]) > 0
    decreases |ptrs|
  {
    if s < |ptrs| - 1 {
      Referenced(ptrs[..|ptrs| - 1], s);
    }
  }

  lemma TwiceReferenced(ptrs: seq<nat>, s: nat, r: nat)
    requires s < |ptrs| && r < |ptrs| && s != r && ptrs[s] == ptrs[r] != 0
    ensures References(ptrs, ptrs[s]) >= 2
  {
    Repoint(ptrs, s, 0, ptrs[s]);
    Referenced(ptrs[s := 0], r);
  }

  lemma {:induction false} NoneThere(ptrs: seq<nat>, b: nat)
    requires forall i :: 0 <= i < |ptrs| ==> ptrs[i] != b
    ensures References(ptrs, b) == 0
    decreases |ptrs|
  {
    if ptrs != [] {
      NoneThere(ptrs[..|ptrs| - 1], b);
    }
  }

  predicate HasBlock(e: Entry, b: nat) { e.Active? && e.blockptr == b }

  predicate HasKey(e: Entry, key: Key) { e.Active? && e.key == key }

  ghost predicate InTable(table: seq<Entry>, b: nat) { exists k :: 0 <= k < |table| && HasBlock(table[k], b) }

  ghost predicate KeyInTable(table: seq<Entry>, key: Key) { exists k :: 0 <= k < |table| && HasKey(table[k], key) }

  /** The table has the key, for block b. */
  ghost predicate KeyAt(table: seq<Entry>, key: Key, b: nat) {
    exists k :: 0 <= k < |table| && HasKey(table[k], key) && table[k].blockptr == b
  }

  /** Active keys and blocks are unique. */
  ghost predicate Unique(table: seq<Entry>) {
    && (forall i, j :: 0 <= i < |table| && 0 <= j < |table| && table[i].Active? && HasBlock(table[j], table[i].blockptr)
          ==> i == j)
    && (forall i, j :: 0 <= i < |table| && 0 <= j < |table| && table[i].Active? && HasKey(table[j], table[i].key) ==>
          i == j)
  }

  /** The entry counts the pointers to its block. */
  ghost predicate Counts(e: Entry, ptrs: seq<nat>) {
    e.Active? ==> e.blockptr != 0 && e.count == References(ptrs, e.blockptr) > 0 && e.count <= MaxCount
  }

  ghost predicate AllCount(table: seq<Entry>, ptrs: seq<nat>) {
    forall k :: 0 <= k < |table| ==> Counts(table[k], ptrs)
  }

  /** A block is allocated while pointers lead to it; outside the table only one does. */
  ghost predicate Used(table: seq<Entry>, ptrs: seq<nat>, inuse: set<nat>) {
    && 0 !in inuse
    && (forall b :: b != 0 ==> (b in inuse <==> References(ptrs, b) > 0))
    && (forall b :: b != 0 && !InTable(table, b) ==> References(ptrs, b) <= 1)
  }

  /** The conservation law of the table. */
  ghost predicate Conserved(table: seq<Entry>, ptrs: seq<nat>, inuse: set<nat>) {
    Unique(table) && AllCount(table, ptrs) && Used(table, ptrs, inuse)
  }

  predicate Matches(e: Entry, key: Option<Key>, target: Option<nat>) {
    if target.Some? then HasBlock(e, target.value) else key.Some? && HasKey(e, key.value)
  }

  /** The first active entry that matches, or the end of the table. */
  function FirstMatch(table: seq<Entry>, key: Option<Key>, target: Option<nat>): (r: nat)
    ensures r <= |table| && (r < |table| ==> Matches(table[r], key, target))
    ensures forall k :: 0 <= k < r ==> !Matches(table[k], key, target)
  {
    if table == [] || Matches(table[0], key, target) then 0 else 1 + FirstMatch(table[1..], key, target)
  }

  /** The first unused entry, or the end of the table. */
  function FirstUnused(table: seq<Entry>): (r: nat)
    ensures r <= |table| && (r < |table| ==> table[r] == Unused)
    ensures forall k :: 0 <= k < r ==> table[k].Active?
  {
    if table == [] || table[0] == Unused then 0 else 1 + FirstUnused(table[1..])
  }

  /** ddtable_locate: the first active entry that matches, and the first unused one if it comes before. */
  method Locate(table: seq<Entry>, key: Option<Key>, target: Option<nat>)
    returns (found: bool, idx: nat, free: Option<nat>)
    requires key.Some? != target.Some?
    ensures idx == FirstMatch(table, key, target) && (found <==> idx < |table|)
    ensures free == if FirstUnused(table) < idx then Some(FirstUnused(table)) else None
  {
    free := None;
    idx := 0;
    while idx < |table|
      invariant idx <= FirstMatch(table, key, target)
      invariant free == if FirstUnused(table) < idx then Some(FirstUnused(table)) else None
    {
      if table[idx] == Unused {
        if free.None? {
          free := Some(idx);
        }
      } else if target.Some? {
        if table[idx].blockptr == target.value {
          return true, idx, free;
        }
      } else if table[idx].key == key.value {
        return true, idx, free;
      }
      idx := idx + 1;
    }
    found := false;
  }

  /** The key is known, or there is an unused entry for it. */
  ghost predicate HasRoom(table: seq<Entry>, key: Key) {
    KeyInTable(table, key) || exists k :: 0 <= k < |table| && table[k] == Unused
  }

  /** The table with one more reference under the key, and the block that has it; counts have 16 bits. */
  function Entered(table: seq<Entry>, key: Key, inBlock: nat): (seq<Entry>, nat)
    requires HasRoom(table, key)
  {
    var k := FirstMatch(table, Some(key), None);
    if k < |table| then (table[k := table[k].(count := (table[k].count + 1) % (MaxCount + 1))], table[k].blockptr)
    else (table[FirstUnused(table) := Active(1, inBlock, key)], inBlock)
  }

  /** ddtable_alloc: one more reference to the block with this key, which is inBlock if the key is new. */
  method Alloc(table: seq<Entry>, key: Key, inBlock: nat) returns (t: seq<Entry>, outBlock: nat)
    requires HasRoom(table, key)
    ensures (t, outBlock) == Entered(table, key, inBlock)
    ensures |t| == |table| && KeyAt(t, key, outBlock)
    ensures if KeyInTable(table, key) then KeyAt(table, key, outBlock) else outBlock == inBlock
    ensures exists k :: 0 <= k < |table| && t == table[k := t[k]] && HasKey(t[k], key)
              && Referred(table[k], t[k], inBlock) && (KeyInTable(table, key) ==> HasKey(table[k], key))
  {
    var found, idx, free := Locate(table, Some(key), None);
    if found {
      t := table[idx := table[idx].(count := (table[idx].count + 1) % (MaxCount + 1))];
      outBlock := table[idx].blockptr;
      assert HasKey(table[idx], key) && HasKey(t[idx], key) && Referred(table[idx], t[idx], inBlock);
    } else {
      assert forall k :: 0 <= k < |table| ==> !Matches(table[k], Some(key), None) && !HasKey(table[k], key);
      t, outBlock := table[free.value := Active(1, inBlock, key)], inBlock;
      assert HasKey(t[free.value], key) && Referred(table[free.value], t[free.value], inBlock);
    }
  }

  /** The entry has one reference more, or is a new one for block b. */
  predicate Referred(e: Entry, f: Entry, b: nat) {
    if e == Unused then f.Active? && f.count == 1 && f.blockptr == b
    else e.count < MaxCount ==> f == e.(count := e.count + 1)
  }

  /** The table with one reference to the block less, and the count that is left, -1 without an entry. */
  function Unreferenced(table: seq<Entry>, b: nat): (seq<Entry>, int) {
    var k := FirstMatch(table, None, Some(b));
    if k == |table| then (table, -1)
    else
      var left := if table[k].count == 0 then MaxCount else table[k].count - 1;
      (table[k := if left == 0 then Unused else table[k].(count := left)], left)
  }

  /** The entry has one reference less, and is unused after the last one. */
  predicate Lowered(e: Entry, f: Entry, left: int) {
    e.Active? && f == (if left == 0 then Unused else if left > 0 then e.(count := left) else e)
        && (e.count > 0 ==> left == e.count - 1)
  }

  /** ddtable_unref: the entry of the block loses a reference, and goes with the last one. */
  method Unref(table: seq<Entry>, b: nat) returns (t: seq<Entry>, left: int)
    ensures (t, left) == Unreferenced(table, b)
    ensures left == -1 <==> !InTable(table, b)
    ensures left == -1 ==> t == table
    ensures left != -1 ==> exists k :: 0 <= k < |table| && HasBlock(table[k], b) && t == table[k := t[k]]
                             && Lowered(table[k], t[k], left)
  {
    var found, idx, free := Locate(table, None, Some(b));
    if !found {
      assert forall j :: 0 <= j < |table| ==> !Matches(table[j], None, Some(b)) && !HasBlock(table[j], b);
      return table, -1;
    }
    assert HasBlock(table[idx], b);
    left := if table[idx].count == 0 then MaxCount else table[idx].count - 1;
    t := table[idx := if left == 0 then Unused else table[idx].(count := left)];
  }

  // ---- steps that keep the law

  /** Two pointer lists that lead to every block equally often. */
  ghost predicate SameRefs(p: seq<nat>, q: seq<nat>) { forall b :: b != 0 ==> References(p, b) == References(q, b) }

  lemma SameRefsConserve(table: seq<Entry>, p: seq<nat>, q: seq<nat>, inuse: set<nat>)
    requires Conserved(table, p, inuse) && SameRefs(p, q)
    ensures Conserved(table, q, inuse)
  {
    assert forall k :: 0 <= k < |table| ==> Counts(table[k], p);
  }

  lemma MoreRefs(ptrs: seq<nat>, b: nat, x: nat)
    ensures References(ptrs + [b], x) == References(ptrs, x) + if b == x then 1 else 0
  {
    assert (ptrs + [b])[..|ptrs|] == ptrs;
  }

  /** A released pointer, still counted until its block is freed. */
  lemma ReleasedRefs(ptrs: seq<nat>, s: nat, b: nat)
    requires s < |ptrs|
    ensures SameRefs(ptrs[s := b] + [ptrs[s]], ptrs + [b])
  {
    forall x | x != 0
      ensures References(ptrs[s := b] + [ptrs[s]], x) == References(ptrs + [b], x)
    {
      Repoint(ptrs, s, b, x);
      MoreRefs(ptrs[s := b], ptrs[s], x);
      MoreRefs(ptrs, b, x);
    }
  }

  lemma NoRefs(ptrs: seq<nat>)
    ensures SameRefs(ptrs + [0], ptrs)
  {
    forall x | x != 0
      ensures References(ptrs + [0], x) == References(ptrs, x)
    {
      MoreRefs(ptrs, 0, x);
    }
  }

  /** One more pointer to a block whose key is known. */
  lemma ShareConserves(table: seq<Entry>, ptrs: seq<nat>, inuse: set<nat>, k: nat)
    requires Conserved(table, ptrs, inuse) && k < |table| && table[k].Active? && table[k].count < MaxCount
    ensures Conserved(table[k := table[k].(count := table[k].count + 1)], ptrs + [table[k].blockptr], inuse)
  {
    var b := table[k].blockptr;
    var t := table[k := table[k].(count := table[k].count + 1)];
    forall x
      ensures References(ptrs + [b], x) == References(ptrs, x) + (if b == x then 1 else 0)
              && InTable(t, x) == InTable(table, x)
    {
      MoreRefs(ptrs, b, x);
      SameBlocks(table, k, table[k].(count := table[k].count + 1), x);
    }
    forall j | 0 <= j < |t|
      ensures Counts(t[j], ptrs + [b])
    {
      assert Counts(table[j], ptrs);
    }
  }

  lemma SameBlocks(table: seq<Entry>, k: nat, e: Entry, x: nat)
    requires k < |table| && table[k].Active? && e.Active? && e.blockptr == table[k].blockptr
    ensures InTable(table[k := e], x) == InTable(table, x)
  {
    var t := table[k := e];
    forall j | 0 <= j < |table|
      ensures HasBlock(t[j], x) == HasBlock(table[j], x)
    {
    }
    if InTable(table, x) {
      var j :| 0 <= j < |table| && HasBlock(table[j], x);
      assert HasBlock(t[j], x);
    }
  }

  /** A block that only one pointer leads to enters the table under a new key. */
  lemma EnterConserves(table: seq<Entry>, ptrs: seq<nat>, inuse: set<nat>, k: nat, b: nat, key: Key)
    requires Conserved(table, ptrs, inuse) && k < |table| && table[k] == Unused
    requires b != 0 && !InTable(table, b) && !KeyInTable(table, key) && References(ptrs, b) == 1
    ensures Conserved(table[k := Active(1, b, key)], ptrs, inuse)
  {
    var t := table[k := Active(1, b, key)];
    forall j | 0 <= j < |t|
      ensures Counts(t[j], ptrs)
    {
      assert Counts(table[j], ptrs);
    }
    forall x | InTable(table, x)
      ensures InTable(t, x)
    {
      var j :| 0 <= j < |table| && HasBlock(table[j], x);
      assert HasBlock(t[j], x);
    }
  }

  /** The table after the release of a pointer to the block of entry k. */
  function Released(table: seq<Entry>, k: nat): seq<Entry>
    requires k < |table| && table[k].Active? && table[k].count > 0
  {
    table[k := if table[k].count == 1 then Unused else table[k].(count := table[k].count - 1)]
  }

  lemma ReleaseConserves(table: seq<Entry>, ptrs: seq<nat>, inuse: set<nat>, k: nat, b: nat)
    requires Conserved(table, ptrs + [b], inuse) && k < |table| && HasBlock(table[k], b)
    ensures table[k].count > 0 && table[k].count - 1 == References(ptrs, b)
    ensures Conserved(Released(table, k), ptrs, if table[k].count == 1 then inuse - {b} else inuse)
  {
    assert Counts(table[k], ptrs + [b]);
    MoreRefs(ptrs, b, b);
    var t := Released(table, k);
    forall j | 0 <= j < |t|
      ensures Counts(t[j], ptrs)
    {
      assert Counts(table[j], ptrs + [b]);
      if t[j].Active? {
        MoreRefs(ptrs, b, t[j].blockptr);
      }
    }
    forall x
      ensures References(ptrs + [b], x) == References(ptrs, x) + if b == x then 1 else 0
    {
      MoreRefs(ptrs, b, x);
    }
    forall x | x != b && InTable(table, x)
      ensures InTable(t, x)
    {
      var j :| 0 <= j < |table| && HasBlock(table[j], x);
      assert HasBlock(t[j], x);
    }
    if table[k].count > 1 {
      assert HasBlock(t[k], b);
    }
  }

  lemma ReleaseAlone(table: seq<Entry>, ptrs: seq<nat>, inuse: set<nat>, b: nat)
    requires Conserved(table, ptrs + [b], inuse) && b != 0 && !InTable(table, b)
    ensures References(ptrs, b) == 0 && Conserved(table, ptrs, inuse - {b})
  {
    forall x
      ensures References(ptrs + [b], x) == References(ptrs, x) + if b == x then 1 else 0
    {
      MoreRefs(ptrs, b, x);
    }
    assert References(ptrs + [b], b) <= 1;
    forall j | 0 <= j < |table|
      ensures Counts(table[j], ptrs)
    {
      assert Counts(table[j], ptrs + [b]) && !HasBlock(table[j], b);
    }
  }

  lemma AllocateConserves(table: seq<Entry>, ptrs: seq<nat>, inuse: set<nat>, s: nat, b: nat)
    requires Conserved(table, ptrs, inuse) && s < |ptrs| && ptrs[s] == 0 && b != 0 && b !in inuse
    ensures Conserved(table, ptrs[s := b], inuse + {b})
  {
    forall x
      ensures x != 0 ==> References(ptrs[s := b], x) == References(ptrs, x) + if b == x then 1 else 0
    {
      Repoint(ptrs, s, b, x);
    }
    forall j | 0 <= j < |table|
      ensures Counts(table[j], ptrs[s := b])
    {
      assert Counts(table[j], ptrs);
    }
  }

  // ---- the state of a volume

  const NDADDR := 12
  const NIADDR := 3
  const WORDS := NDADDR + NIADDR

  /**
   * The table, all block pointers of the volume, the blocks in use, and what they contain.  First come
   * the pointers in inodes, WORDS for each, di_db followed by di_ib; then those in indirect blocks.  What
   * indirect blocks contain is not followed in content.
   */
  datatype State = State(files: nat, table: seq<Entry>, ptrs: seq<nat>, inuse: set<nat>, content: map<nat, Key>)

  function Holds(content: map<nat, Key>, b: nat): Key { if b in content then content[b] else 0 }

  /** The blocks in the table contain what their keys say. */
  ghost predicate Truthful(table: seq<Entry>, content: map<nat, Key>) {
    forall k :: 0 <= k < |table| && table[k].Active? ==> Holds(content, table[k].blockptr) == table[k].key
  }

  ghost predicate Counted(st: State) { Conserved(st.table, st.ptrs, st.inuse) }

  ghost predicate Lawful(st: State) {
    st.files * WORDS <= |st.ptrs| && Counted(st) && Truthful(st.table, st.content)
  }

  /** The block loses a pointer: it is given back unless the table says that others are left. */
  function Given(st: State, b: nat): State {
    var (t, left) := Unreferenced(st.table, b);
    st.(table := t, inuse := if left <= 0 then st.inuse - {b} else st.inuse)
  }

  lemma GivenConserves(st: State, b: nat)
    requires Conserved(st.table, st.ptrs + [b], st.inuse) && b != 0
    ensures Counted(Given(st, b)) && |Given(st, b).table| == |st.table|
    ensures Given(st, b).inuse == if References(st.ptrs, b) == 0 then st.inuse - {b} else st.inuse
    ensures forall j :: 0 <= j < |st.table| && !HasBlock(st.table[j], b) ==> Given(st, b).table[j] == st.table[j]
    ensures forall j :: 0 <= j < |st.table| && HasBlock(st.table[j], b) ==>
              Given(st, b).table == Released(st.table, j) && st.table[j].count == References(st.ptrs, b) + 1
  {
    hide FirstMatch;
    var k := FirstMatch(st.table, None, Some(b));
    MoreRefs(st.ptrs, b, b);
    if k == |st.table| {
      assert forall j :: 0 <= j < |st.table| ==> !Matches(st.table[j], None, Some(b)) && !HasBlock(st.table[j], b);
      ReleaseAlone(st.table, st.ptrs, st.inuse, b);
    } else {
      assert HasBlock(st.table[k], b) && Counts(st.table[k], st.ptrs + [b]);
      ReleaseConserves(st.table, st.ptrs, st.inuse, k, b);
    }
  }

  /** The gate in ffs_blkfree: a block is given back exactly when no pointer leads to it any more. */
  method BlkFree(st: State, b: nat) returns (st': State, freed: bool)
    ensures st' == Given(st, b)
    ensures Conserved(st.table, st.ptrs + [b], st.inuse) && b != 0 ==>
              Counted(st') && (freed <==> References(st.ptrs, b) == 0)
    ensures st'.inuse == if freed then st.inuse - {b} else st.inuse
  {
    if Conserved(st.table, st.ptrs + [b], st.inuse) && b != 0 {
      GivenConserves(st, b);
      Releasing(st, b);
    }
    var t, left := Unref(st.table, b);
    freed := left <= 0;
    st' := st.(table := t, inuse := if freed then st.inuse - {b} else st.inuse);
  }

  lemma Releasing(st: State, b: nat)
    requires Conserved(st.table, st.ptrs + [b], st.inuse) && b != 0
    ensures Unreferenced(st.table, b).1 <= 0 <==> References(st.ptrs, b) == 0
  {
    var k := FirstMatch(st.table, None, Some(b));
    MoreRefs(st.ptrs, b, b);
    if k < |st.table| {
      assert HasBlock(st.table[k], b) && Counts(st.table[k], st.ptrs + [b]);
    } else {
      assert forall j :: 0 <= j < |st.table| ==> !Matches(st.table[j], None, Some(b)) && !HasBlock(st.table[j], b);
      ReleaseAlone(st.table, st.ptrs, st.inuse, b);
    }
  }

  // ---- the write path

  /** The place of di_db[lbn] of an inode, which runs on into di_ib. */
  function Cell(ino: nat, lbn: nat): nat { ino * WORDS + lbn }

  /** What the code reads as di_db[lbn]; past the pointers of the inode it is some other word, stray. */
  function Word(st: State, ino: nat, lbn: nat, stray: nat): nat
    requires ino < st.files && st.files * WORDS <= |st.ptrs|
  {
    if lbn < WORDS then st.ptrs[Cell(ino, lbn)] else stray
  }

  /** dp->di_db[lbn] = b. */
  function Stored(st: State, ino: nat, lbn: nat, b: nat): State
    requires ino < st.files && st.files * WORDS <= |st.ptrs|
  {
    if lbn < WORDS then st.(ptrs := st.ptrs[Cell(ino, lbn) := b]) else st
  }

  /** The pointer to data block lbn is at that place, in the inode or in an indirect block. */
  predicate Leads(st: State, ino: nat, lbn: nat, at: nat) {
    && ino < st.files && st.files * WORDS <= |st.ptrs| && at < |st.ptrs| && st.ptrs[at] != 0
    && if lbn < NDADDR then at == Cell(ino, lbn) else st.files * WORDS <= at
  }

  /** After a write of data to the block at that pointer, where key is the one that was computed. */
  function Rewritten(st: State, ino: nat, lbn: nat, stray: nat, at: nat, data: Key, key: Key): State
    requires Leads(st, ino, lbn, at) && HasRoom(st.table, key)
  {
    var oldblk := Word(st, ino, lbn, stray);
    var (t, newblk) := Entered(st.table, key, oldblk);
    var st1 := st.(content := st.content[st.ptrs[at] := data], table := t);
    if newblk == oldblk then st1 else Given(Stored(st1, ino, lbn, newblk), oldblk)
  }

  /**
   * The deduplicating part of ffs_write: the data goes into the buffer of the block, its key is looked
   * up, and if another block has it the pointer is changed.
   */
  method WriteBlock(st: State, ino: nat, lbn: nat, stray: nat, at: nat, data: Key, key: Key) returns (st': State)
    requires Leads(st, ino, lbn, at) && HasRoom(st.table, key)
    ensures st' == Rewritten(st, ino, lbn, stray, at, data, key)
    ensures Lawful(st) ==> (Shared(st, st', at, key) <==> MayShare(st, ino, lbn, stray, at, key))
    ensures Lawful(st) ==> (Done(st, st', at, data, key) <==> MayWrite(st, ino, lbn, stray, at, data, key))
  {
    if Lawful(st) {
      ShareExact(st, ino, lbn, stray, at, data, key);
      WriteExact(st, ino, lbn, stray, at, data, key);
    }
    st' := st.(content := st.content[st.ptrs[at] := data]);
    var oldblk := if lbn < WORDS then st.ptrs[Cell(ino, lbn)] else stray;
    var t, newblk := Alloc(st.table, key, oldblk);
    st' := st'.(table := t);
    if newblk != oldblk {
      if lbn < WORDS {
        st' := st'.(ptrs := st'.ptrs[Cell(ino, lbn) := newblk]);
      }
      var freed;
      st', freed := BlkFree(st', oldblk);
    }
  }

  /** References are conserved, the block written to is the one known by the key, no other pointer changed. */
  ghost predicate Shared(st: State, st': State, at: nat, key: Key)
    requires at < |st.ptrs|
  {
    && Counted(st') && |st'.ptrs| == |st.ptrs| && KeyAt(st'.table, key, st'.ptrs[at])
    && forall s :: 0 <= s < |st.ptrs| && s != at ==> st'.ptrs[s] == st.ptrs[s]
  }

  /** Besides, every pointer leads to what was last written through it, and the table tells the truth. */
  ghost predicate Done(st: State, st': State, at: nat, data: Key, key: Key)
    requires at < |st.ptrs|
  {
    && Shared(st, st', at, key) && Truthful(st'.table, st'.content) && Holds(st'.content, st'.ptrs[at]) == data
    && forall s :: 0 <= s < |st.ptrs| && s != at && st.ptrs[s] != 0 ==>
         Holds(st'.content, st'.ptrs[s]) == Holds(st.content, st.ptrs[s])
  }

  /** The count of the key has not reached its limit. */
  ghost predicate Below(table: seq<Entry>, key: Key) {
    forall k :: 0 <= k < |table| && HasKey(table[k], key) ==> table[k].count < MaxCount
  }

  /**
   * The word read is a direct pointer (or happens to be the pointer of the block all the same), and the
   * block is not in the table yet or its new contents are known at another block.
   */
  ghost predicate MayShare(st: State, ino: nat, lbn: nat, stray: nat, at: nat, key: Key)
    requires Leads(st, ino, lbn, at)
  {
    var b := st.ptrs[at];
    && (lbn < NDADDR || (lbn >= WORDS && stray == b && !KeyInTable(st.table, key)))
    && (!InTable(st.table, b) || (KeyInTable(st.table, key) && !KeyAt(st.table, key, b)))
    && Below(st.table, key)
  }

  /** Besides, the key is that of the data, and no one else shares the block that is overwritten. */
  ghost predicate MayWrite(st: State, ino: nat, lbn: nat, stray: nat, at: nat, data: Key, key: Key)
    requires Leads(st, ino, lbn, at)
  {
    && MayShare(st, ino, lbn, stray, at, key) && key == data
    && forall k :: 0 <= k < |st.table| && HasBlock(st.table[k], st.ptrs[at]) ==> st.table[k].count == 1
  }

  lemma OneKey(table: seq<Entry>, key: Key, k: nat, b: nat)
    requires Unique(table) && k < |table| && HasKey(table[k], key)
    ensures KeyAt(table, key, b) <==> table[k].blockptr == b
  {
    if KeyAt(table, key, b) {
      var j :| 0 <= j < |table| && HasKey(table[j], key) && table[j].blockptr == b;
    }
  }

  /** The key is not known: the word read enters the table. */
  lemma NewKey(st: State, ino: nat, lbn: nat, stray: nat, at: nat, data: Key, key: Key)
    requires Lawful(st) && Leads(st, ino, lbn, at) && HasRoom(st.table, key) && !KeyInTable(st.table, key)
    ensures var st' := Rewritten(st, ino, lbn, stray, at, data, key);
            && st'.ptrs == st.ptrs && FirstUnused(st.table) < |st.table|
            && st'.table == st.table[FirstUnused(st.table) := Active(1, Word(st, ino, lbn, stray), key)]
            && st'.content == st.content[st.ptrs[at] := data]
            && (Shared(st, st', at, key) <==>
                Word(st, ino, lbn, stray) == st.ptrs[at] && !InTable(st.table, st.ptrs[at]))
  {
    var k := FirstMatch(st.table, Some(key), None);
    assert k == |st.table| by {
      assert forall j :: 0 <= j < |st.table| ==> Matches(st.table[j], Some(key), None) == HasKey(st.table[j], key);
    }
    var f, b, oldblk := FirstUnused(st.table), st.ptrs[at], Word(st, ino, lbn, stray);
    var t := st.table[f := Active(1, oldblk, key)];
    assert HasKey(t[f], key) && HasBlock(t[f], oldblk);
    if Unique(t) {
      OneKey(t, key, f, b);
    }
    if oldblk == b {
      assert KeyAt(t, key, b);
      Referenced(st.ptrs, at);
      if InTable(st.table, b) {
        var j :| 0 <= j < |st.table| && HasBlock(st.table[j], b);
        assert HasBlock(t[j], t[f].blockptr);
      } else {
        EnterConserves(st.table, st.ptrs, st.inuse, f, b, key);
      }
    }
  }

  /** The key is known at the very block of the word read: a reference is counted that does not exist. */
  lemma KnownHere(st: State, ino: nat, lbn: nat, stray: nat, at: nat, data: Key, key: Key)
    requires Lawful(st) && Leads(st, ino, lbn, at) && KeyAt(st.table, key, Word(st, ino, lbn, stray))
    ensures !Shared(st, Rewritten(st, ino, lbn, stray, at, data, key), at, key)
  {
    var k := FirstMatch(st.table, Some(key), None);
    KnownFirst(st.table, key, Word(st, ino, lbn, stray));
    var t := Rewritten(st, ino, lbn, stray, at, data, key).table;
    assert Counts(st.table[k], st.ptrs);
    assert !Counts(t[k], st.ptrs);
  }

  lemma KnownFirst(table: seq<Entry>, key: Key, b: nat)
    requires Unique(table) && KeyAt(table, key, b)
    ensures var k := FirstMatch(table, Some(key), None); k < |table| && HasKey(table[k], key) && table[k].blockptr == b
    ensures KeyInTable(table, key)
  {
    var k := FirstMatch(table, Some(key), None);
    var j :| 0 <= j < |table| && HasKey(table[j], key) && table[j].blockptr == b;
    assert Matches(table[j], Some(key), None);
    OneKey(table, key, k, b);
  }

  /** The key is known at another block, but the word read is not the pointer to the data. */
  lemma KnownAstray(st: State, ino: nat, lbn: nat, stray: nat, at: nat, data: Key, key: Key, x: nat)
    requires Lawful(st) && Leads(st, ino, lbn, at) && lbn >= NDADDR
    requires KeyAt(st.table, key, x) && x != Word(st, ino, lbn, stray)
    ensures !Shared(st, Rewritten(st, ino, lbn, stray, at, data, key), at, key)
  {
    hide Holds;
    KnownFirst(st.table, key, x);
    var st' := Rewritten(st, ino, lbn, stray, at, data, key);
    if lbn < WORDS {
      assert st'.ptrs[Cell(ino, lbn)] == x;
    } else {
      var k := FirstMatch(st.table, Some(key), None);
      assert Counts(st.table[k], st.ptrs);
      assert HasBlock(Entered(st.table, key, stray).0[k], x) && st'.table[k] == Entered(st.table, key, stray).0[k];
      assert !Counts(st'.table[k], st.ptrs);
    }
  }

  /** The pointer leads to the block of entry k, which counts it; its old block is not yet released. */
  function Moved(st: State, at: nat, k: nat): State
    requires at < |st.ptrs| && k < |st.table| && st.table[k].Active?
  {
    st.(table := st.table[k := st.table[k].(count := (st.table[k].count + 1) % (MaxCount + 1))],
        ptrs := st.ptrs[at := st.table[k].blockptr])
  }

  lemma MovedConserves(st: State, at: nat, k: nat)
    requires Counted(st) && at < |st.ptrs| && k < |st.table| && st.table[k].Active? && st.table[k].count < MaxCount
    ensures Conserved(Moved(st, at, k).table, Moved(st, at, k).ptrs + [st.ptrs[at]], st.inuse)
  {
    hide Conserved;
    var x := st.table[k].blockptr;
    ShareConserves(st.table, st.ptrs, st.inuse, k);
    ReleasedRefs(st.ptrs, at, x);
    SameRefsConserve(Moved(st, at, k).table, st.ptrs + [x], st.ptrs[at := x] + [st.ptrs[at]], st.inuse);
  }

  /** One reference less. */
  function Less(e: Entry): Entry { if e.Active? && e.count > 1 then e.(count := e.count - 1) else Unused }

  /** The entries after the pointer moved to block x and block b was released. */
  ghost predicate MovedTable(table: seq<Entry>, t: seq<Entry>, key: Key, b: nat, x: nat) {
    && |t| == |table|
    && (forall j :: 0 <= j < |table| && !HasBlock(table[j], b) && !HasKey(table[j], key) ==> t[j] == table[j])
    && (forall j :: 0 <= j < |table| && HasKey(table[j], key) ==> HasKey(t[j], key) && HasBlock(t[j], x))
    && (Below(table, key) ==> forall j :: 0 <= j < |table| && HasBlock(table[j], b) ==>
          t[j] == Less(table[j]))
  }

  lemma MovedCounted(st: State, at: nat, k: nat)
    requires Counted(st) && at < |st.ptrs| && k < |st.table| && st.table[k].Active? && st.table[k].count < MaxCount
    requires st.ptrs[at] != 0 && st.table[k].blockptr != st.ptrs[at]
    ensures var st' := Given(Moved(st, at, k), st.ptrs[at]);
            && Counted(st') && |st'.table| == |st.table|
            && forall j :: 0 <= j < |st.table| && HasBlock(st.table[j], st.ptrs[at]) ==>
                 st'.table[j] == Less(st.table[j])
  {
    var b, st1 := st.ptrs[at], Moved(st, at, k);
    MovedConserves(st, at, k);
    GivenConserves(st1, b);
    forall j | 0 <= j < |st.table| && HasBlock(st.table[j], b)
      ensures Given(st1, b).table[j] == Less(st.table[j])
    {
      assert j != k && HasBlock(st1.table[j], b);
    }
  }

  lemma MovedEntries(st: State, key: Key, at: nat, k: nat)
    requires Counted(st) && at < |st.ptrs| && k < |st.table| && HasKey(st.table[k], key)
    requires st.ptrs[at] != 0 && st.table[k].blockptr != st.ptrs[at]
    ensures MovedTable(st.table, Given(Moved(st, at, k), st.ptrs[at]).table, key, st.ptrs[at], st.table[k].blockptr)
    ensures Below(st.table, key) ==> Counted(Given(Moved(st, at, k), st.ptrs[at]))
  {
    GivenKeeps(Moved(st, at, k), st.ptrs[at]);
    OnlyKey(st.table, key, k);
    assert forall j :: 0 <= j < |st.table| && HasKey(st.table[j], key) ==> j == k;
    if Below(st.table, key) {
      MovedCounted(st, at, k);
    }
  }

  /** The key is known at another block: the pointer changes and its own block is released. */
  lemma KnownElsewhere(st: State, ino: nat, lbn: nat, stray: nat, at: nat, data: Key, key: Key, x: nat)
    requires Lawful(st) && Leads(st, ino, lbn, at) && lbn < NDADDR && KeyAt(st.table, key, x) && x != st.ptrs[at]
    ensures var st' := Rewritten(st, ino, lbn, stray, at, data, key);
            && st'.ptrs == st.ptrs[at := x] && st'.content == st.content[st.ptrs[at] := data]
            && MovedTable(st.table, st'.table, key, st.ptrs[at], x)
            && (Shared(st, st', at, key) <==> Below(st.table, key))
  {
    KnownFirst(st.table, key, x);
    var k, b := FirstMatch(st.table, Some(key), None), st.ptrs[at];
    var c := st.(content := st.content[b := data]);
    var st' := Rewritten(st, ino, lbn, stray, at, data, key);
    assert st' == Given(Moved(c, at, k), b);
    MovedEntries(c, key, at, k);
    assert HasKey(st'.table[k], key) && HasBlock(st'.table[k], x);
    if !Below(st.table, key) {
      OnlyKey(st.table, key, k);
      GivenKeeps(Moved(c, at, k), b);
      assert Counts(st.table[k], st.ptrs) && !HasBlock(Moved(c, at, k).table[k], b);
      assert !Counts(st'.table[k], st'.ptrs);
    }
  }

  lemma OnlyKey(table: seq<Entry>, key: Key, k: nat)
    requires Unique(table) && k < |table| && HasKey(table[k], key)
    ensures Below(table, key) <==> table[k].count < MaxCount
  {
  }

  lemma GivenKeeps(st: State, b: nat)
    ensures Given(st, b).ptrs == st.ptrs && Given(st, b).content == st.content && |Given(st, b).table| == |st.table|
    ensures forall j :: 0 <= j < |st.table| && !HasBlock(st.table[j], b) ==> Given(st, b).table[j] == st.table[j]
  {
  }

  /** The write conserves references if and only if MayShare. */
  lemma ShareExact(st: State, ino: nat, lbn: nat, stray: nat, at: nat, data: Key, key: Key)
    requires Lawful(st) && Leads(st, ino, lbn, at) && HasRoom(st.table, key)
    ensures Shared(st, Rewritten(st, ino, lbn, stray, at, data, key), at, key) <==>
            MayShare(st, ino, lbn, stray, at, key)
  {
    hide Shared;
    var oldblk, b := Word(st, ino, lbn, stray), st.ptrs[at];
    if !KeyInTable(st.table, key) {
      NewKey(st, ino, lbn, stray, at, data, key);
      if NDADDR <= lbn < WORDS && oldblk == b {
        TwiceReferenced(st.ptrs, at, Cell(ino, lbn));
      }
    } else {
      var k :| 0 <= k < |st.table| && HasKey(st.table[k], key);
      OneKey(st.table, key, k, st.table[k].blockptr);
      ShareKnown(st, ino, lbn, stray, at, data, key, st.table[k].blockptr);
    }
  }

  lemma ShareKnown(st: State, ino: nat, lbn: nat, stray: nat, at: nat, data: Key, key: Key, x: nat)
    requires Lawful(st) && Leads(st, ino, lbn, at) && KeyInTable(st.table, key) && KeyAt(st.table, key, x)
    ensures Shared(st, Rewritten(st, ino, lbn, stray, at, data, key), at, key) <==>
            MayShare(st, ino, lbn, stray, at, key)
  {
    KnownFirst(st.table, key, x);
    OneKey(st.table, key, FirstMatch(st.table, Some(key), None), st.ptrs[at]);
    if x == Word(st, ino, lbn, stray) {
      KnownHere(st, ino, lbn, stray, at, data, key);
    } else if lbn < NDADDR {
      KnownElsewhere(st, ino, lbn, stray, at, data, key, x);
    } else {
      KnownAstray(st, ino, lbn, stray, at, data, key, x);
    }
  }

  /** The write makes all contents right as well if and only if MayWrite. */
  lemma WriteExact(st: State, ino: nat, lbn: nat, stray: nat, at: nat, data: Key, key: Key)
    requires Lawful(st) && Leads(st, ino, lbn, at) && HasRoom(st.table, key)
    ensures Done(st, Rewritten(st, ino, lbn, stray, at, data, key), at, data, key)
       <==> MayWrite(st, ino, lbn, stray, at, data, key)
  {
    ShareExact(st, ino, lbn, stray, at, data, key);
    if MayShare(st, ino, lbn, stray, at, key) {
      if !KeyInTable(st.table, key) {
        NewContents(st, ino, lbn, stray, at, data, key);
      } else {
        var k :| 0 <= k < |st.table| && HasKey(st.table[k], key);
        assert KeyAt(st.table, key, st.table[k].blockptr);
        KnownContents(st, ino, lbn, stray, at, data, key, st.table[k].blockptr);
      }
    }
  }

  /** Only this pointer leads to a block that is outside the table or has a count of 1. */
  lemma Unshared(st: State, at: nat)
    requires Lawful(st) && at < |st.ptrs| && st.ptrs[at] != 0
    requires forall k :: 0 <= k < |st.table| && HasBlock(st.table[k], st.ptrs[at]) ==> st.table[k].count == 1
    ensures forall s :: 0 <= s < |st.ptrs| && s != at ==> st.ptrs[s] != st.ptrs[at]
  {
    var b := st.ptrs[at];
    if InTable(st.table, b) {
      var k :| 0 <= k < |st.table| && HasBlock(st.table[k], b);
      assert Counts(st.table[k], st.ptrs);
    }
    if s :| 0 <= s < |st.ptrs| && s != at && st.ptrs[s] == b {
      TwiceReferenced(st.ptrs, at, s);
    }
  }

  lemma NewContents(st: State, ino: nat, lbn: nat, stray: nat, at: nat, data: Key, key: Key)
    requires Lawful(st) && Leads(st, ino, lbn, at) && HasRoom(st.table, key) && !KeyInTable(st.table, key)
    requires MayShare(st, ino, lbn, stray, at, key)
    requires Shared(st, Rewritten(st, ino, lbn, stray, at, data, key), at, key)
    ensures Done(st, Rewritten(st, ino, lbn, stray, at, data, key), at, data, key) <==> key == data
    ensures MayWrite(st, ino, lbn, stray, at, data, key) <==> key == data
  {
    NewKey(st, ino, lbn, stray, at, data, key);
    Unshared(st, at);
    var st', f := Rewritten(st, ino, lbn, stray, at, data, key), FirstUnused(st.table);
    assert st'.table[f] == Active(1, st.ptrs[at], key);
    forall j | 0 <= j < |st.table| && j != f && st.table[j].Active?
      ensures Holds(st'.content, st'.table[j].blockptr) == st'.table[j].key
    {
      assert !HasBlock(st.table[j], st.ptrs[at]);
    }
  }

  lemma KnownContents(st: State, ino: nat, lbn: nat, stray: nat, at: nat, data: Key, key: Key, x: nat)
    requires Lawful(st) && Leads(st, ino, lbn, at) && KeyAt(st.table, key, x) && KeyInTable(st.table, key)
    requires MayShare(st, ino, lbn, stray, at, key)
    requires Shared(st, Rewritten(st, ino, lbn, stray, at, data, key), at, key)
    ensures Done(st, Rewritten(st, ino, lbn, stray, at, data, key), at, data, key)
       <==> MayWrite(st, ino, lbn, stray, at, data, key)
  {
    var st' := Rewritten(st, ino, lbn, stray, at, data, key);
    KnownElsewhere(st, ino, lbn, stray, at, data, key, x);
    KnownFirst(st.table, key, x);
    if MayWrite(st, ino, lbn, stray, at, data, key) {
      Unshared(st, at);
      MovedTruthful(st.table, st'.table, st.content, key, st.ptrs[at], x);
    } else if key == data {
      var j :| 0 <= j < |st.table| && HasBlock(st.table[j], st.ptrs[at]) && st.table[j].count != 1;
      assert Counts(st.table[j], st.ptrs);
      MovedFalse(st.table, st'.table, st.content, key, st.ptrs[at], x);
    }
  }

  /** The table stays true if the block that is overwritten leaves it. */
  lemma MovedTruthful(table: seq<Entry>, t: seq<Entry>, content: map<nat, Key>, key: Key, b: nat, x: nat)
    requires MovedTable(table, t, key, b, x) && Below(table, key) && Truthful(table, content) && KeyAt(table, key, x)
             && x != b
    requires forall j :: 0 <= j < |table| && HasBlock(table[j], b) ==> table[j].count == 1
    ensures Truthful(t, content[b := key]) && Holds(content, x) == key
  {
    forall j | 0 <= j < |t| && t[j].Active?
      ensures Holds(content[b := key], t[j].blockptr) == t[j].key
    {
      assert !HasBlock(table[j], b);
    }
  }

  /** An entry that stays for the block that is overwritten is false. */
  lemma MovedFalse(table: seq<Entry>, t: seq<Entry>, content: map<nat, Key>, key: Key, b: nat, x: nat)
    requires MovedTable(table, t, key, b, x) && Below(table, key) && !KeyAt(table, key, b)
    requires exists j :: 0 <= j < |table| && HasBlock(table[j], b) && table[j].count > 1
    ensures !Truthful(t, content[b := key])
  {
    var j :| 0 <= j < |table| && HasBlock(table[j], b) && table[j].count > 1;
    assert !HasKey(table[j], key) && t[j] == Less(table[j]);
  }

  // ---- writes that break the law

  /** A volume without files. */
  function Fresh(files: nat, slots: nat, entries: nat): (st: State)
    requires files * WORDS <= slots
    ensures |st.ptrs| == slots && |st.table| == entries
  {
    State(files, seq(entries, i => Unused), seq(slots, i => 0), {}, map[])
  }

  lemma FreshLawful(files: nat, slots: nat, entries: nat)
    requires files * WORDS <= slots
    ensures Lawful(Fresh(files, slots, entries))
  {
    var st := Fresh(files, slots, entries);
    forall b | b != 0
      ensures References(st.ptrs, b) == 0
    {
      NoneThere(st.ptrs, b);
    }
  }

  /** A file gets a new block of its own. */
  function Allocated(st: State, at: nat, b: nat, data: Key): State
    requires at < |st.ptrs|
  {
    st.(ptrs := st.ptrs[at := b], inuse := st.inuse + {b}, content := st.content[b := data])
  }

  lemma AllocatedLawful(st: State, at: nat, b: nat, data: Key)
    requires Lawful(st) && at < |st.ptrs| && st.ptrs[at] == 0 && b != 0 && b !in st.inuse
    ensures Lawful(Allocated(st, at, b, data))
    ensures forall s :: 0 <= s < |st.ptrs| ==> st.ptrs[s] != b
  {
    AllocateConserves(st.table, st.ptrs, st.inuse, at, b);
    forall s | 0 <= s < |st.ptrs|
      ensures st.ptrs[s] != b
    {
      Referenced(st.ptrs, s);
    }
    forall k | 0 <= k < |st.table| && st.table[k].Active?
      ensures st.table[k].blockptr != b
    {
      assert Counts(st.table[k], st.ptrs);
    }
  }

  /**
   * A file of one block with contents 7 is written twice with the same contents: the first write enters
   * the block with a count of 1, the second leaves a count of 2 for the one pointer.
   */
  lemma RewriteLeaks() returns (st: State, st1: State, st2: State)
    ensures st == Allocated(Fresh(1, WORDS, 1), 0, 5, 0) && Lawful(st) && HasRoom(st.table, 7)
    ensures st1 == Rewritten(st, 0, 0, 0, 0, 7, 7) && Lawful(st1) && st1.table == [Active(1, 5, 7)]
            && HasRoom(st1.table, 7)
    ensures st2 == Rewritten(st1, 0, 0, 0, 0, 7, 7) && !Counted(st2) && st2.table == [Active(2, 5, 7)]
  {
    st, st1 := FirstWrite();
    KnownFirst(st1.table, 7, 5);
    st2 := Rewritten(st1, 0, 0, 0, 0, 7, 7);
    assert Counts(st1.table[0], st1.ptrs) && !Counts(st2.table[0], st2.ptrs);
  }

  lemma FirstWrite() returns (st: State, st1: State)
    ensures st == Allocated(Fresh(1, WORDS, 1), 0, 5, 0) && Lawful(st) && HasRoom(st.table, 7)
    ensures st1 == Rewritten(st, 0, 0, 0, 0, 7, 7) && Lawful(st1) && st1.table == [Active(1, 5, 7)]
            && st1.ptrs == st.ptrs
    ensures KeyAt(st1.table, 7, 5) && HasRoom(st1.table, 7) && st1.files == 1
  {
    FreshLawful(1, WORDS, 1);
    var st0 := Fresh(1, WORDS, 1);
    AllocatedLawful(st0, 0, 5, 0);
    st := Allocated(st0, 0, 5, 0);
    assert st.table[0] == Unused;
    NewKey(st, 0, 0, 0, 0, 7, 7);
    assert FirstUnused(st.table) == 0;
    st1 := Rewritten(st, 0, 0, 0, 0, 7, 7);
    WriteExact(st, 0, 0, 0, 0, 7, 7);
    assert HasKey(st1.table[0], 7);
  }

  /**
   * Past the direct pointers the write takes an indirect block for the data block: with new contents the
   * indirect block is entered under their key, and with known ones its pointer is replaced and it is freed.
   */
  lemma IndirectTaken(st: State, ino: nat, lbn: nat, at: nat, data: Key, key: Key)
    requires Lawful(st) && Leads(st, ino, lbn, at) && HasRoom(st.table, key) && NDADDR <= lbn < WORDS
    requires var b := st.ptrs[Cell(ino, lbn)]; b != 0 && !InTable(st.table, b)
    ensures var b := st.ptrs[Cell(ino, lbn)]; var st' := Rewritten(st, ino, lbn, 0, at, data, key);
            && !Shared(st, st', at, key)
            && (!KeyInTable(st.table, key) ==> KeyAt(st'.table, key, b))
            && (forall x :: KeyAt(st.table, key, x) ==>
                  st'.ptrs == st.ptrs[Cell(ino, lbn) := x] && st'.inuse == st.inuse - {b})
  {
    hide HasRoom;
    var b, st' := st.ptrs[Cell(ino, lbn)], Rewritten(st, ino, lbn, 0, at, data, key);
    ShareExact(st, ino, lbn, 0, at, data, key);
    if !KeyInTable(st.table, key) {
      NewKey(st, ino, lbn, 0, at, data, key);
      assert HasKey(st'.table[FirstUnused(st.table)], key);
    }
    forall x | KeyAt(st.table, key, x)
      ensures st'.ptrs == st.ptrs[Cell(ino, lbn) := x] && st'.inuse == st.inuse - {b}
    {
      KnownFirst(st.table, key, x);
      var t := Entered(st.table, key, b).0;
      forall j | 0 <= j < |t|
        ensures !Matches(t[j], None, Some(b))
      {
        assert !HasBlock(st.table[j], b);
      }
    }
  }

  /** The first block past the direct pointers: an input of a new file system for which this happens. */
  lemma TwelfthBlockLost() returns (st: State, st': State)
    ensures Lawful(st) && Leads(st, 0, NDADDR, WORDS) && st.ptrs[NDADDR] == 9 && st.ptrs[WORDS] == 5
    ensures HasRoom(st.table, 7)
    ensures st' == Rewritten(st, 0, NDADDR, 0, WORDS, 7, 7) && st'.table == [Active(1, 9, 7)]
    ensures !Shared(st, st', WORDS, 7)
  {
    FreshLawful(1, WORDS + 1, 1);
    var st0 := Fresh(1, WORDS + 1, 1);
    AllocatedLawful(st0, NDADDR, 9, 0);
    var st1 := Allocated(st0, NDADDR, 9, 0);
    AllocatedLawful(st1, WORDS, 5, 0);
    st := Allocated(st1, WORDS, 5, 0);
    assert st.table[0] == Unused;
    NewKey(st, 0, NDADDR, 0, WORDS, 7, 7);
    assert FirstUnused(st.table) == 0;
    ShareExact(st, 0, NDADDR, 0, WORDS, 7, 7);
    st' := Rewritten(st, 0, NDADDR, 0, WORDS, 7, 7);
  }

  /** Writing known contents to a shared block changes what its other pointers read, and its entry is false. */
  lemma SharedOverwritten(st: State, ino: nat, lbn: nat, at: nat, key: Key, x: nat, k: nat, s: nat)
    requires Lawful(st) && Leads(st, ino, lbn, at) && lbn < NDADDR && Below(st.table, key)
    requires KeyAt(st.table, key, x) && x != st.ptrs[at] && k < |st.table| && HasBlock(st.table[k], st.ptrs[at])
    requires s < |st.ptrs| && s != at && st.ptrs[s] == st.ptrs[at]
    ensures var st' := Rewritten(st, ino, lbn, 0, at, key, key);
            && Counted(st') && st'.ptrs == st.ptrs[at := x]
            && Holds(st'.content, st'.ptrs[s]) == key != Holds(st.content, st.ptrs[s])
            && HasBlock(st'.table[k], st'.ptrs[s]) && st'.table[k].key != key
  {
    KnownElsewhere(st, ino, lbn, 0, at, key, key, x);
    TwiceReferenced(st.ptrs, at, s);
    assert Counts(st.table[k], st.ptrs);
    KnownFirst(st.table, key, x);
  }

  /** Inodes and indirect blocks with their pointers, the table, the blocks in use and their contents. */
  class Volume {
    const files: nat
    var ptrs: seq<nat>
    var table: seq<Entry>
    var inuse: set<nat>
    var content: map<nat, Key>
    ghost var written: seq<Key> // what was last written through each pointer

    ghost function Now(): State
      reads this
    {
      State(files, table, ptrs, inuse, content)
    }

    ghost predicate Valid()
      reads this
    {
      && Lawful(Now()) && |written| == |ptrs|
      && forall s :: 0 <= s < |ptrs| && ptrs[s] != 0 ==> Holds(content, ptrs[s]) == written[s]
    }

    /** A volume without files. */
    constructor (files: nat, slots: nat, entries: nat)
      requires files * WORDS <= slots
      ensures Valid() && Now() == Fresh(files, slots, entries)
    {
      this.files := files;
      ptrs, table, inuse, content := seq(slots, i => 0), seq(entries, i => Unused), {}, map[];
      written := seq(slots, i => 0);
      new;
      FreshLawful(files, slots, entries);
    }

    /** A file gets a new block of its own, with some contents. */
    method Allocate(at: nat, b: nat, data: Key)
      requires Valid() && at < |ptrs| && ptrs[at] == 0 && b != 0 && b !in inuse
      modifies this
      ensures Valid() && Now() == Allocated(old(Now()), at, b, data) && written == old(written)[at := data]
    {
      AllocatedLawful(Now(), at, b, data);
      ptrs, inuse, content, written := ptrs[at := b], inuse + {b}, content[b := data], written[at := data];
    }

    /** A file gives up a block: the block is freed when this was the last pointer to it. */
    method Free(at: nat) returns (freed: bool)
      requires Valid() && at < |ptrs| && ptrs[at] != 0
      modifies this
      ensures Valid() && ptrs == old(ptrs)[at := 0] && written == old(written) && content == old(content)
      ensures freed <==> References(ptrs, old(ptrs)[at]) == 0
      ensures inuse == if freed then old(inuse) - {old(ptrs)[at]} else old(inuse)
    {
      var b := ptrs[at];
      ReleasedRefs(ptrs, at, 0);
      NoRefs(ptrs);
      SameRefsConserve(table, ptrs, ptrs[at := 0] + [b], inuse);
      var st := State(files, table, ptrs[at := 0], inuse, content);
      GivenTruthful(st, b);
      st, freed := BlkFree(st, b);
      table, ptrs, inuse := st.table, st.ptrs, st.inuse;
    }

    /** The write path, for the writes that keep the law: all pointers read what was last written through them. */
    method Write(ino: nat, lbn: nat, stray: nat, at: nat, data: Key, key: Key)
      requires Valid() && Leads(Now(), ino, lbn, at) && HasRoom(table, key)
      requires MayWrite(Now(), ino, lbn, stray, at, data, key)
      modifies this
      ensures Valid() && Now() == Rewritten(old(Now()), ino, lbn, stray, at, data, key)
      ensures written == old(written)[at := data] && KeyAt(table, key, ptrs[at])
    {
      var st := WriteBlock(State(files, table, ptrs, inuse, content), ino, lbn, stray, at, data, key);
      WrittenKept(Now(), st, at, data, key, written);
      table, ptrs, inuse, content, written := st.table, st.ptrs, st.inuse, st.content, written[at := data];
    }
  }

  lemma GivenTruthful(st: State, b: nat)
    requires Truthful(st.table, st.content)
    ensures Truthful(Given(st, b).table, Given(st, b).content)
  {
  }

  /** After a write that keeps the law every pointer reads what was last written through it. */
  lemma WrittenKept(st: State, st': State, at: nat, data: Key, key: Key, written: seq<Key>)
    requires Lawful(st) && at < |st.ptrs| == |written| && Done(st, st', at, data, key) && st'.files == st.files
    requires forall s :: 0 <= s < |st.ptrs| && st.ptrs[s] != 0 ==> Holds(st.content, st.ptrs[s]) == written[s]
    ensures Lawful(st')
    ensures var w := written[at := data]; forall s :: 0 <= s < |st'.ptrs| && st'.ptrs[s] != 0 ==>
                                            Holds(st'.content, st'.ptrs[s]) == w[s]
  {
  }
}
