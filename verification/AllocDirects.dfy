// Allocation dependencies: records that a block pointer of an inode is about to change, kept
// sorted by pointer slot in the lists id_inoupdt and id_newinoupdt (or their extended-attribute
// twins), and the edits that undo and redo them in the buffer around a disk write.
module AllocDirects {
  import opened Basics

  /** What a block pointer names: the block's address and its size in bytes; no block is (0, 0). */
  datatype Extent = Extent(blk: nat, size: nat)

  const NoBlock := Extent(0, 0)

  /**
   * struct allocdirect.  was and now are ad_oldblkno/ad_oldsize and ad_newblkno/ad_newsize;
   * written, mapped and attached are the state bits COMPLETE (contents on disk), DEPCOMPLETE (free
   * map on disk) and ATTACHED (not rolled back in the buffer); freefrag is the extent to free once
   * the change is on disk.
   */
  datatype AllocDirect = AllocDirect(slot: nat, was: Extent, now: Extent, freefrag: Option<Extent>,
                                     written: bool, mapped: bool, attached: bool)
  {
    predicate AllComplete() { attached && written && mapped }

    /** The change needs both the new contents and the new free map on disk. */
    predicate Done() { written && mapped }
  }

  /** A fragment, not a whole block: the test the code makes on ad_oldsize. */
  predicate IsFrag(e: Extent, bsize: nat): (r: bool)
    ensures e.size <= bsize ==> r == (0 < e.size < bsize)
  {
    e.size != 0 && e.size != bsize
  }

  predicate Sorted(list: seq<AllocDirect>) {
    forall i, j :: 0 <= i < j < |list| ==> list[i].slot < list[j].slot
  }

  predicate HasSlot(list: seq<AllocDirect>, slot: nat) { exists k :: 0 <= k < |list| && list[k].slot == slot }

  /** A fragment is only ever the last block: nothing is allocated in the slots after it. */
  predicate FragLast(slots: seq<Extent>, bsize: nat) {
    forall i :: 0 <= i < |slots| && IsFrag(slots[i], bsize) ==> EmptyAfter(slots, i)
  }

  predicate EmptyAfter(slots: seq<Extent>, i: nat) {
    forall j :: i < j < |slots| ==> slots[j] == NoBlock
  }

  /** The file size ends inside its last fragment, if the file has one. */
  predicate SizeFits(slots: seq<Extent>, bsize: nat, size: nat) {
    forall i :: 0 <= i < |slots| && IsFrag(slots[i], bsize) ==> size <= bsize * i + slots[i].size
  }

  function Blocks(slots: seq<Extent>): (r: seq<nat>)
    ensures |r| == |slots| && forall i :: 0 <= i < |r| ==> r[i] == slots[i].blk
  {
    seq(|slots|, i requires 0 <= i < |slots| => slots[i].blk)
  }

  /** The record describes a real change of a slot; indirect slots (nd and up) only ever start empty. */
  predicate WellFormed(r: AllocDirect, nd: nat) {
    && r.now.blk != 0 && r.now.size != 0
    && (r.was.blk == 0 <==> r.was.size == 0)
    && (r.slot >= nd ==> r.was == NoBlock)
  }

  /** The record takes its slot from what base holds to what slots holds. */
  predicate Change(r: AllocDirect, nd: nat, base: seq<Extent>, slots: seq<Extent>) {
    && WellFormed(r, nd) && r.slot < |base| && r.slot < |slots|
    && base[r.slot] == r.was && slots[r.slot] == r.now
  }

  /** The list is the whole difference between base and slots, in slot order. */
  predicate Records(list: seq<AllocDirect>, nd: nat, base: seq<Extent>, slots: seq<Extent>) {
    && Sorted(list)
    && |base| == |slots|
    && (forall k :: 0 <= k < |list| ==> Change(list[k], nd, base, slots))
    && (forall i :: 0 <= i < |slots| && !HasSlot(list, i) ==> base[i] == slots[i])
  }

  lemma Gap(list: seq<AllocDirect>, k: nat, i: nat)
    requires Sorted(list) && k <= |list|
    requires k > 0 ==> list[k - 1].slot < i
    requires k < |list| ==> i < list[k].slot
    ensures !HasSlot(list, i)
  {
    forall j | 0 <= j < |list|
      ensures list[j].slot != i
    {
      assert j < k - 1 ==> list[j].slot < list[k - 1].slot;
      assert k < j ==> list[k].slot < list[j].slot;
    }
  }

  /** The pointers while the records before k have been undone. */
  predicate PartlyUndone(ptrs: seq<nat>, list: seq<AllocDirect>, k: nat, base: seq<Extent>, slots: seq<Extent>) {
    && |ptrs| == |base| == |slots| && k <= |list|
    && (forall i :: 0 <= i < |ptrs| && (k < |list| ==> i < list[k].slot) ==> ptrs[i] == base[i].blk)
    && (forall i :: 0 <= i < |ptrs| && k < |list| && list[k].slot <= i ==> ptrs[i] == slots[i].blk)
  }

  lemma UndoNext(ptrs: seq<nat>, list: seq<AllocDirect>, k: nat, nd: nat, base: seq<Extent>, slots: seq<Extent>)
    requires Records(list, nd, base, slots) && k < |list|
    requires PartlyUndone(ptrs, list, k, base, slots)
    ensures PartlyUndone(ptrs[list[k].slot := list[k].was.blk], list, k + 1, base, slots)
  {
    forall i | list[k].slot < i < |ptrs| && (k + 1 < |list| ==> i < list[k + 1].slot)
      ensures base[i] == slots[i]
    {
      Gap(list, k + 1, i);
    }
    assert k + 1 < |list| ==> list[k].slot < list[k + 1].slot;
  }

  lemma UndoNone(ptrs: seq<nat>, list: seq<AllocDirect>, nd: nat, base: seq<Extent>, slots: seq<Extent>)
    requires Records(list, nd, base, slots) && ptrs == Blocks(slots)
    ensures PartlyUndone(ptrs, list, 0, base, slots)
  {
    forall i | 0 <= i < |ptrs| && (0 < |list| ==> i < list[0].slot)
      ensures base[i] == slots[i]
    {
      Gap(list, 0, i);
    }
  }

  /** The loop that marks every record busy, with its consistency tests. */
  method Detach(list: seq<AllocDirect>, ptrs: array<nat>, nd: nat, ghost base: seq<Extent>, ghost slots: seq<Extent>)
    returns (busy: seq<AllocDirect>, deplist: set<nat>)
    requires Records(list, nd, base, slots) && ptrs[..] == Blocks(slots)
    requires forall k :: 0 <= k < |list| ==> list[k].attached
    ensures busy == WithAttached(list, false)
    ensures forall s :: s in deplist <==> HasSlot(list, s)
  {
    busy, deplist := [], {};
    var k := 0;
    var prevlbn := 0;
    while k < |list|
      invariant k <= |list|
      invariant busy == WithAttached(list[..k], false)
      invariant forall s :: s in deplist <==> exists j :: 0 <= j < k && list[j].slot == s
      invariant k > 0 ==> prevlbn == list[k - 1].slot
    {
      var r := list[k];
      assert deplist == {} || prevlbn < r.slot; // panic: lbn order
      prevlbn := r.slot;
      assert ptrs[..][r.slot] == r.now.blk; // panic: pointer mismatch
      assert r.attached; // panic: unknown state
      deplist := deplist + {r.slot};
      busy := busy + [r.(attached := false)];
      k := k + 1;
    }
    assert list[..k] == list;
  }

  function WithAttached(list: seq<AllocDirect>, attached: bool): (r: seq<AllocDirect>)
    ensures |r| == |list| && forall k :: 0 <= k < |r| ==> r[k] == list[k].(attached := attached)
  {
    seq(|list|, k requires 0 <= k < |list| => list[k].(attached := attached))
  }

  lemma SameRecords(list: seq<AllocDirect>, attached: bool, nd: nat, base: seq<Extent>, slots: seq<Extent>)
    requires Records(list, nd, base, slots)
    ensures Records(WithAttached(list, attached), nd, base, slots)
  {
    var r := WithAttached(list, attached);
    forall i: nat
      ensures HasSlot(r, i) == HasSlot(list, i)
    {
      if HasSlot(list, i) {
        var k :| 0 <= k < |list| && list[k].slot == i;
        assert r[k].slot == i;
      }
    }
  }

  /** No record before k would roll its slot back to a fragment. */
  predicate NoFragBefore(list: seq<AllocDirect>, k: nat, bsize: nat) {
    k <= |list| && forall j :: 0 <= j < k ==> !IsFrag(list[j].was, bsize)
  }

  /** Zero the pointers after a fragment that was rolled back; none of them can lack a record. */
  method ZeroAfter(ptrs: array<nat>, slot: nat, ghost base: seq<Extent>, ghost slots: seq<Extent>,
                   list: seq<AllocDirect>, deplist: set<nat>, nd: nat, bsize: nat, ghost k: nat)
    modifies ptrs
    requires Records(list, nd, base, slots) && k < |list| && list[k].slot == slot < nd <= |slots|
    requires IsFrag(list[k].was, bsize) && FragLast(base, bsize)
    requires PartlyUndone(ptrs[..], list, k + 1, base, slots)
    requires forall s :: s in deplist <==> HasSlot(list, s)
    ensures ptrs[..] == Blocks(base)
  {
    var i := slot + 1;
    while i < ptrs.Length
      invariant slot < i <= ptrs.Length
      invariant forall j :: 0 <= j < i ==> ptrs[j] == base[j].blk
      invariant forall j :: i <= j < ptrs.Length ==> ptrs[j] == base[j].blk || ptrs[j] == slots[j].blk
    {
      assert base[i] == NoBlock;
      assert ptrs[i] == 0 || i in deplist; // panics: lost dep
      ptrs[i] := 0;
      i := i + 1;
    }
  }

  /** The size a file of only whole blocks shrinks to: up to the last block still allocated. */
  method ShrinkSize(ptrs: array<nat>, last: nat, bsize: nat) returns (size: nat, ghost e: nat)
    requires last < ptrs.Length
    ensures e <= last + 1 && size == e * bsize && (e > 0 ==> ptrs[e - 1] != 0)
    ensures forall j :: e <= j <= last ==> ptrs[j] == 0
  {
    var i := last + 1;
    while i > 0 && ptrs[i - 1] == 0
      invariant 0 <= i <= last + 1
      invariant forall j :: i <= j <= last ==> ptrs[j] == 0
    {
      i := i - 1;
    }
    size, e := i * bsize, i;
  }

  /** A record of a slot that holds a block sits before any fragment among the unchanged slots. */
  lemma FragAfter(list: seq<AllocDirect>, nd: nat, base: seq<Extent>, slots: seq<Extent>, bsize: nat, k: nat, f: nat)
    requires Records(list, nd, base, slots) && FragLast(slots, bsize)
    requires k < |list| && NoFragBefore(list, k + 1, bsize)
    requires f < |base| && IsFrag(base[f], bsize)
    requires forall j :: k < j < |list| ==> list[j].was == NoBlock
    ensures slots[f] == base[f] && list[k].slot < f
  {
    assert forall j :: 0 <= j < |list| ==> base[list[j].slot] == list[j].was && !IsFrag(list[j].was, bsize);
    assert slots[list[k].slot] == list[k].now;
  }

  lemma ShrunkFits(list: seq<AllocDirect>, nd: nat, base: seq<Extent>, slots: seq<Extent>, bsize: nat, k: nat,
                   e: nat, size: nat)
    requires Records(list, nd, base, slots) && FragLast(slots, bsize)
    requires k < |list| && NoFragBefore(list, k + 1, bsize)
    requires forall j :: k < j < |list| ==> list[j].was == NoBlock
    requires e <= list[k].slot + 1 && size == e * bsize
    ensures SizeFits(base, bsize, size)
  {
    forall f | 0 <= f < |base| && IsFrag(base[f], bsize)
      ensures size <= bsize * f + base[f].size
    {
      FragAfter(list, nd, base, slots, bsize, k, f);
      Scale(e, f, bsize);
      assert f * bsize == bsize * f;
    }
  }

  /** Record k is the last one of a direct slot. */
  predicate LastDirect(list: seq<AllocDirect>, nd: nat, k: nat) {
    k < |list| && list[k].slot < nd && (k + 1 < |list| ==> list[k + 1].slot >= nd)
  }

  /** Of the slots up to last, those from e on are empty and the one before them is not. */
  predicate EndsBefore(base: seq<Extent>, e: nat, last: nat) {
    && last < |base| && e <= last + 1 && (e > 0 ==> base[e - 1].blk != 0)
    && forall i :: e <= i <= last ==> base[i].blk == 0
  }

  /**
   * The size in the image: a slot that goes back to a fragment ends the file; otherwise, if the file
   * ended within the last direct slot with a record or before, it ends with the last block that is left
   * up to there, and else the size is as it was.
   */
  predicate ImageSize(list: seq<AllocDirect>, nd: nat, bsize: nat, base: seq<Extent>, size: nat, newSize: nat) {
    && (forall k :: 0 <= k < |list| && IsFrag(list[k].was, bsize) ==>
          newSize == bsize * list[k].slot + list[k].was.size)
    && (NoFragBefore(list, |list|, bsize) ==>
          && ((forall k :: 0 <= k < |list| ==> list[k].slot >= nd) ==> newSize == size)
          && forall k :: 0 <= k < |list| && LastDirect(list, nd, k) ==>
               TrimmedSize(base, list[k].slot, bsize, size, newSize))
  }

  predicate TrimmedSize(base: seq<Extent>, last: nat, bsize: nat, size: nat, newSize: nat) {
    if size > (last + 1) * bsize then newSize == size
    else exists e | 0 <= e <= last + 1 :: EndsBefore(base, e, last) && newSize == e * bsize
  }

  /** With no fragment rolled back, the fragments of base are those of slots. */
  lemma KeptFits(list: seq<AllocDirect>, nd: nat, base: seq<Extent>, slots: seq<Extent>, bsize: nat, size: nat)
    requires Records(list, nd, base, slots) && SizeFits(slots, bsize, size)
    requires forall j :: 0 <= j < |list| ==> !IsFrag(list[j].was, bsize)
    ensures SizeFits(base, bsize, size)
  {
    assert forall j :: 0 <= j < |list| ==> base[list[j].slot] == list[j].was;
    assert forall f :: 0 <= f < |base| && IsFrag(base[f], bsize) ==> !HasSlot(list, f);
  }

  /** A rolled-back fragment is the only one, and the size ends with it. */
  lemma FragFits(base: seq<Extent>, bsize: nat, slot: nat)
    requires FragLast(base, bsize) && slot < |base| && IsFrag(base[slot], bsize)
    ensures SizeFits(base, bsize, bsize * slot + base[slot].size)
  {
  }

  /**
   * The pointer rollback of initiate_write_inodeblock_ufs2: every changed slot goes back to what it
   * held before, so the image is exactly base; a slot that goes back to a fragment ends the file.
   */
  method Rollback(list: seq<AllocDirect>, ptrs: array<nat>, size: nat, nd: nat, bsize: nat,
                  ghost base: seq<Extent>, ghost slots: seq<Extent>)
    returns (busy: seq<AllocDirect>, newSize: nat)
    modifies ptrs
    requires Records(list, nd, base, slots) && nd <= |slots|
    requires forall k :: 0 <= k < |list| ==> list[k].attached
    requires FragLast(base, bsize) && FragLast(slots, bsize) && SizeFits(slots, bsize, size)
    requires ptrs[..] == Blocks(slots)
    ensures busy == WithAttached(list, false)
    ensures ptrs[..] == Blocks(base)
    ensures SizeFits(base, bsize, newSize) && ImageSize(list, nd, bsize, base, size, newSize)
  {
    var deplist;
    busy, deplist := Detach(list, ptrs, nd, base, slots);
    var k, frag := UndoDirects(list, ptrs, nd, bsize, base, slots);
    if frag {
      newSize := bsize * list[k].slot + list[k].was.size;
      ZeroAfter(ptrs, list[k].slot, base, slots, list, deplist, nd, bsize, k);
      FragFits(base, bsize, list[k].slot);
      OneFrag(list, nd, base, slots, bsize, k);
    } else {
      newSize := TrimSize(list, ptrs, size, nd, bsize, k, base, slots);
      UndoIndirects(list, ptrs, k, nd, base, slots);
    }
  }

  /** The loop over the direct slots; it stops at the first record that rolls back to a fragment. */
  method UndoDirects(list: seq<AllocDirect>, ptrs: array<nat>, nd: nat, bsize: nat,
                     ghost base: seq<Extent>, ghost slots: seq<Extent>) returns (k: nat, frag: bool)
    modifies ptrs
    requires Records(list, nd, base, slots) && nd <= |slots| && ptrs[..] == Blocks(slots)
    ensures NoFragBefore(list, k, bsize)
    ensures frag ==> k < |list| && list[k].slot < nd && IsFrag(list[k].was, bsize)
    ensures !frag ==> (forall j :: k <= j < |list| ==> list[j].slot >= nd && list[j].was == NoBlock)
    ensures forall j :: 0 <= j < k ==> list[j].slot < nd
    ensures PartlyUndone(ptrs[..], list, if frag then k + 1 else k, base, slots)
  {
    hide PartlyUndone;
    k := 0;
    UndoNone(ptrs[..], list, nd, base, slots);
    while k < |list| && list[k].slot < nd
      invariant k <= |list| && NoFragBefore(list, k, bsize) && forall j :: 0 <= j < k ==> list[j].slot < nd
      invariant PartlyUndone(ptrs[..], list, k, base, slots)
    {
      UndoNext(ptrs[..], list, k, nd, base, slots);
      ptrs[list[k].slot] := list[k].was.blk;
      if IsFrag(list[k].was, bsize) {
        return k, true;
      }
      k := k + 1;
    }
    Tail(list, k, nd);
    frag := false;
  }

  /** The size when no fragment was rolled back. */
  method TrimSize(list: seq<AllocDirect>, ptrs: array<nat>, size: nat, nd: nat, bsize: nat, k: nat,
                  ghost base: seq<Extent>, ghost slots: seq<Extent>) returns (newSize: nat)
    requires Records(list, nd, base, slots) && nd <= |slots| && ptrs.Length == |slots|
    requires NoFragBefore(list, k, bsize)
    requires forall j :: k <= j < |list| ==> list[j].slot >= nd && list[j].was == NoBlock
    requires forall j :: 0 <= j < k ==> list[j].slot < nd
    requires PartlyUndone(ptrs[..], list, k, base, slots)
    requires FragLast(slots, bsize) && SizeFits(slots, bsize, size)
    ensures SizeFits(base, bsize, newSize) && ImageSize(list, nd, bsize, base, size, newSize)
  {
    hide ImageSize, SizeFits, FragLast;
    newSize := size;
    KeptFits(list, nd, base, slots, bsize, newSize);
    if k > 0 && newSize <= (list[k - 1].slot + 1) * bsize {
      ghost var e: nat;
      newSize, e := ShrinkSize(ptrs, list[k - 1].slot, bsize);
      ShrunkFits(list, nd, base, slots, bsize, k - 1, e, newSize);
      BeforeUndone(ptrs[..], list, k, base, slots);
      assert EndsBefore(base, e, list[k - 1].slot);
    }
    TrimmedImage(list, k, nd, bsize, base, size, newSize);
  }

  lemma BeforeUndone(ptrs: seq<nat>, list: seq<AllocDirect>, k: nat, base: seq<Extent>, slots: seq<Extent>)
    requires PartlyUndone(ptrs, list, k, base, slots) && 0 < k && Sorted(list) && list[k - 1].slot < |ptrs|
    ensures forall i :: 0 <= i <= list[k - 1].slot ==> ptrs[i] == base[i].blk
  {
    assert k < |list| ==> list[k - 1].slot < list[k].slot;
  }

  lemma TrimmedImage(list: seq<AllocDirect>, k: nat, nd: nat, bsize: nat, base: seq<Extent>, size: nat, newSize: nat)
    requires NoFragBefore(list, k, bsize)
    requires forall j :: k <= j < |list| ==> list[j].slot >= nd && list[j].was == NoBlock
    requires forall j :: 0 <= j < k ==> list[j].slot < nd
    requires if k == 0 then newSize == size else TrimmedSize(base, list[k - 1].slot, bsize, size, newSize)
    ensures ImageSize(list, nd, bsize, base, size, newSize)
  {
    forall j | 0 <= j < |list| && LastDirect(list, nd, j)
      ensures j == k - 1
    {
      assert j < k;
    }
  }

  /** The loop over the indirect slots that are left. */
  method UndoIndirects(list: seq<AllocDirect>, ptrs: array<nat>, from: nat, nd: nat,
                       ghost base: seq<Extent>, ghost slots: seq<Extent>)
    modifies ptrs
    requires Records(list, nd, base, slots) && PartlyUndone(ptrs[..], list, from, base, slots)
    requires forall j :: from <= j < |list| ==> list[j].was == NoBlock
    ensures ptrs[..] == Blocks(base)
  {
    var k := from;
    while k < |list|
      invariant from <= k <= |list|
      invariant PartlyUndone(ptrs[..], list, k, base, slots)
    {
      UndoNext(ptrs[..], list, k, nd, base, slots);
      ptrs[list[k].slot] := 0;
      k := k + 1;
    }
  }

  /** From record k on only indirect slots remain. */
  lemma Tail(list: seq<AllocDirect>, k: nat, nd: nat)
    requires Sorted(list) && k <= |list| && (k < |list| ==> list[k].slot >= nd)
    requires forall j :: 0 <= j < |list| ==> WellFormed(list[j], nd)
    ensures forall j :: k <= j < |list| ==> list[j].slot >= nd && list[j].was == NoBlock
  {
    forall j | k <= j < |list|
      ensures list[j].slot >= nd
    {
      assert k < j ==> list[k].slot < list[j].slot;
    }
  }

  lemma OneFrag(list: seq<AllocDirect>, nd: nat, base: seq<Extent>, slots: seq<Extent>, bsize: nat, k: nat)
    requires Records(list, nd, base, slots) && FragLast(base, bsize)
    requires k < |list| && IsFrag(list[k].was, bsize)
    ensures forall j :: 0 <= j < |list| && IsFrag(list[j].was, bsize) ==> j == k
  {
    assert forall j :: 0 <= j < |list| ==> base[list[j].slot] == list[j].was;
  }

  /** The roll-forward of handle_written_inodeblock: every changed slot gets its new pointer again. */
  method Rollforward(list: seq<AllocDirect>, ptrs: array<nat>, nd: nat, ghost base: seq<Extent>,
                     ghost slots: seq<Extent>)
    returns (redone: seq<AllocDirect>)
    modifies ptrs
    requires Records(list, nd, base, slots) && nd <= |slots|
    requires forall k :: 0 <= k < |list| ==> !list[k].attached
    requires ptrs[..] == Blocks(base)
    ensures ptrs[..] == Blocks(slots)
    ensures redone == WithAttached(list, true)
  {
    redone := [];
    var k := 0;
    while k < |list|
      invariant k <= |list|
      invariant forall j :: 0 <= j < k ==> ptrs[list[j].slot] == slots[list[j].slot].blk
      invariant forall i :: 0 <= i < ptrs.Length && (forall j :: 0 <= j < k ==> list[j].slot != i) ==>
        ptrs[i] == base[i].blk
      invariant redone == WithAttached(list[..k], true)
    {
      var r := list[k];
      assert !r.attached; // panic: new entry
      assert forall j :: 0 <= j < k ==> list[j].slot != r.slot;
      if r.slot < nd {
        assert ptrs[r.slot] == r.was.blk; // panic: direct pointer mismatch
      } else {
        assert ptrs[r.slot] == 0; // panic: indirect pointer allocated
      }
      ptrs[r.slot] := r.now.blk;
      redone := redone + [r.(attached := true)];
      k := k + 1;
    }
    assert list[..k] == list;
    forall i | 0 <= i < ptrs.Length
      ensures ptrs[i] == slots[i].blk
    {
      if !HasSlot(list, i) {
        assert ptrs[i] == base[i].blk;
      }
    }
  }
}
