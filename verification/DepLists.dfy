// How the dependency lists grow and shrink: a newer change supersedes an older one of the same slot,
// the list of the in-core inode is merged into the list of the buffer, and finished changes retire.
// Throughout, the extents waiting to be freed are conserved.
module DepLists {
  import opened Basics
  import opened AllocDirects

  /** 1 when the pending free, if any, is that of e. */
  function Waiting(f: Option<Extent>, e: Extent): nat { if f == Some(e) then 1 else 0 }

  /** How many records of the list will free e. */
  function Frees(list: seq<AllocDirect>, e: Extent): nat {
    if list == [] then 0 else Frees(list[..|list| - 1], e) + Waiting(list[|list| - 1].freefrag, e)
  }

  /** How often e occurs. */
  function Times(s: seq<Extent>, e: Extent): nat {
    if s == [] then 0 else Times(s[..|s| - 1], e) + if s[|s| - 1] == e then 1 else 0
  }

  lemma FreesMore(r: seq<AllocDirect>, x: AllocDirect, e: Extent)
    ensures Frees(r + [x], e) == Frees(r, e) + Waiting(x.freefrag, e)
  {
    assert (r + [x])[..|r|] == r;
  }

  lemma {:induction false} FreesConcat(a: seq<AllocDirect>, b: seq<AllocDirect>, e: Extent)
    ensures Frees(a + b, e) == Frees(a, e) + Frees(b, e)
    decreases |b|
  {
    if b == [] {
      assert a + b == a;
    } else {
      var n := |b| - 1;
      FreesConcat(a, b[..n], e);
      assert a + b == (a + b[..n]) + [b[n]];
      FreesMore(a + b[..n], b[n], e);
    }
  }

  lemma {:induction false} FreesHas(list: seq<AllocDirect>, k: nat, e: Extent)
    requires k < |list| && list[k].freefrag == Some(e)
    ensures Frees(list, e) > 0
    decreases |list|
  {
    if k < |list| - 1 {
      FreesHas(list[..|list| - 1], k, e);
    }
  }

  lemma {:induction false} FreesSame(a: seq<AllocDirect>, b: seq<AllocDirect>, e: Extent)
    requires |a| == |b| && forall k :: 0 <= k < |a| ==> a[k].freefrag == b[k].freefrag
    ensures Frees(a, e) == Frees(b, e)
    decreases |a|
  {
    if a != [] {
      FreesSame(a[..|a| - 1], b[..|b| - 1], e);
    }
  }

  /**
   * The record frees something exactly when its slot moves away from a block, and then it frees that
   * block, at the size it last had, which may be more than the committed pointer's.  A slot that
   * stays at its block extends it.
   */
  predicate FreesWas(r: AllocDirect) {
    && (r.freefrag.Some? <==> r.was.blk != 0 && r.was.blk != r.now.blk)
    && (r.freefrag.Some? ==> r.freefrag.value.blk == r.was.blk && r.was.size <= r.freefrag.value.size)
    && (r.was.blk == r.now.blk ==> r.was.size <= r.now.size)
  }

  /** The record's completion bits tell the truth: done holds the extents that are safely on disk. */
  predicate Truthful(r: AllocDirect, attached: bool, done: set<Extent>) {
    r.attached == attached && (r.Done() ==> r.now in done)
  }

  predicate Kept(list: seq<AllocDirect>, attached: bool, done: set<Extent>) {
    forall k :: 0 <= k < |list| ==> FreesWas(list[k]) && Truthful(list[k], attached, done)
  }

  /** A slot that moved away from a block has not come back to it. */
  predicate NoReturn(base: seq<Extent>, mid: seq<Extent>, top: seq<Extent>) {
    && |base| == |mid| == |top|
    && forall i :: 0 <= i < |base| && base[i].blk != 0 && base[i].blk == top[i].blk ==> mid[i].blk == base[i].blk
  }

  /**
   * allocdirect_merge: newer supersedes older.  The location newer moves away from is released at
   * once exactly when the committed inode does not name it.
   */
  method AllocDirectMerge(newer: AllocDirect, older: AllocDirect, nd: nat)
    returns (merged: AllocDirect, released: Option<Extent>)
    requires WellFormed(newer, nd) && WellFormed(older, nd) && FreesWas(newer) && FreesWas(older)
    requires newer.slot == older.slot && newer.was == older.now
    requires older.was.blk != 0 && older.was.blk == newer.now.blk ==> older.now.blk == older.was.blk
    ensures WellFormed(merged, nd) && FreesWas(merged)
    ensures merged == newer.(was := older.was, freefrag := merged.freefrag)
    ensures forall e :: Waiting(merged.freefrag, e) + Waiting(released, e) ==
                        Waiting(newer.freefrag, e) + Waiting(older.freefrag, e)
    ensures released.Some? <==> older.now.blk != newer.now.blk && older.now.blk != older.was.blk
    ensures released.Some? ==> released.value.blk == older.now.blk
  {
    assert newer.was == older.now && newer.slot < nd; // panic: old blkno != new
    merged := newer.(was := older.was);
    released := older.freefrag;
    if older.freefrag.Some? || older.was.blk == 0 {
      merged := merged.(freefrag := older.freefrag);
      released := newer.freefrag;
    }
    assert newer.freefrag.None? ==> older.now.blk == newer.now.blk; // panic: disparate blocks
  }

  /** Queue a released extent on the work list. */
  function Queued(queue: seq<Extent>, e: Option<Extent>): (r: seq<Extent>)
  {
    match e case None => queue case Some(x) => queue + [x]
  }

  lemma TimesQueued(queue: seq<Extent>, f: Option<Extent>, e: Extent)
    ensures Times(Queued(queue, f), e) == Times(queue, e) + Waiting(f, e)
  {
    if f.Some? {
      assert (queue + [f.value])[..|queue|] == queue;
    }
  }

  /** The records so far cover the slots of the first n records of list. */
  predicate Covers(r: seq<AllocDirect>, list: seq<AllocDirect>, n: nat) {
    n <= |list| && forall k :: 0 <= k < n ==> HasSlot(r, list[k].slot)
  }

  lemma HasMore(r: seq<AllocDirect>, x: AllocDirect)
    ensures HasSlot(r + [x], x.slot)
    ensures forall s :: HasSlot(r, s) ==> HasSlot(r + [x], s)
  {
    var t := r + [x];
    assert t[|r|] == x;
    forall s | HasSlot(r, s)
      ensures HasSlot(t, s)
    {
      var k :| 0 <= k < |r| && r[k].slot == s;
      assert t[k].slot == s;
    }
  }

  lemma FreesNext(list: seq<AllocDirect>, k: nat, e: Extent)
    requires k < |list|
    ensures Frees(list[..k + 1], e) == Frees(list[..k], e) + Waiting(list[k].freefrag, e)
  {
    assert list[..k + 1] == list[..k] + [list[k]];
    FreesMore(list[..k], list[k], e);
  }

  /** A merged prefix: sorted, every record right, every slot below both cursors covered. */
  ghost predicate Merging(r: seq<AllocDirect>, newer: seq<AllocDirect>, i: nat, older: seq<AllocDirect>, j: nat,
                          nd: nat, base: seq<Extent>, top: seq<Extent>, done: set<Extent>)
  {
    && i <= |newer| && j <= |older|
    && Sorted(r)
    && (forall k :: 0 <= k < |r| ==> Change(r[k], nd, base, top))
    && Kept(r, true, done)
    && Covers(r, newer, i) && Covers(r, older, j)
    && (forall k :: 0 <= k < |r| && i < |newer| ==> r[k].slot < newer[i].slot)
    && (forall k :: 0 <= k < |r| && j < |older| ==> r[k].slot < older[j].slot)
  }

  lemma MergeNext(r: seq<AllocDirect>, x: AllocDirect, newer: seq<AllocDirect>, i: nat, i': nat,
                  older: seq<AllocDirect>, j: nat, j': nat, nd: nat, base: seq<Extent>, top: seq<Extent>,
                  done: set<Extent>)
    requires Sorted(newer) && Sorted(older) && Merging(r, newer, i, older, j, nd, base, top, done)
    requires i <= i' <= i + 1 && i' <= |newer| && j <= j' <= j + 1 && j' <= |older| && i + j < i' + j'
    requires Change(x, nd, base, top) && FreesWas(x) && Truthful(x, true, done)
    requires i < |newer| ==> if i < i' then x.slot == newer[i].slot else x.slot < newer[i].slot
    requires j < |older| ==> if j < j' then x.slot == older[j].slot else x.slot < older[j].slot
    ensures Merging(r + [x], newer, i', older, j', nd, base, top, done)
  {
    HasMore(r, x);
    assert i < i' < |newer| ==> newer[i].slot < newer[i'].slot;
    assert j < j' < |older| ==> older[j].slot < older[j'].slot;
  }

  lemma AloneNewer(newer: seq<AllocDirect>, i: nat, older: seq<AllocDirect>, j: nat, nd: nat,
                   base: seq<Extent>, mid: seq<Extent>, top: seq<Extent>)
    requires Records(older, nd, base, mid) && Records(newer, nd, mid, top)
    requires i < |newer| && j <= |older|
    requires j < |older| ==> newer[i].slot < older[j].slot
    requires j > 0 ==> older[j - 1].slot < newer[i].slot
    ensures Change(newer[i], nd, base, top)
  {
    Gap(older, j, newer[i].slot);
  }

  lemma AloneOlder(newer: seq<AllocDirect>, i: nat, older: seq<AllocDirect>, j: nat, nd: nat,
                   base: seq<Extent>, mid: seq<Extent>, top: seq<Extent>)
    requires Records(older, nd, base, mid) && Records(newer, nd, mid, top)
    requires i <= |newer| && j < |older|
    requires i < |newer| ==> older[j].slot < newer[i].slot
    requires i > 0 ==> newer[i - 1].slot < older[j].slot
    ensures Change(older[j], nd, base, top)
  {
    Gap(newer, i, older[j].slot);
  }

  lemma PastOlder(r: seq<AllocDirect>, newer: seq<AllocDirect>, i: nat, older: seq<AllocDirect>, j: nat,
                  nd: nat, base: seq<Extent>, top: seq<Extent>, done: set<Extent>)
    requires Merging(r, newer, i, older, j, nd, base, top, done)
    ensures i < |newer| && j > 0 ==> older[j - 1].slot < newer[i].slot
    ensures j < |older| && i > 0 ==> newer[i - 1].slot < older[j].slot
  {
    if i < |newer| && j > 0 {
      assert HasSlot(r, older[j - 1].slot);
    }
    if j < |older| && i > 0 {
      assert HasSlot(r, newer[i - 1].slot);
    }
  }

  /** One step of the merge: the next record, and what it releases. */
  method MergeStep(newer: seq<AllocDirect>, i: nat, older: seq<AllocDirect>, j: nat, nd: nat,
                   ghost r: seq<AllocDirect>, ghost base: seq<Extent>, ghost mid: seq<Extent>,
                   ghost top: seq<Extent>, ghost done: set<Extent>)
    returns (x: AllocDirect, released: Option<Extent>, i': nat, j': nat)
    requires Records(older, nd, base, mid) && Records(newer, nd, mid, top) && NoReturn(base, mid, top)
    requires Kept(newer, true, done) && Kept(older, true, done)
    requires i < |newer| || j < |older|
    requires Merging(r, newer, i, older, j, nd, base, top, done)
    ensures i <= i' <= i + 1 && i' <= |newer| && j <= j' <= j + 1 && j' <= |older| && i + j < i' + j'
    ensures Merging(r + [x], newer, i', older, j', nd, base, top, done)
    ensures Swapped(x, released, newer, i, i', older, j, j')
  {
    PastOlder(r, newer, i, older, j, nd, base, top, done);
    if i == |newer| || (j < |older| && older[j].slot < newer[i].slot) {
      AloneOlder(newer, i, older, j, nd, base, mid, top);
      x, released, i', j' := older[j], None, i, j + 1;
    } else if j < |older| && older[j].slot == newer[i].slot {
      assert Change(newer[i], nd, mid, top) && Change(older[j], nd, base, mid);
      x, released := AllocDirectMerge(newer[i], older[j], nd);
      i', j' := i + 1, j + 1;
    } else {
      AloneNewer(newer, i, older, j, nd, base, mid, top);
      x, released, i', j' := newer[i], None, i + 1, j;
    }
    MergeNext(r, x, newer, i, i', older, j, j', nd, base, top, done);
  }

  /** What x will free and what was released is what the records it came from would free. */
  ghost predicate Swapped(x: AllocDirect, released: Option<Extent>, newer: seq<AllocDirect>, i: nat, i': nat,
                          older: seq<AllocDirect>, j: nat, j': nat)
    requires i <= i' <= |newer| && j <= j' <= |older|
  {
    forall e :: Waiting(x.freefrag, e) + Waiting(released, e) ==
      (if i < i' then Waiting(newer[i].freefrag, e) else 0) + (if j < j' then Waiting(older[j].freefrag, e) else 0)
  }

  lemma SwappedSums(x: AllocDirect, released: Option<Extent>, newer: seq<AllocDirect>, i: nat, i': nat,
                    older: seq<AllocDirect>, j: nat, j': nat, e: Extent)
    requires i <= i' <= i + 1 && i' <= |newer| && j <= j' <= j + 1 && j' <= |older|
    requires Swapped(x, released, newer, i, i', older, j, j')
    ensures Waiting(x.freefrag, e) + Waiting(released, e) + Frees(newer[..i], e) + Frees(older[..j], e) ==
            Frees(newer[..i'], e) + Frees(older[..j'], e)
  {
    if i < i' { FreesNext(newer, i, e); }
    if j < j' { FreesNext(older, j, e); }
  }

  /** The two lists and the queue together hold what the merged list and the new queue hold. */
  ghost predicate Conserved(r: seq<AllocDirect>, newQueue: seq<Extent>, newer: seq<AllocDirect>,
                            older: seq<AllocDirect>, queue: seq<Extent>)
  {
    forall e :: Frees(r, e) + Times(newQueue, e) == Frees(newer, e) + Frees(older, e) + Times(queue, e)
  }

  lemma ConserveNext(r: seq<AllocDirect>, newQueue: seq<Extent>, x: AllocDirect, released: Option<Extent>,
                     newer: seq<AllocDirect>, i: nat, i': nat, older: seq<AllocDirect>, j: nat, j': nat,
                     queue: seq<Extent>)
    requires i <= i' <= i + 1 && i' <= |newer| && j <= j' <= j + 1 && j' <= |older|
    requires Swapped(x, released, newer, i, i', older, j, j')
    requires Conserved(r, newQueue, newer[..i], older[..j], queue)
    ensures Conserved(r + [x], Queued(newQueue, released), newer[..i'], older[..j'], queue)
  {
    forall e
      ensures Frees(r + [x], e) + Times(Queued(newQueue, released), e) ==
              Frees(newer[..i'], e) + Frees(older[..j'], e) + Times(queue, e)
    {
      SwappedSums(x, released, newer, i, i', older, j, j', e);
      FreesMore(r, x, e);
      TimesQueued(newQueue, released, e);
      assert Frees(r, e) + Times(newQueue, e) == Frees(newer[..i], e) + Frees(older[..j], e) + Times(queue, e);
    }
  }

  /**
   * merge_inode_lists: the list of the in-core inode moves into the list of the buffer.  What the
   * result undoes is what the older list undid.
   */
  method MergeInodeLists(newer: seq<AllocDirect>, older: seq<AllocDirect>, queue: seq<Extent>, nd: nat,
                         ghost base: seq<Extent>, ghost mid: seq<Extent>, ghost top: seq<Extent>,
                         ghost done: set<Extent>)
    returns (r: seq<AllocDirect>, newQueue: seq<Extent>)
    requires Records(older, nd, base, mid) && Records(newer, nd, mid, top) && NoReturn(base, mid, top)
    requires Kept(newer, true, done) && Kept(older, true, done)
    ensures Records(r, nd, base, top) && Kept(r, true, done)
    ensures Conserved(r, newQueue, newer, older, queue)
  {
    var i, j := 0, 0;
    r, newQueue := [], queue;
    while i < |newer| || j < |older|
      invariant Merging(r, newer, i, older, j, nd, base, top, done)
      invariant Conserved(r, newQueue, newer[..i], older[..j], queue)
      decreases |newer| + |older| - i - j
    {
      var x, released, i', j' := MergeStep(newer, i, older, j, nd, r, base, mid, top, done);
      ConserveNext(r, newQueue, x, released, newer, i, i', older, j, j', queue);
      newQueue := Queued(newQueue, released);
      r := r + [x];
      i, j := i', j';
    }
    assert newer[..i] == newer && older[..j] == older;
    MergeEnd(r, newer, older, nd, base, mid, top, done);
  }

  lemma MergeEnd(r: seq<AllocDirect>, newer: seq<AllocDirect>, older: seq<AllocDirect>, nd: nat,
                 base: seq<Extent>, mid: seq<Extent>, top: seq<Extent>, done: set<Extent>)
    requires Records(older, nd, base, mid) && Records(newer, nd, mid, top)
    requires Merging(r, newer, |newer|, older, |older|, nd, base, top, done)
    ensures Records(r, nd, base, top)
  {
    forall i | 0 <= i < |top| && !HasSlot(r, i)
      ensures base[i] == top[i]
    {
      assert !HasSlot(newer, i) && !HasSlot(older, i);
    }
  }

  /** Where softdep_setup_allocdirect puts a record: before the first of an equal or later slot. */
  method InsertionPoint(list: seq<AllocDirect>, slot: nat) returns (p: nat)
    requires Sorted(list)
    ensures p <= |list| && (forall k :: 0 <= k < p ==> list[k].slot < slot) && (p < |list| ==> list[p].slot >= slot)
  {
    var n := |list|;
    if n == 0 || list[n - 1].slot < slot {
      return n;
    }
    if list[n - 1].slot == slot {
      return n - 1;
    }
    p := 0;
    while list[p].slot < slot
      invariant p < n
      invariant forall k :: 0 <= k < p ==> list[k].slot < slot
    {
      p := p + 1;
    }
  }

  /** The record x takes the place of what list has at p: an equal slot, or nothing. */
  function Placed(list: seq<AllocDirect>, p: nat, x: AllocDirect): (r: seq<AllocDirect>)
    requires p <= |list|
  {
    if p < |list| && list[p].slot == x.slot then list[..p] + [x] + list[p + 1..]
    else list[..p] + [x] + list[p..]
  }

  lemma FreesPlaced(list: seq<AllocDirect>, p: nat, x: AllocDirect, e: Extent)
    requires p <= |list|
    ensures Frees(Placed(list, p, x), e)
            + (if p < |list| && list[p].slot == x.slot then Waiting(list[p].freefrag, e) else 0)
         == Frees(list, e) + Waiting(x.freefrag, e)
  {
    hide Frees;
    FreesMore(list[..p], x, e);
    if p < |list| && list[p].slot == x.slot {
      FreesConcat(list[..p] + [x], list[p + 1..], e);
      FreesWithout(list, p, e);
    } else {
      FreesConcat(list[..p] + [x], list[p..], e);
      FreesConcat(list[..p], list[p..], e);
      assert list[..p] + list[p..] == list;
    }
  }

  lemma FreesWithout(list: seq<AllocDirect>, p: nat, e: Extent)
    requires p < |list|
    ensures Frees(list, e) == Frees(list[..p], e) + Waiting(list[p].freefrag, e) + Frees(list[p + 1..], e)
    ensures Frees(list, e) == Frees(list[..p] + list[p + 1..], e) + Waiting(list[p].freefrag, e)
  {
    FreesNext(list, p, e);
    FreesConcat(list[..p + 1], list[p + 1..], e);
    assert list[..p + 1] + list[p + 1..] == list;
    FreesConcat(list[..p], list[p + 1..], e);
  }

  lemma PlacedKept(list: seq<AllocDirect>, p: nat, x: AllocDirect, done: set<Extent>)
    requires p <= |list| && Kept(list, true, done) && FreesWas(x) && Truthful(x, true, done)
    ensures Kept(Placed(list, p, x), true, done)
  {
  }

  lemma PlacedRecords(list: seq<AllocDirect>, p: nat, x: AllocDirect, nd: nat, base: seq<Extent>, slots: seq<Extent>)
    requires Records(list, nd, base, slots) && p <= |list| && x.slot < |slots|
    requires (forall k :: 0 <= k < p ==> list[k].slot < x.slot) && (p < |list| ==> list[p].slot >= x.slot)
    requires Change(x, nd, base, slots[x.slot := x.now])
    ensures Records(Placed(list, p, x), nd, base, slots[x.slot := x.now])
  {
    hide WellFormed;
    var r := Placed(list, p, x);
    assert p < |list| && list[p].slot == x.slot ==> forall k :: p < k < |list| ==> list[p].slot < list[k].slot;
    assert forall k :: p <= k < |list| ==> list[p].slot <= list[k].slot;
    assert Sorted(r);
    forall k | 0 <= k < |r|
      ensures Change(r[k], nd, base, slots[x.slot := x.now])
    {
      assert r[k] == x || r[k] in list;
    }
    assert r[p] == x;
    forall i | 0 <= i < |slots| && !HasSlot(r, i)
      ensures base[i] == slots[x.slot := x.now][i]
    {
      assert i != x.slot;
      if HasSlot(list, i) {
        var k :| 0 <= k < |list| && list[k].slot == i;
        PlacedHas(list, p, x, k);
      }
    }
  }

  lemma PlacedHas(list: seq<AllocDirect>, p: nat, x: AllocDirect, k: nat)
    requires p <= |list| && k < |list| && list[k].slot != x.slot
    ensures HasSlot(Placed(list, p, x), list[k].slot)
  {
    var r := Placed(list, p, x);
    if k < p {
      assert r[k] == list[k];
    } else if p < |list| && list[p].slot == x.slot {
      assert r[k] == list[k];
    } else {
      assert r[k + 1] == list[k];
    }
  }

  /** softdep_setup_allocdirect: record that the slot of x changes from what slots holds to x.now. */
  method Enter(list: seq<AllocDirect>, x: AllocDirect, queue: seq<Extent>, nd: nat,
               ghost base: seq<Extent>, ghost slots: seq<Extent>, ghost done: set<Extent>)
    returns (r: seq<AllocDirect>, newQueue: seq<Extent>)
    requires Records(list, nd, base, slots) && Kept(list, true, done)
    requires WellFormed(x, nd) && FreesWas(x) && Truthful(x, true, done)
    requires x.slot < |slots| && x.was == slots[x.slot]
    requires NoReturn(base, slots, slots[x.slot := x.now])
    ensures Records(r, nd, base, slots[x.slot := x.now]) && Kept(r, true, done)
    ensures forall e :: Frees(r, e) + Times(newQueue, e) == Frees(list, e) + Waiting(x.freefrag, e) + Times(queue, e)
  {
    var p := InsertionPoint(list, x.slot);
    var y, released := x, None;
    if p < |list| && list[p].slot == x.slot {
      assert Change(list[p], nd, base, slots);
      y, released := AllocDirectMerge(x, list[p], nd);
    } else {
      Gap(list, p, x.slot);
    }
    r, newQueue := Placed(list, p, y), Queued(queue, released);
    PlacedKept(list, p, y, done);
    PlacedRecords(list, p, y, nd, base, slots);
    forall e
      ensures Frees(r, e) + Times(newQueue, e) == Frees(list, e) + Waiting(x.freefrag, e) + Times(queue, e)
    {
      FreesPlaced(list, p, y, e);
      TimesQueued(queue, released, e);
      assert Waiting(y.freefrag, e) + Waiting(released, e) ==
        Waiting(x.freefrag, e) + if p < |list| && list[p].slot == x.slot then Waiting(list[p].freefrag, e) else 0;
    }
  }

  /** A record leaves the list: its change counts as made, so what is undone moves forward. */
  lemma RetireOne(list: seq<AllocDirect>, k: nat, nd: nat, base: seq<Extent>, slots: seq<Extent>)
    requires Records(list, nd, base, slots) && k < |list|
    ensures Records(list[..k] + list[k + 1..], nd, base[list[k].slot := list[k].now], slots)
  {
    var r := list[..k] + list[k + 1..];
    var base' := base[list[k].slot := list[k].now];
    DroppedAt(list, k);
    forall i | 0 <= i < |slots| && !HasSlot(r, i) && i != list[k].slot
      ensures base'[i] == slots[i]
    {
      StillNone(list, k, i);
    }
  }

  lemma DroppedAt<T>(s: seq<T>, k: nat)
    requires k < |s|
    ensures var r := s[..k] + s[k + 1..]; forall j :: 0 <= j < |r| ==> r[j] == s[if j < k then j else j + 1]
  {
  }

  lemma StillNone(list: seq<AllocDirect>, k: nat, i: nat)
    requires k < |list| && i != list[k].slot && !HasSlot(list[..k] + list[k + 1..], i)
    ensures !HasSlot(list, i)
  {
    var r := list[..k] + list[k + 1..];
    forall j | 0 <= j < |list|
      ensures list[j].slot != i
    {
      if j != k {
        assert r[if j < k then j else j - 1] == list[j];
      }
    }
  }

  /** ... and fragments stay last, because no earlier record still rolls back to one. */
  lemma RetireFragLast(list: seq<AllocDirect>, k: nat, nd: nat, base: seq<Extent>, slots: seq<Extent>, bsize: nat)
    requires Records(list, nd, base, slots) && k < |list| && NoFragBefore(list, k, bsize)
    requires FragLast(base, bsize) && FragLast(slots, bsize)
    ensures FragLast(base[list[k].slot := list[k].now], bsize)
  {
    var s := list[k].slot;
    var base' := base[s := list[k].now];
    assert forall q :: 0 <= q < |list| ==> slots[list[q].slot].blk != 0;
    forall i | 0 <= i < |base'| && IsFrag(base'[i], bsize)
      ensures EmptyAfter(base', i)
    {
      if i == s {
        assert EmptyAfter(slots, i);
        assert forall j :: i < j < |slots| ==> !HasSlot(list, j);
      } else if i < s {
        EarlierFrag(list, k, nd, base, slots, bsize, i);
      } else {
        assert EmptyAfter(base, i);
      }
    }
  }

  lemma EarlierFrag(list: seq<AllocDirect>, k: nat, nd: nat, base: seq<Extent>, slots: seq<Extent>, bsize: nat, i: nat)
    requires Records(list, nd, base, slots) && k < |list| && NoFragBefore(list, k, bsize)
    requires FragLast(slots, bsize) && i < list[k].slot
    ensures !IsFrag(base[i], bsize)
  {
    assert slots[list[k].slot] == list[k].now;
    assert forall q :: k < q < |list| ==> list[k].slot < list[q].slot;
    assert forall q :: 0 <= q < |list| ==> base[list[q].slot] == list[q].was;
    assert !HasSlot(list, i) ==> base[i] == slots[i];
  }
}
