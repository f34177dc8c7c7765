// What the soft updates of an inode keep true: allocation dependencies lead from the pointers that may be
// on disk to those in the buffer and in the in-core inode, and every extent is accounted for once.
module InodeBooks {
  import opened Basics
  import opened AllocDirects
  import opened DepLists

  /**
   * One set of block pointers of an inode (its data or its extended attributes) at one moment.
   * committed is what may be on disk, full what the buffer holds, core what the in-core inode holds;
   * updt leads from committed to full and newupdt from full to core.  bufwait holds the records whose
   * change is in the next disk image, queue the extents to be freed.  owned gives the size of each block
   * allocated to these pointers, done the extents whose contents and free map are on disk, and disk
   * what the pointers on disk name.
   */
  datatype Books = Books(
    nd: nat, bsize: nat,
    committed: seq<Extent>, full: seq<Extent>, core: seq<Extent>,
    updt: seq<AllocDirect>, newupdt: seq<AllocDirect>, bufwait: seq<AllocDirect>, queue: seq<Extent>,
    undone: bool, owned: map<nat, nat>, done: set<Extent>, disk: seq<Extent>)

  /** An extent that is either absent or has both an address and a size. */
  predicate Whole(e: Extent) { e.blk == 0 <==> e.size == 0 }

  /** How many places other than the work queue hold e. */
  ghost function Held(s: Books, e: Extent): nat {
    (if e == NoBlock then 0 else Times(s.core, e)) + Frees(s.updt, e) + Frees(s.newupdt, e) + Frees(s.bufwait, e)
  }

  /** The extent is allocated, at exactly this size. */
  predicate Owns(owned: map<nat, nat>, e: Extent) { e.blk in owned && owned[e.blk] == e.size }

  /** Every owned extent is held or queued, exactly once, and nothing else is. */
  ghost predicate Ledger(s: Books) {
    && 0 !in s.owned
    && forall e :: Held(s, e) + Times(s.queue, e) == if Owns(s.owned, e) then 1 else 0
  }

  /** The lists lead from what is committed to what the buffer and the in-core inode hold. */
  ghost predicate Staged(s: Books) {
    && Records(s.updt, s.nd, s.committed, s.full) && Records(s.newupdt, s.nd, s.full, s.core) && s.nd <= |s.core|
    && FragLast(s.committed, s.bsize) && FragLast(s.full, s.bsize) && FragLast(s.core, s.bsize)
    && (forall i :: 0 <= i < |s.core| ==> Whole(s.core[i]))
  }

  /** A record of the list will free the block. */
  ghost predicate WaitsIn(list: seq<AllocDirect>, blk: nat) {
    exists k :: 0 <= k < |list| && list[k].freefrag.Some? && list[k].freefrag.value.blk == blk
  }

  /**
   * What the disk names is what is committed, or a block whose free waits for a disk write, and its
   * contents and free map are on disk.
   */
  ghost predicate DiskSafe(s: Books) {
    && |s.disk| == |s.committed|
    && forall i :: 0 <= i < |s.disk| && s.disk[i].blk != 0 ==>
         && s.disk[i] in s.done
         && (s.disk[i].blk == s.committed[i].blk || WaitsIn(s.bufwait, s.disk[i].blk))
  }

  /** The extent is a part of an owned one that starts where it does. */
  predicate Within(e: Extent, owned: map<nat, nat>) { e.blk in owned && e.size <= owned[e.blk] }

  /** The extents safely on disk are parts of what is owned; every committed pointer is safe. */
  ghost predicate DoneSafe(s: Books) {
    && (forall e :: e in s.done ==> Within(e, s.owned))
    && (forall i :: 0 <= i < |s.committed| && s.committed[i] != NoBlock ==> s.committed[i] in s.done)
  }

  /** What every step keeps. */
  ghost predicate Sound(s: Books) {
    && Staged(s)
    && Kept(s.updt, !s.undone, s.done) && Kept(s.newupdt, true, s.done)
    && Ledger(s) && DiskSafe(s) && DoneSafe(s)
  }

  // ---- counting

  lemma {:induction false} TimesHas(s: seq<Extent>, k: nat)
    requires k < |s|
    ensures Times(s, s[k]) > 0
    decreases |s|
  {
    if k < |s| - 1 {
      TimesHas(s[..|s| - 1], k);
    }
  }

  lemma {:induction false} TimesUpdate(s: seq<Extent>, k: nat, x: Extent, e: Extent)
    requires k < |s|
    ensures Times(s[k := x], e) == Times(s, e) - (if s[k] == e then 1 else 0) + (if x == e then 1 else 0)
    decreases |s|
  {
    var n := |s| - 1;
    if k < n {
      TimesUpdate(s[..n], k, x, e);
      assert s[k := x][..n] == s[..n][k := x];
    } else {
      assert s[k := x][..n] == s[..n];
    }
  }

  lemma {:induction false} TimesTail(s: seq<Extent>, e: Extent)
    requires s != []
    ensures Times(s, e) == Times(s[1..], e) + if s[0] == e then 1 else 0
    decreases |s|
  {
    var n := |s| - 1;
    if n == 0 {
      assert s[..0] == [] && s[1..] == [];
    } else {
      TimesTail(s[..n], e);
      assert s[1..][..n - 1] == s[..n][1..];
    }
  }

  // ---- what the books imply

  /** Someone other than the work queue still holds the block. */
  ghost predicate Named(s: Books, blk: nat) { exists e: Extent :: e.blk == blk && Held(s, e) > 0 }

  /** A changed slot's old block is the new one's, or its free waits in the list. */
  lemma SlotHeld(list: seq<AllocDirect>, nd: nat, base: seq<Extent>, slots: seq<Extent>, attached: bool,
                 done: set<Extent>, i: nat)
    requires Records(list, nd, base, slots) && Kept(list, attached, done)
    requires i < |base| && base[i].blk != 0
    ensures base[i].blk == slots[i].blk || WaitsIn(list, base[i].blk)
  {
    if HasSlot(list, i) {
      var k :| 0 <= k < |list| && list[k].slot == i;
      assert Change(list[k], nd, base, slots);
    }
  }

  lemma WaitingHeld(list: seq<AllocDirect>, blk: nat) returns (e: Extent)
    requires WaitsIn(list, blk)
    ensures e.blk == blk && Frees(list, e) > 0
  {
    var k :| 0 <= k < |list| && list[k].freefrag.Some? && list[k].freefrag.value.blk == blk;
    e := list[k].freefrag.value;
    FreesHas(list, k, e);
  }

  lemma CoreNamed(s: Books, i: nat)
    requires i < |s.core| && s.core[i].blk != 0
    ensures Named(s, s.core[i].blk)
  {
    TimesHas(s.core, i);
    assert Held(s, s.core[i]) > 0;
  }

  lemma FullNamed(s: Books, i: nat)
    requires Records(s.newupdt, s.nd, s.full, s.core) && Kept(s.newupdt, true, s.done)
    requires i < |s.full| && s.full[i].blk != 0
    ensures Named(s, s.full[i].blk)
  {
    SlotHeld(s.newupdt, s.nd, s.full, s.core, true, s.done, i);
    if s.full[i].blk == s.core[i].blk {
      CoreNamed(s, i);
    } else {
      var e := WaitingHeld(s.newupdt, s.full[i].blk);
      assert Held(s, e) > 0;
    }
  }

  lemma CommittedNamed(s: Books, i: nat)
    requires Staged(s) && Kept(s.updt, !s.undone, s.done) && Kept(s.newupdt, true, s.done)
    requires i < |s.committed| && s.committed[i].blk != 0
    ensures Named(s, s.committed[i].blk)
  {
    SlotHeld(s.updt, s.nd, s.committed, s.full, !s.undone, s.done, i);
    if s.committed[i].blk == s.full[i].blk {
      FullNamed(s, i);
    } else {
      var e := WaitingHeld(s.updt, s.committed[i].blk);
      assert Held(s, e) > 0;
    }
  }

  /** What someone holds is owned and is not queued to be freed. */
  lemma NamedNotQueued(s: Books, blk: nat)
    requires Ledger(s) && blk != 0 && Named(s, blk)
    ensures forall k :: 0 <= k < |s.queue| ==> s.queue[k].blk != blk
    ensures blk in s.owned
  {
    var e: Extent :| e.blk == blk && Held(s, e) > 0;
    assert Owns(s.owned, e);
    forall k | 0 <= k < |s.queue|
      ensures s.queue[k].blk != blk
    {
      TimesHas(s.queue, k);
      assert Owns(s.owned, s.queue[k]);
    }
  }

  /**
   * No block that the disk image of the inode names is ever queued to be freed, and each of them had
   * its contents and its free map written first.
   */
  lemma DiskNotQueued(s: Books, i: nat)
    requires Sound(s) && i < |s.disk| && s.disk[i].blk != 0
    ensures forall k :: 0 <= k < |s.queue| ==> s.queue[k].blk != s.disk[i].blk
    ensures s.disk[i] in s.done && s.disk[i].blk in s.owned
  {
    if s.disk[i].blk == s.committed[i].blk {
      CommittedNamed(s, i);
    } else {
      var e := WaitingHeld(s.bufwait, s.disk[i].blk);
      assert Held(s, e) > 0;
    }
    NamedNotQueued(s, s.disk[i].blk);
  }

  // ---- a new allocation

  /** The extent is new to this inode, or it extends what the slot holds in place. */
  predicate NewExtent(e: Extent, was: Extent, owned: map<nat, nat>) {
    && e.blk != 0 && e.size != 0
    && if e.blk == was.blk then was.size < e.size else e.blk !in owned
  }

  lemma NoReturnOnSetup(s: Books, slot: nat, now: Extent)
    requires Sound(s) && slot < |s.core| && NewExtent(now, s.core[slot], s.owned)
    ensures NoReturn(s.full, s.core, s.core[slot := now])
  {
    if s.full[slot].blk != 0 && s.full[slot].blk == now.blk {
      FullNamed(s, slot);
      NamedNotQueued(s, now.blk);
    }
  }

  /** The extents owned after the slot's extent was extended or a new one was allocated. */
  function Gained(owned: map<nat, nat>, now: Extent): map<nat, nat> { owned[now.blk := now.size] }

  function FreshRecord(slot: nat, was: Extent, now: Extent): AllocDirect {
    AllocDirect(slot, was, now, if was.blk != 0 && was.blk != now.blk then Some(was) else None, false, false, true)
  }

  lemma CoreOwned(s: Books, i: nat)
    requires Ledger(s) && Staged(s) && i < |s.core| && s.core[i].blk != 0
    ensures Owns(s.owned, s.core[i])
  {
    TimesHas(s.core, i);
    assert Held(s, s.core[i]) > 0;
  }

  lemma NotDoneYet(s: Books, slot: nat, now: Extent)
    requires Sound(s) && slot < |s.core| && NewExtent(now, s.core[slot], s.owned)
    ensures now !in s.done
  {
    if s.core[slot].blk == now.blk {
      CoreOwned(s, slot);
    }
    assert now in s.done ==> Within(now, s.owned);
  }

  /** The new record, or what it releases, accounts for the extent the slot moves away from. */
  ghost predicate Entered(s: Books, t: Books, slot: nat, now: Extent)
    requires slot < |s.core|
  {
    forall e ::
      Frees(t.newupdt, e) + Times(t.queue, e)
      == Frees(s.newupdt, e) + Waiting(FreshRecord(slot, s.core[slot], now).freefrag, e) + Times(s.queue, e)
  }

  lemma SetupCount(s: Books, t: Books, slot: nat, now: Extent, e: Extent)
    requires slot < |s.core| && Entered(s, t, slot, now)
    requires t.core == s.core[slot := now] && t.updt == s.updt && t.bufwait == s.bufwait
    requires Whole(s.core[slot]) && now.blk != 0
    ensures Held(t, e) + Times(t.queue, e) ==
            Held(s, e) + Times(s.queue, e) + (if e == now then 1 else 0)
            - (if e == s.core[slot] && e.blk == now.blk then 1 else 0)
  {
    TimesUpdate(s.core, slot, now, e);
    assert Frees(t.newupdt, e) + Times(t.queue, e)
        == Frees(s.newupdt, e) + Waiting(FreshRecord(slot, s.core[slot], now).freefrag, e) + Times(s.queue, e);
  }

  lemma SetupLedger(s: Books, t: Books, slot: nat, now: Extent)
    requires Ledger(s) && slot < |s.core| && NewExtent(now, s.core[slot], s.owned)
    requires Whole(s.core[slot]) && (s.core[slot].blk != 0 ==> Owns(s.owned, s.core[slot]))
    requires t.core == s.core[slot := now] && t.updt == s.updt && t.bufwait == s.bufwait
    requires t.owned == Gained(s.owned, now) && Entered(s, t, slot, now)
    ensures Ledger(t)
  {
    forall e
      ensures Held(t, e) + Times(t.queue, e) == if Owns(t.owned, e) then 1 else 0
    {
      SetupCount(s, t, slot, now, e);
    }
  }

  lemma SetupDone(s: Books, t: Books, slot: nat, now: Extent)
    requires DoneSafe(s) && slot < |s.core| && NewExtent(now, s.core[slot], s.owned)
    requires s.core[slot].blk != 0 ==> Owns(s.owned, s.core[slot])
    requires t.owned == Gained(s.owned, now) && t.done == s.done && t.committed == s.committed
    ensures DoneSafe(t)
  {
  }

  lemma SetupSound(s: Books, t: Books, slot: nat, now: Extent)
    requires Sound(s) && slot < |s.core| && NewExtent(now, s.core[slot], s.owned)
    requires t == s.(core := s.core[slot := now], newupdt := t.newupdt, queue := t.queue,
                     owned := Gained(s.owned, now))
    requires FragLast(t.core, t.bsize) && Records(t.newupdt, t.nd, t.full, t.core) && Kept(t.newupdt, true, t.done)
    requires Entered(s, t, slot, now)
    ensures Sound(t)
  {
    hide Records;
    assert Whole(s.core[slot]);
    if s.core[slot].blk != 0 {
      CoreOwned(s, slot);
    }
    SetupLedger(s, t, slot, now);
    SetupDone(s, t, slot, now);
  }

  // ---- the in-core inode moves to the buffer

  /** A block that the in-core inode names does not wait to be freed. */
  lemma NotWaiting(s: Books, i: nat)
    requires Sound(s) && i < |s.core| && s.core[i].blk != 0
    ensures !WaitsIn(s.updt, s.core[i].blk)
  {
    CoreOwned(s, i);
    TimesHas(s.core, i);
    forall k | 0 <= k < |s.updt| && s.updt[k].freefrag.Some?
      ensures s.updt[k].freefrag.value.blk != s.core[i].blk
    {
      var e := s.updt[k].freefrag.value;
      FreesHas(s.updt, k, e);
      assert Held(s, e) + Times(s.queue, e) == 1;
    }
  }

  lemma NoReturnOnMerge(s: Books)
    requires Sound(s)
    ensures NoReturn(s.committed, s.full, s.core)
  {
    forall i | 0 <= i < |s.core| && s.committed[i].blk != 0 && s.committed[i].blk == s.core[i].blk
      ensures s.full[i].blk == s.committed[i].blk
    {
      SlotHeld(s.updt, s.nd, s.committed, s.full, !s.undone, s.done, i);
      NotWaiting(s, i);
    }
  }

  lemma MergeSound(s: Books, t: Books)
    requires Sound(s) && !s.undone
    requires t == s.(full := s.core, updt := t.updt, newupdt := [], queue := t.queue)
    requires Records(t.updt, s.nd, s.committed, s.core) && Kept(t.updt, true, s.done)
    requires Conserved(t.updt, t.queue, s.newupdt, s.updt, s.queue)
    ensures Sound(t)
  {
    forall e
      ensures Held(t, e) + Times(t.queue, e) == if Owns(t.owned, e) then 1 else 0
    {
      assert Held(s, e) + Times(s.queue, e) == if Owns(s.owned, e) then 1 else 0;
      assert Frees(t.updt, e) + Times(t.queue, e) == Frees(s.newupdt, e) + Frees(s.updt, e) + Times(s.queue, e);
      assert Frees([], e) == 0;
    }
    assert Ledger(t);
  }

  // ---- a dependency is satisfied

  lemma SizeHeld(list: seq<AllocDirect>, nd: nat, base: seq<Extent>, slots: seq<Extent>, attached: bool,
                 done: set<Extent>, i: nat) returns (e: Extent)
    requires Records(list, nd, base, slots) && Kept(list, attached, done)
    requires i < |base| && base[i].blk != 0
    ensures e.blk == base[i].blk && base[i].size <= e.size && (e == slots[i] || Frees(list, e) > 0)
  {
    e := slots[i];
    if HasSlot(list, i) {
      var k :| 0 <= k < |list| && list[k].slot == i;
      assert Change(list[k], nd, base, slots) && FreesWas(list[k]);
      if list[k].freefrag.Some? {
        e := list[k].freefrag.value;
        FreesHas(list, k, e);
      }
    }
  }

  lemma FullWithin(s: Books, i: nat)
    requires Sound(s) && i < |s.full| && s.full[i].blk != 0
    ensures Within(s.full[i], s.owned)
  {
    var e := SizeHeld(s.newupdt, s.nd, s.full, s.core, true, s.done, i);
    TimesHas(s.core, i);
    assert Held(s, e) > 0;
    assert Owns(s.owned, e);
  }

  /** The contents or the free map of the change reached the disk. */
  function Marked(r: AllocDirect, contents: bool): AllocDirect {
    if contents then r.(written := true) else r.(mapped := true)
  }

  function WithDone(done: set<Extent>, r: AllocDirect): set<Extent> { if r.Done() then done + {r.now} else done }

  /** The record after some reports: true for its contents, false for its free map. */
  function MarkedAll(r: AllocDirect, reports: seq<bool>): AllocDirect {
    if reports == [] then r else Marked(MarkedAll(r, reports[..|reports| - 1]), reports[|reports| - 1])
  }

  lemma {:induction false} MarksKept(r: AllocDirect, reports: seq<bool>)
    requires !r.written && !r.mapped
    ensures MarkedAll(r, reports) == r.(written := true in reports, mapped := false in reports)
    decreases |reports|
  {
    if reports != [] {
      var n := |reports| - 1;
      MarksKept(r, reports[..n]);
      assert reports == reports[..n] + [reports[n]];
    }
  }

  /** A new extent becomes safe exactly when both were reported, in whatever order and however often. */
  lemma SafeWhenBoth(r: AllocDirect, reports: seq<bool>, done: set<Extent>)
    requires !r.written && !r.mapped && r.now !in done
    ensures r.now in WithDone(done, MarkedAll(r, reports)) <==> true in reports && false in reports
  {
    MarksKept(r, reports);
  }

  lemma MarkedList(list: seq<AllocDirect>, k: nat, contents: bool, nd: nat, base: seq<Extent>, slots: seq<Extent>,
                   attached: bool, done: set<Extent>)
    requires Records(list, nd, base, slots) && Kept(list, attached, done) && k < |list|
    ensures Records(list[k := Marked(list[k], contents)], nd, base, slots)
    ensures Kept(list[k := Marked(list[k], contents)], attached, WithDone(done, Marked(list[k], contents)))
    ensures forall e :: Frees(list[k := Marked(list[k], contents)], e) == Frees(list, e)
  {
    var r := list[k := Marked(list[k], contents)];
    forall e
      ensures Frees(r, e) == Frees(list, e)
    {
      FreesSame(r, list, e);
    }
    assert forall j :: 0 <= j < |list| ==> r[j].slot == list[j].slot;
  }

  lemma KeptMore(list: seq<AllocDirect>, attached: bool, done: set<Extent>, more: set<Extent>)
    requires Kept(list, attached, done) && done <= more
    ensures Kept(list, attached, more)
  {
  }

  lemma DoneMore(s: Books, t: Books, now: Extent)
    requires DiskSafe(s) && DoneSafe(s) && Within(now, s.owned)
    requires s.done <= t.done <= s.done + {now}
    requires t.disk == s.disk && t.committed == s.committed && t.bufwait == s.bufwait && t.owned == s.owned
    ensures DiskSafe(t) && DoneSafe(t)
  {
  }

  /** The lists and the queue hold the same extents as before. */
  ghost predicate SameHeld(s: Books, t: Books) {
    forall e :: Held(t, e) + Times(t.queue, e) == Held(s, e) + Times(s.queue, e)
  }

  lemma SameLedger(s: Books, t: Books)
    requires Ledger(s) && t.owned == s.owned && SameHeld(s, t)
    ensures Ledger(t)
  {
  }

  lemma CompleteCurrent(s: Books, k: nat, contents: bool)
    requires Sound(s) && k < |s.updt|
    ensures Sound(s.(updt := s.updt[k := Marked(s.updt[k], contents)],
                     done := WithDone(s.done, Marked(s.updt[k], contents))))
  {
    var r := Marked(s.updt[k], contents);
    var t := s.(updt := s.updt[k := r], done := WithDone(s.done, r));
    MarkedList(s.updt, k, contents, s.nd, s.committed, s.full, !s.undone, s.done);
    KeptMore(s.newupdt, true, s.done, t.done);
    assert Change(s.updt[k], s.nd, s.committed, s.full);
    FullWithin(s, r.slot);
    DoneMore(s, t, r.now);
    assert SameHeld(s, t);
    SameLedger(s, t);
  }

  lemma CompleteFuture(s: Books, k: nat, contents: bool)
    requires Sound(s) && k < |s.newupdt|
    ensures Sound(s.(newupdt := s.newupdt[k := Marked(s.newupdt[k], contents)],
                     done := WithDone(s.done, Marked(s.newupdt[k], contents))))
  {
    hide Frees;
    var r := Marked(s.newupdt[k], contents);
    var t := s.(newupdt := s.newupdt[k := r], done := WithDone(s.done, r));
    MarkedList(s.newupdt, k, contents, s.nd, s.full, s.core, true, s.done);
    KeptMore(s.updt, !s.undone, s.done, t.done);
    assert Change(s.newupdt[k], s.nd, s.full, s.core);
    CoreOwned(s, r.slot);
    DoneMore(s, t, r.now);
    assert SameHeld(s, t);
    SameLedger(s, t);
  }

  // ---- a finished change retires

  function Retired(s: Books, k: nat): Books
    requires k < |s.updt|
  {
    s.(updt := s.updt[..k] + s.updt[k + 1..], bufwait := s.bufwait + [s.updt[k]],
       committed := if s.updt[k].slot < |s.committed| then s.committed[s.updt[k].slot := s.updt[k].now]
           else s.committed)
  }

  lemma RetireDisk(s: Books, k: nat)
    requires Sound(s) && k < |s.updt|
    requires s.updt[k].AllComplete()
    ensures DiskSafe(Retired(s, k)) && DoneSafe(Retired(s, k))
  {
    var t, r := Retired(s, k), s.updt[k];
    assert Change(r, s.nd, s.committed, s.full) && FreesWas(r) && Truthful(r, !s.undone, s.done);
    forall i | 0 <= i < |t.disk| && t.disk[i].blk != 0
      ensures t.disk[i].blk == t.committed[i].blk || WaitsIn(t.bufwait, t.disk[i].blk)
    {
      if WaitsIn(s.bufwait, s.disk[i].blk) {
        var j :| 0 <= j < |s.bufwait| && s.bufwait[j].freefrag.Some?
            && s.bufwait[j].freefrag.value.blk == s.disk[i].blk;
        assert t.bufwait[j] == s.bufwait[j];
      } else if i == r.slot {
        assert t.bufwait[|s.bufwait|] == r;
      }
    }
  }

  lemma RetireStaged(s: Books, k: nat)
    requires Staged(s) && k < |s.updt| && NoFragBefore(s.updt, k, s.bsize)
    ensures Staged(Retired(s, k))
  {
    RetireOne(s.updt, k, s.nd, s.committed, s.full);
    RetireFragLast(s.updt, k, s.nd, s.committed, s.full, s.bsize);
  }

  lemma RetireKept(list: seq<AllocDirect>, k: nat, attached: bool, done: set<Extent>)
    requires Kept(list, attached, done) && k < |list|
    ensures Kept(list[..k] + list[k + 1..], attached, done)
  {
  }

  lemma RetireHeld(s: Books, k: nat)
    requires k < |s.updt|
    ensures SameHeld(s, Retired(s, k))
  {
    var t := Retired(s, k);
    forall e
      ensures Held(t, e) == Held(s, e)
    {
      FreesWithout(s.updt, k, e);
      FreesMore(s.bufwait, s.updt[k], e);
    }
  }

  /** Retiring keeps the books, provided no earlier change still rolls back to a fragment. */
  lemma RetireSound(s: Books, k: nat)
    requires Sound(s) && k < |s.updt|
    requires s.updt[k].AllComplete() && NoFragBefore(s.updt, k, s.bsize)
    ensures Sound(Retired(s, k))
  {
    RetireStaged(s, k);
    RetireKept(s.updt, k, !s.undone, s.done);
    RetireDisk(s, k);
    RetireHeld(s, k);
    SameLedger(s, Retired(s, k));
  }

  // ---- the disk write and what follows it

  lemma AttachHeld(s: Books, t: Books, attached: bool)
    requires t == s.(updt := WithAttached(s.updt, attached), undone := t.undone)
    ensures SameHeld(s, t)
  {
    forall e
      ensures Held(t, e) == Held(s, e)
    {
      FreesSame(t.updt, s.updt, e);
    }
  }

  lemma AttachKept(list: seq<AllocDirect>, before: bool, attached: bool, done: set<Extent>)
    requires Kept(list, before, done)
    ensures Kept(WithAttached(list, attached), attached, done)
  {
  }

  lemma AttachSound(s: Books, undone: bool)
    requires Sound(s)
    ensures Sound(s.(updt := WithAttached(s.updt, !undone), undone := undone))
  {
    var t := s.(updt := WithAttached(s.updt, !undone), undone := undone);
    SameRecords(s.updt, !undone, s.nd, s.committed, s.full);
    assert Staged(t);
    AttachKept(s.updt, !s.undone, !undone, s.done);
    AttachHeld(s, t, !undone);
    SameLedger(s, t);
  }

  /** An image of the committed pointers, or an empty one, may reach the disk at any time. */
  lemma LandSound(s: Books, image: seq<Extent>)
    requires Sound(s) && |image| == |s.disk|
    requires forall i :: 0 <= i < |image| ==> image[i] == NoBlock || image[i] == s.committed[i]
    ensures Sound(s.(disk := image))
  {
  }

  function FlushTo(queue: seq<Extent>, list: seq<AllocDirect>): seq<Extent> {
    if list == [] then queue else Queued(FlushTo(queue, list[..|list| - 1]), list[|list| - 1].freefrag)
  }

  lemma {:induction false} FlushTimes(queue: seq<Extent>, list: seq<AllocDirect>, e: Extent)
    ensures Times(FlushTo(queue, list), e) == Times(queue, e) + Frees(list, e)
    decreases |list|
  {
    if list != [] {
      var n := |list| - 1;
      FlushTimes(queue, list[..n], e);
      TimesQueued(FlushTo(queue, list[..n]), list[n].freefrag, e);
    }
  }

  /** Once the disk names only committed blocks, everything that waited for that can be freed. */
  lemma FlushSound(s: Books)
    requires Sound(s)
    requires forall i :: 0 <= i < |s.disk| ==> s.disk[i] == s.committed[i]
    ensures Sound(s.(bufwait := [], queue := FlushTo(s.queue, s.bufwait)))
  {
    var t := s.(bufwait := [], queue := FlushTo(s.queue, s.bufwait));
    forall e
      ensures Held(t, e) + Times(t.queue, e) == Held(s, e) + Times(s.queue, e)
    {
      FlushTimes(s.queue, s.bufwait, e);
      assert Frees([], e) == 0;
    }
    assert SameHeld(s, t);
    SameLedger(s, t);
  }

  // ---- the work queue gives an extent back

  function Without(done: set<Extent>, blk: nat): set<Extent> { set e | e in done && e.blk != blk }

  function Reclaimed(s: Books): Books
    requires s.queue != []
  {
    s.(queue := s.queue[1..], owned := s.owned - {s.queue[0].blk}, done := Without(s.done, s.queue[0].blk))
  }

  lemma ReclaimLedger(s: Books)
    requires Ledger(s) && s.queue != []
    ensures Ledger(Reclaimed(s)) && Owns(s.owned, s.queue[0])
  {
    var t := Reclaimed(s);
    TimesHas(s.queue, 0);
    forall e
      ensures Held(t, e) + Times(t.queue, e) == if Owns(t.owned, e) then 1 else 0
    {
      TimesTail(s.queue, e);
      assert Held(s, e) + Times(s.queue, e) == if Owns(s.owned, e) then 1 else 0;
      assert Held(s, s.queue[0]) + Times(s.queue, s.queue[0]) == 1;
    }
  }

  lemma ReclaimKept(s: Books)
    requires Sound(s) && s.queue != []
    ensures Kept(s.updt, !s.undone, Reclaimed(s).done) && Kept(s.newupdt, true, Reclaimed(s).done)
  {
    forall k | 0 <= k < |s.updt|
      ensures s.updt[k].now.blk != s.queue[0].blk
    {
      assert Change(s.updt[k], s.nd, s.committed, s.full);
      FullNamed(s, s.updt[k].slot);
      NamedNotQueued(s, s.updt[k].now.blk);
    }
    forall k | 0 <= k < |s.newupdt|
      ensures s.newupdt[k].now.blk != s.queue[0].blk
    {
      assert Change(s.newupdt[k], s.nd, s.full, s.core);
      CoreNamed(s, s.newupdt[k].slot);
      NamedNotQueued(s, s.newupdt[k].now.blk);
    }
  }

  lemma ReclaimDisk(s: Books)
    requires Sound(s) && s.queue != []
    ensures DiskSafe(Reclaimed(s))
  {
    forall i | 0 <= i < |s.disk| && s.disk[i].blk != 0
      ensures s.disk[i].blk != s.queue[0].blk
    {
      DiskNotQueued(s, i);
    }
  }

  lemma ReclaimDone(s: Books)
    requires Sound(s) && s.queue != []
    ensures DoneSafe(Reclaimed(s))
  {
    var t := Reclaimed(s);
    forall i | 0 <= i < |t.committed| && t.committed[i] != NoBlock
      ensures t.committed[i] in t.done
    {
      assert Within(t.committed[i], s.owned);
      CommittedNamed(s, i);
      NamedNotQueued(s, t.committed[i].blk);
    }
  }

  lemma ReclaimSound(s: Books)
    requires Sound(s) && s.queue != []
    ensures Sound(Reclaimed(s)) && Owns(s.owned, s.queue[0])
  {
    ReclaimLedger(s);
    ReclaimKept(s);
    ReclaimDisk(s);
    ReclaimDone(s);
  }
}
