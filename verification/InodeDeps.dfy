// The inode half of the soft updates: block pointers change in the in-core inode, move to the buffer
// that holds the inode's disk image, and reach the disk, while allocation dependencies keep every
// disk image safe.
module InodeDeps {
  import opened Basics
  import opened AllocDirects
  import opened DepLists
  import opened InodeBooks

  /** The end of the run of complete records that starts at k. */
  function CompleteRun(list: seq<AllocDirect>, k: nat): (m: nat)
    requires k <= |list|
    ensures k <= m <= |list|
    ensures forall j :: k <= j < m ==> list[j].AllComplete()
    ensures m < |list| ==> !list[m].AllComplete()
    decreases |list| - k
  {
    if k < |list| && list[k].AllComplete() then CompleteRun(list, k + 1) else k
  }

  /** Where handle_allocdirect_partdone stops retiring when called for record k. */
  function RetireEnd(list: seq<AllocDirect>, k: nat, bsize: nat): (m: nat)
    requires k < |list|
    ensures k <= m <= |list|
  {
    if NoFragBefore(list, k, bsize) then CompleteRun(list, k) else k
  }

  /** The records from k to where retiring stops have moved from the list to the waiting list. */
  ghost predicate Retires(list: seq<AllocDirect>, k: nat, bsize: nat, wait: seq<AllocDirect>,
                          list': seq<AllocDirect>, wait': seq<AllocDirect>)
  {
    && k < |list|
    && list' == list[..k] + list[RetireEnd(list, k, bsize)..]
    && wait' == wait + list[k..RetireEnd(list, k, bsize)]
  }

  /** One set of block pointers of an inode: nd direct slots, then the indirect ones. */
  class Pointers {
    const nd: nat
    const bsize: nat
    /** The pointers of the in-core inode. */
    var core: seq<Extent>
    /** The pointers and the size in the buffer. */
    const ptrs: array<nat>
    var size: nat
    /** id_inoupdt, id_newinoupdt, id_bufwait and the work list. */
    var updt: seq<AllocDirect>
    var newupdt: seq<AllocDirect>
    var bufwait: seq<AllocDirect>
    var queue: seq<Extent>
    /** IOSTARTED, id_savedsize (-1 when idle) and id_savedino. */
    var iostarted: bool
    var savedsize: int
    var savedino: Option<(seq<nat>, nat)>

    ghost var full: seq<Extent>
    ghost var fullsize: nat
    ghost var committed: seq<Extent>
    ghost var owned: map<nat, nat>
    ghost var done: set<Extent>
    ghost var disk: seq<Extent>

    predicate Undone()
      reads this
    {
      iostarted && savedino.None?
    }

    ghost function Now(): Books
      reads this
    {
      Books(nd, bsize, committed, full, core, updt, newupdt, bufwait, queue, Undone(), owned, done, disk)
    }

    /** What the buffer holds: everything, the rolled-back pointers, or an empty inode. */
    ghost predicate Buffered()
      reads this, ptrs
    {
      && SizeFits(full, bsize, fullsize)
      && if !iostarted then
           ptrs[..] == Blocks(full) && size == fullsize && savedino.None? && savedsize == -1
         else if savedino.None? then
           ptrs[..] == Blocks(committed) && savedsize == fullsize && SizeFits(committed, bsize, size)
         else
           savedino.value == (Blocks(full), fullsize) && savedsize == -1 && ptrs.Length == |full| &&
           (forall i :: 0 <= i < ptrs.Length ==> ptrs[i] == 0)
    }

    ghost predicate Valid()
      reads this, ptrs
    {
      Sound(Now()) && Buffered()
    }

    /** A new inode without blocks. */
    constructor (nd: nat, total: nat, bsize: nat)
      requires nd <= total
      ensures Valid() && fresh(ptrs) && !iostarted && core == seq(total, i => NoBlock) && size == 0
      ensures this.nd == nd && this.bsize == bsize && owned == map[] && queue == []
    {
      this.nd, this.bsize := nd, bsize;
      var none := seq(total, i => NoBlock);
      core, full, committed, size, fullsize := none, none, none, 0, 0;
      updt, newupdt, bufwait, queue := [], [], [], [];
      iostarted, savedsize, savedino := false, -1, None;
      owned, done, disk := map[], {}, none;
      ptrs := new nat[total](i => 0);
      new;
      EmptySound(Now(), total);
    }

    /**
     * softdep_setup_allocdirect and the store that follows it: a slot of the in-core inode gets a new
     * or extended extent.  The previous one is never freed before the change is committed.
     */
    method Setup(slot: nat, now: Extent)
      requires Valid() && MayTake(Now(), slot, now)
      modifies this`core, this`newupdt, this`queue, this`owned
      ensures Valid() && core == old(core)[slot := now]
      ensures owned == Gained(old(owned), now) && now !in done
    {
      assert slot < |core|;
      hide Sound, MayTake;
      ghost var t;
      newupdt, queue, t := EnterChange(newupdt, core, queue, slot, now, nd, Now());
      core := core[slot := now];
      owned := t.owned;
      assert Now() == t;
    }

    /**
     * handle_allocdirect_partdone for record k of the current list: it and the complete records right
     * behind it retire, unless an earlier record still rolls its slot back to a fragment.
     */
    method PartDone(k: nat)
      requires Valid() && k < |updt|
      modifies this`updt, this`bufwait, this`committed
      ensures Valid()
      ensures Retires(old(updt), k, bsize, old(bufwait), updt, bufwait)
    {
      hide Retires, RetireEnd;
      ghost var t;
      updt, bufwait, t := RetireBooks(updt, bufwait, k, bsize, Now());
      committed := t.committed;
      assert Now() == t;
    }

    /**
     * ffs_update and softdep_update_inodeblock: the in-core inode is copied to the buffer and its
     * dependencies join those of the buffer; the pointers that may be written do not change until
     * a finished change retires.
     */
    method Update(newSize: nat)
      requires Valid() && !iostarted && SizeFits(core, bsize, newSize)
      modifies this`full, this`fullsize, this`size, this`updt, this`newupdt, this`bufwait, this`queue, this`committed,
               ptrs
      ensures Valid() && full == core && size == newSize && newupdt == []
      ensures updt != [] ==> !updt[0].AllComplete()
    {
      CopyOut(core, ptrs);
      size, fullsize := newSize, newSize;
      MoveChanges();
      RetireFront();
    }

    /** handle_allocdirect_partdone for the first record of the list. */
    method RetireFront()
      requires Valid()
      modifies this`updt, this`bufwait, this`committed
      ensures Valid() && (updt != [] ==> !updt[0].AllComplete()) && (old(updt) == [] ==> bufwait == old(bufwait))
    {
      if updt != [] {
        ghost var list := updt;
        PartDone(0);
        FirstWaits(list, bsize);
      }
    }

    method MoveChanges()
      requires Sound(Now()) && !iostarted
      modifies this`full, this`updt, this`newupdt, this`queue
      ensures Sound(Now()) && full == core && newupdt == []
    {
      ghost var s := Now();
      NoReturnOnMerge(s);
      updt, queue := MergeInodeLists(newupdt, updt, queue, nd, committed, full, core, done);
      newupdt, full := [], core;
      MergeSound(s, Now());
    }

    /**
     * The contents or the free map of an allocation reached the disk: softdep_disk_write_complete
     * and handle_written_bmsafemap.  While the pointers are rolled back nothing retires.
     */
    method Complete(current: bool, k: nat, contents: bool)
      requires Valid() && k < if current then |updt| else |newupdt|
      modifies this`updt, this`newupdt, this`bufwait, this`committed, this`done
      ensures Valid()
      ensures done == WithDone(old(done), Marked(if current then old(updt)[k] else old(newupdt)[k], contents))
      ensures !current ==> newupdt == old(newupdt)[k := Marked(old(newupdt)[k], contents)]
      ensures !current ==> updt == old(updt) && bufwait == old(bufwait)
      ensures current ==> Retires(old(updt)[k := Marked(old(updt)[k], contents)], k, bsize, old(bufwait), updt, bufwait)
    {
      if current {
        MarkCurrent(k, contents);
        PartDone(k);
      } else {
        MarkFuture(k, contents);
      }
    }

    method MarkCurrent(k: nat, contents: bool)
      requires Valid() && k < |updt|
      modifies this`updt, this`done
      ensures Valid() && updt == old(updt)[k := Marked(old(updt)[k], contents)]
      ensures done == WithDone(old(done), Marked(old(updt)[k], contents))
    {
      CompleteCurrent(Now(), k, contents);
      var r := Marked(updt[k], contents);
      updt, done := updt[k := r], WithDone(done, r);
    }

    method MarkFuture(k: nat, contents: bool)
      requires Valid() && k < |newupdt|
      modifies this`newupdt, this`done
      ensures Valid() && newupdt == old(newupdt)[k := Marked(old(newupdt)[k], contents)]
      ensures done == WithDone(old(done), Marked(old(newupdt)[k], contents))
    {
      CompleteFuture(Now(), k, contents);
      var r := Marked(newupdt[k], contents);
      newupdt, done := newupdt[k := r], WithDone(done, r);
    }

    /**
     * initiate_write_inodeblock_ufs2 for an inode whose free map is on disk: the buffer becomes an
     * image of the committed pointers, and a pending fragment is its last block.
     */
    method InitiateWrite()
      requires Valid() && !iostarted
      modifies this`iostarted, this`savedsize, this`size, this`updt, ptrs
      ensures Valid() && iostarted && savedino.None?
      ensures ptrs[..] == Blocks(committed) && SizeFits(committed, bsize, size)
      ensures ImageSize(old(updt), nd, bsize, committed, old(size), size)
    {
      hide SizeFits, Sound, ImageSize;
      EmptyImage(nd, bsize, committed, size);
      savedsize := size;
      WriteReady(Now());
      AttachSound(Now(), true);
      iostarted := true;
      if updt == [] {
        return;
      }
      updt, size := Rollback(updt, ptrs, size, nd, bsize, committed, full);
    }

    /** The same for an inode whose free map is not yet on disk: the image is an empty inode. */
    method InitiateEmpty()
      requires Valid() && !iostarted
      modifies this`iostarted, this`savedino, this`size, ptrs
      ensures Valid() && iostarted && savedino.Some? && size == 0
      ensures forall i :: 0 <= i < ptrs.Length ==> ptrs[i] == 0
    {
      hide Sound;
      savedino := Some((ptrs[..], size));
      iostarted := true;
      Zero(ptrs);
      size := 0;
    }

    /** Between writes the buffer holds what it should. */
    lemma Idle()
      requires Valid() && !iostarted
      ensures ptrs[..] == Blocks(full) && size == fullsize && savedino.None?
    {
    }

    /** The image differs from what the buffer held: the inode block stays dirty. */
    predicate RolledBack()
      reads this
    {
      savedino.Some? || updt != [] || size != savedsize
    }

    /**
     * handle_written_inodeblock: the buffer holds again what it held before the write; if the write
     * succeeded, what waited for it is freed and finished changes retire.  landed says whether the
     * image reached the disk, which a failed write leaves open.
     */
    method HandleWritten(success: bool, landed: bool) returns (hadchanges: bool)
      requires Valid() && iostarted && (success ==> landed)
      modifies this`iostarted, this`savedsize, this`savedino, this`size, this`updt, this`bufwait, this`committed,
               this`queue, this`disk, ptrs
      ensures Valid() && !iostarted
      ensures hadchanges <==> old(RolledBack())
      ensures queue == if success && old(savedino).None? then FlushTo(old(queue), old(bufwait)) else old(queue)
      ensures success && old(savedino).None? && updt != [] ==> !updt[0].AllComplete()
      ensures disk == Landed(old(disk), old(committed), landed, old(savedino).Some?)
    {
      hide Valid;
      Land(landed);
      if savedino.Some? {
        RestoreInode();
        return true;
      }
      hadchanges := RollForward();
      if success {
        Finish(hadchanges);
      }
    }

    method Finish(hadchanges: bool)
      requires Valid() && !iostarted && disk == committed && (updt != [] ==> hadchanges)
      modifies this`updt, this`bufwait, this`committed, this`queue
      ensures Valid() && queue == FlushTo(old(queue), old(bufwait))
      ensures updt != [] ==> !updt[0].AllComplete()
    {
      FlushWaiting();
      RetireFront();
      assert bufwait == [] || hadchanges; // panic: bufwait but no changes
    }

    /** The write's image is on disk now. */
    ghost method Land(landed: bool)
      requires Valid() && iostarted
      modifies this`disk
      ensures Valid() && disk == Landed(old(disk), committed, landed, savedino.Some?)
    {
      if landed {
        var image := Landed(disk, committed, landed, savedino.Some?);
        LandSound(Now(), image);
        disk := image;
      }
    }

    method RestoreInode()
      requires Valid() && iostarted && savedino.Some?
      modifies this`iostarted, this`savedino, this`size, ptrs
      ensures Valid() && !iostarted
    {
      var was, oldsize := savedino.value.0, savedino.value.1;
      CopyIn(was, ptrs);
      size, savedino, iostarted := oldsize, None, false;
    }

    method RollForward() returns (hadchanges: bool)
      requires Valid() && iostarted && savedino.None?
      modifies this`iostarted, this`savedsize, this`size, this`updt, ptrs
      ensures Valid() && !iostarted
      ensures |updt| == |old(updt)| && hadchanges == (updt != [] || old(size) != old(savedsize))
    {
      hide DiskSafe;
      AttachSound(Now(), false);
      hadchanges := updt != [];
      updt := Rollforward(updt, ptrs, nd, committed, full);
      assert savedsize != -1; // panic: bad size
      if size != savedsize {
        size, hadchanges := savedsize, true;
      }
      savedsize, iostarted := -1, false;
    }

    /** handle_bufwait: what waited for the image to be on disk goes to the work queue. */
    method FlushWaiting()
      requires Valid() && !iostarted && disk == committed
      modifies this`bufwait, this`queue
      ensures Valid() && bufwait == [] && queue == FlushTo(old(queue), old(bufwait))
    {
      FlushSound(Now());
      queue := Flush(bufwait, queue);
      bufwait := [];
    }

    /** The work queue frees its first extent, which is exactly an allocated one. */
    method Reclaim() returns (e: Extent)
      requires Valid() && queue != []
      modifies this`queue, this`owned, this`done
      ensures Valid() && e == old(queue)[0] && queue == old(queue)[1..]
      ensures Owns(old(owned), e) && owned == old(owned) - {e.blk}
    {
      hide Sound, Without;
      ghost var t := Reclaimed(Now());
      ReclaimSound(Now());
      e, queue := queue[0], queue[1..];
      owned, done := t.owned, t.done;
      assert Now() == t;
    }
  }

  /** What the disk holds after a write of the image, which is empty for an inode that is not mapped. */
  ghost function Landed(disk: seq<Extent>, committed: seq<Extent>, landed: bool, empty: bool): (r: seq<Extent>)
    ensures |r| == if landed then |committed| else |disk|
    ensures landed && empty ==> forall i :: 0 <= i < |r| ==> r[i] == NoBlock
    ensures landed && !empty ==> r == committed
    ensures !landed ==> r == disk
  {
    if !landed then disk else if empty then seq(|committed|, i => NoBlock) else committed
  }

  method Zero(ptrs: array<nat>)
    modifies ptrs
    ensures forall i :: 0 <= i < ptrs.Length ==> ptrs[i] == 0
  {
    for i := 0 to ptrs.Length
      invariant forall j :: 0 <= j < i ==> ptrs[j] == 0
    {
      ptrs[i] := 0;
    }
  }

  method CopyIn(from: seq<nat>, ptrs: array<nat>)
    requires ptrs.Length == |from|
    modifies ptrs
    ensures ptrs[..] == from
  {
    for i := 0 to ptrs.Length
      invariant forall j :: 0 <= j < i ==> ptrs[j] == from[j]
    {
      ptrs[i] := from[i];
    }
  }

  method Flush(list: seq<AllocDirect>, queue: seq<Extent>) returns (r: seq<Extent>)
    ensures r == FlushTo(queue, list)
  {
    r := queue;
    for k := 0 to |list|
      invariant r == FlushTo(queue, list[..k])
    {
      assert list[..k + 1][..k] == list[..k];
      r := Queued(r, list[k].freefrag);
    }
    assert list[..|list|] == list;
  }

  /** struct inodedep with the inode's image in its buffer: data and extended pointers, link count. */
  class InodeDep {
    const data: Pointers
    const ext: Pointers
    var nlink: nat
    /** The link counts of the journal entries in id_inoreflst, oldest first. */
    var inorefs: seq<nat>
    /** DEPCOMPLETE: the free map that allocates the inode is on disk. */
    var mapped: bool
    var savednlink: int
    ghost var fullnlink: nat

    ghost predicate Valid()
      reads this, data, data.ptrs, ext, ext.ptrs
    {
      && data != ext && data.ptrs != ext.ptrs
      && data.Valid() && ext.Valid()
      && data.iostarted == ext.iostarted && data.savedino.Some? == ext.savedino.Some?
      && if data.iostarted then savednlink == fullnlink else nlink == fullnlink && savednlink == -1
    }

    constructor (nd: nat, ni: nat, nx: nat, bsize: nat, links: nat)
      ensures Valid() && fresh(data) && fresh(ext) && fresh(data.ptrs) && fresh(ext.ptrs)
      ensures !data.iostarted && nlink == links
    {
      data := new Pointers(nd, nd + ni, bsize);
      ext := new Pointers(nx, nx, bsize);
      nlink, fullnlink, inorefs, mapped, savednlink := links, links, [], false, -1;
    }

    /**
     * initiate_write_inodeblock_ufs2: the image is an empty inode while its free map is not on disk,
     * and otherwise names exactly the committed blocks, with the link count the journal has.
     */
    method InitiateWrite()
      requires Valid() && !data.iostarted
      modifies this`nlink, this`savednlink, data`iostarted, data`savedsize, data`savedino, data`size, data`updt,
               ext`iostarted, ext`savedsize, ext`savedino, ext`size, ext`updt,
               data.ptrs, ext.ptrs
      ensures Valid() && data.iostarted && fullnlink == old(fullnlink)
      ensures data.savedino.None? == mapped
      ensures mapped ==> data.ptrs[..] == Blocks(data.committed) && ext.ptrs[..] == Blocks(ext.committed)
      ensures mapped ==> ImageSize(old(data.updt), data.nd, data.bsize, data.committed, old(data.size), data.size)
      ensures mapped ==> ImageSize(old(ext.updt), ext.nd, ext.bsize, ext.committed, old(ext.size), ext.size)
      ensures !mapped ==> data.size == 0 && ext.size == 0
      ensures !mapped ==> forall i :: 0 <= i < data.ptrs.Length ==> data.ptrs[i] == 0
      ensures !mapped ==> forall i :: 0 <= i < ext.ptrs.Length ==> ext.ptrs[i] == 0
      ensures mapped ==> nlink == if inorefs == [] then old(nlink) else inorefs[0]
      ensures !mapped ==> nlink == 0
    {
      hide Sound, ImageSize;
      savednlink := nlink;
      if !mapped {
        data.InitiateEmpty();
        ext.InitiateEmpty();
        nlink := 0;
      } else {
        if inorefs != [] {
          nlink := inorefs[0];
        }
        ext.InitiateWrite();
        data.InitiateWrite();
      }
    }

    /** handle_written_inodeblock: the image in the buffer is again what it was. */
    method HandleWritten(success: bool, landed: bool) returns (hadchanges: bool)
      requires Valid() && data.iostarted && (success ==> landed)
      modifies this`nlink, this`savednlink,
               data`iostarted, data`savedsize, data`savedino, data`size, data`updt,
               data`bufwait, data`committed, data`queue, data`disk,
               ext`iostarted, ext`savedsize, ext`savedino, ext`size, ext`updt,
               ext`bufwait, ext`committed, ext`queue, ext`disk,
               data.ptrs, ext.ptrs
      ensures Valid() && !data.iostarted && fullnlink == old(fullnlink)
      ensures hadchanges <==> old(data.RolledBack()) || old(ext.RolledBack()) || old(nlink) != old(savednlink)
      ensures data.disk == Landed(old(data.disk), old(data.committed), landed, old(data.savedino).Some?)
      ensures ext.disk == Landed(old(ext.disk), old(ext.committed), landed, old(data.savedino).Some?)
      ensures var freed := success && old(data.savedino).None?;
        && data.queue == (if freed then FlushTo(old(data.queue), old(data.bufwait)) else old(data.queue))
        && ext.queue == (if freed then FlushTo(old(ext.queue), old(ext.bufwait)) else old(ext.queue))
        && (freed && data.updt != [] ==> !data.updt[0].AllComplete())
        && (freed && ext.updt != [] ==> !ext.updt[0].AllComplete())
    {
      hide Sound;
      hadchanges := data.HandleWritten(success, landed);
      var more := ext.HandleWritten(success, landed);
      assert savednlink != -1;
      hadchanges := hadchanges || more || nlink != savednlink;
      nlink, savednlink := savednlink, -1;
    }
  }

  lemma EmptyImage(nd: nat, bsize: nat, base: seq<Extent>, size: nat)
    ensures ImageSize([], nd, bsize, base, size, size)
  {
  }

  /** The records of the buffer can be undone; without any the committed pointers are those it holds. */
  lemma WriteReady(s: Books)
    requires Sound(s) && !s.undone
    ensures Records(s.updt, s.nd, s.committed, s.full) && s.nd <= |s.full|
    ensures forall k :: 0 <= k < |s.updt| ==> s.updt[k].attached
    ensures FragLast(s.committed, s.bsize) && FragLast(s.full, s.bsize)
    ensures s.updt == [] ==> s.committed == s.full
  {
    assert s.updt == [] ==> forall i :: 0 <= i < |s.full| ==> !HasSlot(s.updt, i);
  }

  /**
   * A write leaves the buffered inode as it was: pointers, sizes and link count.  The disk has the
   * committed pointers, or an empty inode, and what waited for that is freed.
   */
  method WriteRoundTrip(d: InodeDep, success: bool, landed: bool)
    requires d.Valid() && !d.data.iostarted && (success ==> landed)
    modifies d`nlink, d`savednlink,
             d.data`iostarted, d.data`savedsize, d.data`savedino, d.data`size, d.data`updt,
             d.data`bufwait, d.data`committed, d.data`queue, d.data`disk,
             d.ext`iostarted, d.ext`savedsize, d.ext`savedino, d.ext`size, d.ext`updt,
             d.ext`bufwait, d.ext`committed, d.ext`queue, d.ext`disk,
             d.data.ptrs, d.ext.ptrs
    ensures d.Valid() && !d.data.iostarted
    ensures d.data.ptrs[..] == old(d.data.ptrs[..]) && d.data.size == old(d.data.size)
    ensures d.ext.ptrs[..] == old(d.ext.ptrs[..]) && d.ext.size == old(d.ext.size)
    ensures d.nlink == old(d.nlink)
    ensures d.data.disk == Landed(old(d.data.disk), old(d.data.committed), landed, !d.mapped)
    ensures d.ext.disk == Landed(old(d.ext.disk), old(d.ext.committed), landed, !d.mapped)
    ensures success && d.mapped ==> d.data.queue == FlushTo(old(d.data.queue), old(d.data.bufwait))
                                    && d.ext.queue == FlushTo(old(d.ext.queue), old(d.ext.bufwait))
  {
    hide Pointers.Valid, Landed, Blocks;
    d.data.Idle();
    d.ext.Idle();
    d.InitiateWrite();
    var hadchanges := d.HandleWritten(success, landed);
    d.data.Idle();
    d.ext.Idle();
  }

  /** The in-core pointers go to the buffer. */
  method CopyOut(core: seq<Extent>, ptrs: array<nat>)
    requires ptrs.Length == |core|
    modifies ptrs
    ensures ptrs[..] == Blocks(core)
  {
    for i := 0 to ptrs.Length
      invariant forall j :: 0 <= j < i ==> ptrs[j] == core[j].blk
    {
      ptrs[i] := core[i].blk;
    }
  }

  /** The allocator may give the slot this extent: fragments stay last, indirect slots start empty. */
  ghost predicate MayTake(s: Books, slot: nat, now: Extent) {
    && slot < |s.core| && NewExtent(now, s.core[slot], s.owned)
    && (slot >= s.nd ==> s.core[slot] == NoBlock)
    && FragLast(s.core[slot := now], s.bsize)
  }

  /** The record of a new allocation enters the list of the in-core inode. */
  method EnterChange(newupdt: seq<AllocDirect>, core: seq<Extent>, queue: seq<Extent>, slot: nat, now: Extent, nd: nat,
                     ghost s: Books)
    returns (list: seq<AllocDirect>, newQueue: seq<Extent>, ghost t: Books)
    requires Sound(s) && s.newupdt == newupdt && s.core == core && s.queue == queue && s.nd == nd
    requires MayTake(s, slot, now)
    ensures t == s.(core := core[slot := now], newupdt := list, queue := newQueue,
                    owned := Gained(s.owned, now))
    ensures Sound(t) && now !in t.done
  {
    hide Records;
    NoReturnOnSetup(s, slot, now);
    NotDoneYet(s, slot, now);
    assert Whole(core[slot]);
    list, newQueue := Enter(newupdt, FreshRecord(slot, core[slot], now), queue, nd, s.full, core, s.done);
    t := s.(core := core[slot := now], newupdt := list, queue := newQueue, owned := Gained(s.owned, now));
    SetupSound(s, t, slot, now);
  }

  /** The scan for a fragment before record k. */
  method FragBefore(list: seq<AllocDirect>, k: nat, bsize: nat) returns (hit: bool)
    requires k <= |list|
    ensures hit <==> !NoFragBefore(list, k, bsize)
  {
    var j := 0;
    while j < k
      invariant j <= k && NoFragBefore(list, j, bsize)
    {
      if IsFrag(list[j].was, bsize) {
        return true;
      }
      j := j + 1;
    }
    hit := false;
  }

  method RetireBooks(updt: seq<AllocDirect>, bufwait: seq<AllocDirect>, k: nat, bsize: nat, ghost s: Books)
    returns (list: seq<AllocDirect>, wait: seq<AllocDirect>, ghost t: Books)
    requires Sound(s) && s.updt == updt && s.bufwait == bufwait && s.bsize == bsize && k < |updt|
    ensures Retires(updt, k, bsize, bufwait, list, wait)
    ensures t == s.(updt := list, bufwait := wait, committed := t.committed)
    ensures Sound(t) && (s.undone ==> t == s)
  {
    t := RetireTo(s, k);
    list, wait := RetireFrom(updt, bufwait, k, bsize);
    if s.undone {
      NotWhileUndone(s, k);
    }
  }

  method RetireFrom(updt: seq<AllocDirect>, bufwait: seq<AllocDirect>, k: nat, bsize: nat)
    returns (list: seq<AllocDirect>, wait: seq<AllocDirect>)
    requires k < |updt|
    ensures list == updt[..k] + updt[RetireEnd(updt, k, bsize)..]
    ensures wait == bufwait + updt[k..RetireEnd(updt, k, bsize)]
  {
    list, wait := updt, bufwait;
    if updt[k].AllComplete() {
      var hit := FragBefore(updt, k, bsize);
      if !hit {
        list, wait := RetireRun(updt, bufwait, k);
      }
    }
  }

  method RetireRun(updt: seq<AllocDirect>, bufwait: seq<AllocDirect>, k: nat)
    returns (list: seq<AllocDirect>, wait: seq<AllocDirect>)
    requires k < |updt|
    ensures list == updt[..k] + updt[CompleteRun(updt, k)..]
    ensures wait == bufwait + updt[k..CompleteRun(updt, k)]
  {
    list, wait := updt, bufwait;
    ghost var m := k;
    assert updt[..k] + updt[m..] == updt;
    while k < |list| && list[k].AllComplete()
      invariant Dropped(updt, bufwait, k, m, list, wait)
      decreases |list|
    {
      DropNext(updt, bufwait, k, m, list, wait);
      list, wait := list[..k] + list[k + 1..], wait + [list[k]];
      m := m + 1;
    }
    DropEnd(updt, bufwait, k, m, list, wait);
  }

  /** The complete records from k to m have moved from the list to the waiting list. */
  ghost predicate Dropped(updt: seq<AllocDirect>, bufwait: seq<AllocDirect>, k: nat, m: nat,
                          list: seq<AllocDirect>, wait: seq<AllocDirect>)
  {
    && k <= m <= |updt| && CompleteRun(updt, k) == CompleteRun(updt, m)
    && list == updt[..k] + updt[m..] && wait == bufwait + updt[k..m]
  }

  lemma DropNext(updt: seq<AllocDirect>, bufwait: seq<AllocDirect>, k: nat, m: nat,
                 list: seq<AllocDirect>, wait: seq<AllocDirect>)
    requires Dropped(updt, bufwait, k, m, list, wait) && k < |list| && list[k].AllComplete()
    ensures Dropped(updt, bufwait, k, m + 1, list[..k] + list[k + 1..], wait + [list[k]])
  {
    assert list[k] == updt[m];
  }

  lemma DropEnd(updt: seq<AllocDirect>, bufwait: seq<AllocDirect>, k: nat, m: nat,
                list: seq<AllocDirect>, wait: seq<AllocDirect>)
    requires Dropped(updt, bufwait, k, m, list, wait)
    requires !(k < |list| && list[k].AllComplete())
    ensures m == CompleteRun(updt, k)
  {
    assert k < |list| ==> list[k] == updt[m];
  }

  /** The books after the complete run from k has retired. */
  ghost function RetireMany(s: Books, k: nat): Books
    decreases |s.updt|
  {
    if k < |s.updt| && s.updt[k].AllComplete() then RetireMany(Retired(s, k), k) else s
  }

  lemma {:induction false} RetireManySound(s: Books, k: nat)
    requires Sound(s) && k <= |s.updt| && NoFragBefore(s.updt, k, s.bsize)
    ensures Sound(RetireMany(s, k))
    decreases |s.updt|
  {
    if k < |s.updt| && s.updt[k].AllComplete() {
      RetireSound(s, k);
      RetireManySound(Retired(s, k), k);
    }
  }

  lemma {:induction false} RetireManyRest(s: Books, k: nat)
    ensures RetireMany(s, k) == s.(updt := RetireMany(s, k).updt, bufwait := RetireMany(s, k).bufwait,
                                   committed := RetireMany(s, k).committed)
    decreases |s.updt|
  {
    if k < |s.updt| && s.updt[k].AllComplete() {
      RetireManyRest(Retired(s, k), k);
    }
  }

  lemma {:induction false} RetireManyUpdt(s: Books, k: nat)
    requires k <= |s.updt|
    ensures RetireMany(s, k).updt == s.updt[..k] + s.updt[CompleteRun(s.updt, k)..]
    decreases |s.updt|
  {
    if k < |s.updt| && s.updt[k].AllComplete() {
      RetireManyUpdt(Retired(s, k), k);
      RunWithout(s.updt, k);
    }
  }

  lemma {:induction false} RetireManyWait(s: Books, k: nat)
    requires k <= |s.updt|
    ensures RetireMany(s, k).bufwait == s.bufwait + s.updt[k..CompleteRun(s.updt, k)]
    decreases |s.updt|
  {
    if k < |s.updt| && s.updt[k].AllComplete() {
      RetireManyWait(Retired(s, k), k);
      RunWithout(s.updt, k);
    }
  }

  lemma NothingRetired(list: seq<AllocDirect>, wait: seq<AllocDirect>, k: nat)
    requires k <= |list|
    ensures list[..k] + list[k..] == list && wait + list[k..k] == wait
  {
  }

  /** What is left after retiring from the front starts with a change that is not complete. */
  lemma FirstWaits(list: seq<AllocDirect>, bsize: nat)
    requires list != []
    ensures var rest := list[..0] + list[RetireEnd(list, 0, bsize)..]; rest != [] ==> !rest[0].AllComplete()
  {
  }

  lemma NotWhileUndone(s: Books, k: nat)
    requires Kept(s.updt, !s.undone, s.done) && k < |s.updt| && s.undone
    ensures RetireEnd(s.updt, k, s.bsize) == k
  {
    assert Truthful(s.updt[k], false, s.done);
  }

  lemma RetireTo(s: Books, k: nat) returns (t: Books)
    requires Sound(s) && k < |s.updt|
    ensures t == s.(updt := s.updt[..k] + s.updt[RetireEnd(s.updt, k, s.bsize)..],
                    bufwait := s.bufwait + s.updt[k..RetireEnd(s.updt, k, s.bsize)], committed := t.committed)
    ensures Sound(t) && (RetireEnd(s.updt, k, s.bsize) == k ==> t == s)
  {
    if NoFragBefore(s.updt, k, s.bsize) {
      t := RetireMany(s, k);
      RetireManySound(s, k);
      RetireManyUpdt(s, k);
      RetireManyWait(s, k);
      RetireManyRest(s, k);
    } else {
      t := s;
      NothingRetired(s.updt, s.bufwait, k);
    }
  }

  lemma RunWithout(list: seq<AllocDirect>, k: nat)
    requires k < |list| && list[k].AllComplete()
    ensures var rest := list[..k] + list[k + 1..];
            var m := CompleteRun(rest, k);
            && CompleteRun(list, k) == m + 1 && rest[..k] == list[..k] && rest[m..] == list[m + 1..]
            && [list[k]] + rest[k..m] == list[k..m + 1]
  {
    RunShift(list, list[..k] + list[k + 1..], k);
    WithoutSlices(list, k, CompleteRun(list[..k] + list[k + 1..], k));
  }

  lemma WithoutSlices<T>(s: seq<T>, k: nat, m: nat)
    requires k < |s| && k <= m < |s|
    ensures var rest := s[..k] + s[k + 1..];
            rest[..k] == s[..k] && rest[m..] == s[m + 1..] && [s[k]] + rest[k..m] == s[k..m + 1]
  {
  }

  lemma RunShift(list: seq<AllocDirect>, rest: seq<AllocDirect>, k: nat)
    requires k <= |rest| && |list| == |rest| + 1 && forall j :: k <= j < |rest| ==> rest[j] == list[j + 1]
    ensures CompleteRun(list, k + 1) == CompleteRun(rest, k) + 1
    decreases |rest| - k
  {
    if k < |rest| {
      RunShift(list, rest, k + 1);
    }
  }

  lemma EmptySound(s: Books, total: nat)
    requires s.nd <= total && s.core == seq(total, i => NoBlock) && s.full == s.core && s.committed == s.core
    requires s.updt == [] && s.newupdt == [] && s.bufwait == [] && s.queue == []
    requires s.owned == map[] && s.done == {} && s.disk == s.core
    ensures Sound(s)
  {
    forall e | e != NoBlock
      ensures Times(s.core, e) == 0
    {
      TimesNone(s.core, e);
    }
  }

  lemma {:induction false} TimesNone(s: seq<Extent>, e: Extent)
    requires forall i :: 0 <= i < |s| ==> s[i] != e
    ensures Times(s, e) == 0
    decreases |s|
  {
    if s != [] {
      TimesNone(s[..|s| - 1], e);
    }
  }
}
