// The two copies of an indirect block: the buffer has every pointer, the safe copy only those whose
// block is on disk, and the safe copy is what gets written while they differ.
module IndirDeps {
  import opened Basics

  /** struct allocindir: pointer off is to hold blk; contents and free map of the block on disk or not. */
  datatype AllocIndir = AllocIndir(off: nat, blk: nat, written: bool, mapped: bool)
  {
    predicate AllComplete() { written && mapped }
  }

  predicate Pending(list: seq<AllocIndir>, o: nat) { exists k :: 0 <= k < |list| && list[k].off == o }

  predicate OneEach(list: seq<AllocIndir>) {
    forall i, j :: 0 <= i < j < |list| ==> list[i].off != list[j].off
  }

  /** The record's pointer is in the block. */
  predicate Holds(r: AllocIndir, ptrs: seq<nat>) { r.off < |ptrs| && r.blk != 0 && ptrs[r.off] == r.blk }

  predicate AllHold(list: seq<AllocIndir>, ptrs: seq<nat>) { forall k :: 0 <= k < |list| ==> Holds(list[k], ptrs) }

  /** The safe copy lacks exactly the pointers of the waiting records. */
  predicate Lacks(safe: seq<nat>, full: seq<nat>, waiting: seq<AllocIndir>) {
    |safe| == |full| && forall o :: 0 <= o < |full| ==> safe[o] == if Pending(waiting, o) then 0 else full[o]
  }

  predicate AllDone(ptrs: seq<nat>, done: set<nat>) { forall o :: 0 <= o < |ptrs| && ptrs[o] != 0 ==> ptrs[o] in done }

  /** A record that claims to be complete is. */
  predicate Truthful(list: seq<AllocIndir>, done: set<nat>) {
    forall k :: 0 <= k < |list| && list[k].AllComplete() ==> list[k].blk in done
  }

  /**
   * full is the block with every pointer, safe the copy for the disk, disk what is there.  deplist waits
   * for its blocks, donehd for the current write to end, writehd for its pointers to be written;
   * completehd and released have had theirs written.  done are the blocks safely on disk.
   */
  datatype Copies = Copies(full: seq<nat>, safe: seq<nat>, disk: seq<nat>, deplist: seq<AllocIndir>,
                           donehd: seq<AllocIndir>, writehd: seq<AllocIndir>, completehd: seq<AllocIndir>,
                           released: seq<AllocIndir>, done: set<nat>)

  ghost predicate Sound(c: Copies) {
    && |c.disk| == |c.full|
    && Lacks(c.safe, c.full, c.deplist + c.donehd) && OneEach(c.deplist + c.donehd)
    && AllHold(c.deplist, c.full) && AllHold(c.donehd, c.full)
    && Truthful(c.deplist, c.done) && AllDone(c.safe, c.done)
    && (forall k :: 0 <= k < |c.donehd| ==> c.donehd[k].AllComplete() && c.donehd[k].blk in c.done)
    && AllHold(c.writehd, c.safe)
    && AllHold(c.completehd, c.safe) && AllHold(c.completehd, c.disk)
    && AllHold(c.released, c.safe) && AllHold(c.released, c.disk)
    && AllDone(c.disk, c.done) && (forall o :: 0 <= o < |c.disk| && c.disk[o] != 0 ==> c.disk[o] == c.full[o])
  }

  lemma PendingConcat(a: seq<AllocIndir>, b: seq<AllocIndir>, o: nat)
    ensures Pending(a + b, o) <==> Pending(a, o) || Pending(b, o)
  {
    if Pending(a, o) {
      var k :| 0 <= k < |a| && a[k].off == o;
      assert (a + b)[k].off == o;
    }
    if Pending(b, o) {
      var k :| 0 <= k < |b| && b[k].off == o;
      assert (a + b)[|a| + k].off == o;
    }
  }

  /** The list without its k-th record. */
  function Without(list: seq<AllocIndir>, k: nat): seq<AllocIndir>
    requires k < |list|
  {
    list[..k] + list[k + 1..]
  }

  lemma PendingWithout(list: seq<AllocIndir>, k: nat, o: nat)
    requires OneEach(list) && k < |list|
    ensures Pending(Without(list, k), o) <==> Pending(list, o) && o != list[k].off
  {
    var r := Without(list, k);
    assert forall j :: 0 <= j < |r| ==> r[j] == list[if j < k then j else j + 1];
    if Pending(list, o) && o != list[k].off {
      var j :| 0 <= j < |list| && list[j].off == o;
      assert r[if j < k then j else j - 1].off == o;
    }
  }

  lemma WithoutConcat(a: seq<AllocIndir>, b: seq<AllocIndir>, k: nat)
    requires k < |a|
    ensures Without(a, k) + b == Without(a + b, k)
  {
  }

  /** softdep_setup_allocindir: a pointer that was empty gets a block. */
  function Entered(c: Copies, off: nat, blk: nat): Copies
    requires off < |c.full|
  {
    c.(full := c.full[off := blk], deplist := [AllocIndir(off, blk, false, false)] + c.deplist)
  }

  lemma EnterSound(c: Copies, off: nat, blk: nat)
    requires Sound(c) && off < |c.full| && c.full[off] == 0 && blk != 0
    ensures Sound(Entered(c, off, blk))
  {
    var r := AllocIndir(off, blk, false, false);
    var t := Entered(c, off, blk);
    assert t.deplist + t.donehd == [r] + (c.deplist + c.donehd);
    EnterOnce(c.deplist, c.donehd, c.full, off);
    forall o | 0 <= o < |t.full|
      ensures t.safe[o] == if Pending(t.deplist + t.donehd, o) then 0 else t.full[o]
    {
      PendingConcat([r], c.deplist + c.donehd, o);
      assert Pending([r], o) <==> o == off by { assert [r][0].off == off; }
    }
  }

  /** A slot that is empty in the block has no waiting record. */
  lemma EnterOnce(deplist: seq<AllocIndir>, donehd: seq<AllocIndir>, full: seq<nat>, off: nat)
    requires AllHold(deplist, full) && AllHold(donehd, full) && off < |full| && full[off] == 0
    ensures forall k :: 0 <= k < |deplist + donehd| ==> (deplist + donehd)[k].off != off
  {
    forall k | 0 <= k < |deplist + donehd|
      ensures (deplist + donehd)[k].off != off
    {
      if k < |deplist| {
        assert Holds(deplist[k], full);
      } else {
        assert Holds(donehd[k - |deplist|], full);
      }
    }
  }

  /** Record k of deplist is complete and moves on: its pointer enters the safe copy. */
  function Saved(c: Copies, k: nat): Copies
    requires k < |c.deplist| && c.deplist[k].off < |c.safe|
  {
    c.(safe := c.safe[c.deplist[k].off := c.deplist[k].blk], deplist := Without(c.deplist, k),
       writehd := [c.deplist[k]] + c.writehd)
  }

  lemma SaveSound(c: Copies, k: nat)
    requires Sound(c) && k < |c.deplist| && c.deplist[k].AllComplete()
    ensures Holds(c.deplist[k], c.full) && Sound(Saved(c, k))
  {
    assert Holds(c.deplist[k], c.full);
    var t, r := Saved(c, k), c.deplist[k];
    WithoutConcat(c.deplist, c.donehd, k);
    assert (c.deplist + c.donehd)[k] == r;
    forall o | 0 <= o < |t.full|
      ensures t.safe[o] == if Pending(t.deplist + t.donehd, o) then 0 else t.full[o]
    {
      PendingWithout(c.deplist + c.donehd, k, o);
    }
    assert c.safe[r.off] == 0 by { assert Pending(c.deplist + c.donehd, r.off); }
    StillHold(c.writehd, c.safe, t.safe, r.off);
    StillHold(c.completehd, c.safe, t.safe, r.off);
    StillHold(c.released, c.safe, t.safe, r.off);
  }

  lemma StillHold(list: seq<AllocIndir>, ptrs: seq<nat>, more: seq<nat>, off: nat)
    requires AllHold(list, ptrs) && off < |ptrs| == |more| && ptrs[off] == 0 && more == ptrs[off := more[off]]
    ensures AllHold(list, more)
  {
  }

  /** The same while a write of the safe copy is under way: the record waits for it to end. */
  lemma DeferSound(c: Copies, k: nat)
    requires Sound(c) && k < |c.deplist| && c.deplist[k].AllComplete()
    ensures Sound(c.(deplist := Without(c.deplist, k), donehd := [c.deplist[k]] + c.donehd))
  {
    var r := c.deplist[k];
    var t := c.(deplist := Without(c.deplist, k), donehd := [r] + c.donehd);
    var a, b := c.deplist + c.donehd, t.deplist + t.donehd;
    assert Holds(r, c.full);
    forall o
      ensures Pending(a, o) <==> Pending(b, o)
    {
      DeferPending(c.deplist, c.donehd, k, o);
    }
    DeferOnce(c.deplist, c.donehd, k);
  }

  lemma DeferPending(d: seq<AllocIndir>, e: seq<AllocIndir>, k: nat, o: nat)
    requires OneEach(d + e) && k < |d|
    ensures Pending(d + e, o) <==> Pending(Without(d, k) + ([d[k]] + e), o)
  {
    assert OneEach(d) by { assert forall j :: 0 <= j < |d| ==> (d + e)[j] == d[j]; }
    PendingConcat(d, e, o);
    PendingWithout(d, k, o);
    PendingConcat(Without(d, k), [d[k]] + e, o);
    PendingConcat([d[k]], e, o);
    assert Pending([d[k]], o) <==> o == d[k].off by { assert [d[k]][0].off == d[k].off; }
  }

  lemma DeferOnce(d: seq<AllocIndir>, e: seq<AllocIndir>, k: nat)
    requires OneEach(d + e) && k < |d|
    ensures OneEach(Without(d, k) + ([d[k]] + e))
  {
    var all, r := d + e, Without(d, k) + ([d[k]] + e);
    var n := |d| - 1;
    forall i, j | 0 <= i < j < |r|
      ensures r[i].off != r[j].off
    {
      var x := if i < k then i else if i < n then i + 1 else if i == n then k else i;
      var y := if j < k then j else if j < n then j + 1 else if j == n then k else j;
      assert r[i] == all[x] && r[j] == all[y];
    }
  }

  function Marked(r: AllocIndir, contents: bool): AllocIndir {
    if contents then r.(written := true) else r.(mapped := true)
  }

  function WithDone(done: set<nat>, r: AllocIndir): set<nat> { if r.AllComplete() then done + {r.blk} else done }

  /** The record after some reports: true for its contents, false for its free map. */
  function MarkedAll(r: AllocIndir, reports: seq<bool>): AllocIndir {
    if reports == [] then r else Marked(MarkedAll(r, reports[..|reports| - 1]), reports[|reports| - 1])
  }

  lemma {:induction false} MarksKept(r: AllocIndir, reports: seq<bool>)
    requires !r.written && !r.mapped
    ensures MarkedAll(r, reports) == r.(written := true in reports, mapped := false in reports)
    decreases |reports|
  {
    if reports != [] {
      var n := |reports| - 1;
      MarksKept(r, reports[..n]);
      assert reports == reports[..n] + [reports[n]];
    }
  }

  /** A new block becomes safe exactly when both were reported, in whatever order and however often. */
  lemma SafeWhenBoth(r: AllocIndir, reports: seq<bool>, done: set<nat>)
    requires !r.written && !r.mapped && r.blk !in done
    ensures r.blk in WithDone(done, MarkedAll(r, reports)) <==> true in reports && false in reports
    ensures MarkedAll(r, reports).AllComplete() <==> true in reports && false in reports
  {
    MarksKept(r, reports);
  }

  lemma MarkSound(c: Copies, k: nat, contents: bool)
    requires Sound(c) && k < |c.deplist|
    ensures Sound(c.(deplist := c.deplist[k := Marked(c.deplist[k], contents)],
                     done := WithDone(c.done, Marked(c.deplist[k], contents))))
  {
    var r := Marked(c.deplist[k], contents);
    var t := c.(deplist := c.deplist[k := r], done := WithDone(c.done, r));
    var a, b := c.deplist + c.donehd, t.deplist + t.donehd;
    assert forall j :: 0 <= j < |a| ==> a[j].off == b[j].off;
    forall o: nat
      ensures Pending(a, o) <==> Pending(b, o)
    {
      SameOffs(a, b, o);
    }
    assert Holds(c.deplist[k], c.full);
  }

  lemma SameOffs(a: seq<AllocIndir>, b: seq<AllocIndir>, o: nat)
    requires |a| == |b| && forall j :: 0 <= j < |a| ==> a[j].off == b[j].off
    ensures Pending(a, o) <==> Pending(b, o)
  {
    if Pending(a, o) {
      var k :| 0 <= k < |a| && a[k].off == o;
      assert b[k].off == o;
    }
  }

  /** The image that is written: the safe copy, or the block itself when nothing waits for its block. */
  predicate MayWrite(c: Copies, image: seq<nat>) { image == c.safe || (c.deplist == [] && image == c.full) }

  /** Every image holds only pointers to blocks that are safely on disk. */
  lemma ImageSafe(c: Copies, image: seq<nat>)
    requires Sound(c) && MayWrite(c, image)
    ensures |image| == |c.full| && AllDone(image, c.done)
    ensures forall o :: 0 <= o < |image| ==> c.safe[o] != 0 ==> image[o] == c.safe[o]
    ensures forall o :: 0 <= o < |image| && image[o] != 0 ==> image[o] == c.full[o]
  {
    if image != c.safe {
      assert c.deplist + c.donehd == c.donehd;
      forall o | 0 <= o < |image| && image[o] != 0
        ensures image[o] in c.done
      {
        if Pending(c.donehd, o) {
          var k :| 0 <= k < |c.donehd| && c.donehd[k].off == o;
          assert Holds(c.donehd[k], c.full);
        } else {
          assert c.safe[o] == c.full[o];
        }
      }
    }
  }

  lemma LandSound(c: Copies, image: seq<nat>)
    requires Sound(c) && MayWrite(c, image)
    ensures Sound(c.(disk := image)) && AllHold(c.writehd, image)
  {
    ImageSafe(c, image);
    HoldsIn(c.writehd, c.safe, image);
    HoldsIn(c.completehd, c.safe, image);
    HoldsIn(c.released, c.safe, image);
  }

  lemma HoldsIn(list: seq<AllocIndir>, safe: seq<nat>, image: seq<nat>)
    requires AllHold(list, safe) && |image| == |safe|
    requires forall o :: 0 <= o < |image| ==> safe[o] != 0 ==> image[o] == safe[o]
    ensures AllHold(list, image)
  {
    assert forall k :: 0 <= k < |list| ==> Holds(list[k], safe);
  }

  lemma HoldConcat(a: seq<AllocIndir>, b: seq<AllocIndir>, ptrs: seq<nat>)
    requires AllHold(a, ptrs) && AllHold(b, ptrs)
    ensures AllHold(a + b, ptrs)
  {
  }

  /** The records of a list, each in turn put at the head of another one. */
  function Pushed(list: seq<AllocIndir>, onto: seq<AllocIndir>): seq<AllocIndir> {
    if list == [] then onto else Pushed(list[1..], [list[0]] + onto)
  }

  lemma NonePushed()
    ensures Pushed([], []) == []
  {
  }

  /** The pointer of the first record of writehd is on disk: it waits for the parent or is released. */
  function Flushed(c: Copies, complete: bool): Copies
    requires c.writehd != []
  {
    if complete then c.(writehd := c.writehd[1..], released := c.released + [c.writehd[0]])
    else c.(writehd := c.writehd[1..], completehd := [c.writehd[0]] + c.completehd)
  }

  lemma FlushSound(c: Copies, complete: bool)
    requires Sound(c) && c.writehd != [] && AllHold(c.writehd, c.disk)
    ensures Sound(Flushed(c, complete)) && AllHold(c.writehd[1..], c.disk)
  {
    var first := [c.writehd[0]];
    HoldConcat(c.released, first, c.disk);
    HoldConcat(c.released, first, c.safe);
    HoldConcat(first, c.completehd, c.disk);
    HoldConcat(first, c.completehd, c.safe);
  }

  lemma ParentSound(c: Copies)
    requires Sound(c)
    ensures Sound(c.(completehd := [], released := c.released + c.completehd))
  {
    HoldConcat(c.released, c.completehd, c.disk);
    HoldConcat(c.released, c.completehd, c.safe);
  }

  /** The first record of donehd puts its pointer into the safe copy. */
  function Drained(c: Copies): Copies
    requires c.donehd != [] && c.donehd[0].off < |c.safe|
  {
    c.(safe := c.safe[c.donehd[0].off := c.donehd[0].blk], donehd := c.donehd[1..],
       writehd := [c.donehd[0]] + c.writehd)
  }

  lemma DrainSound(c: Copies)
    requires Sound(c) && c.donehd != []
    ensures Holds(c.donehd[0], c.full) && Sound(Drained(c))
  {
    assert Holds(c.donehd[0], c.full);
    var t, r, n := Drained(c), c.donehd[0], |c.deplist|;
    var all := c.deplist + c.donehd;
    assert all[n] == r && t.deplist + t.donehd == Without(all, n);
    forall o | 0 <= o < |t.full|
      ensures t.safe[o] == if Pending(t.deplist + t.donehd, o) then 0 else t.full[o]
    {
      PendingWithout(all, n, o);
    }
    assert c.safe[r.off] == 0 by { assert Pending(all, r.off); }
    StillHold(c.writehd, c.safe, t.safe, r.off);
    StillHold(c.completehd, c.safe, t.safe, r.off);
    StillHold(c.released, c.safe, t.safe, r.off);
    WithoutOnce(all, n);
  }

  lemma WithoutOnce(list: seq<AllocIndir>, k: nat)
    requires OneEach(list) && k < |list|
    ensures OneEach(Without(list, k))
  {
    var r := Without(list, k);
    assert forall j :: 0 <= j < |r| ==> r[j] == list[if j < k then j else j + 1];
  }

  /** The loop over donehd after a write. */
  method Drain(safe: seq<nat>, donehd: seq<AllocIndir>, writehd: seq<AllocIndir>, ghost c: Copies)
    returns (safe': seq<nat>, writehd': seq<AllocIndir>, ghost t: Copies)
    requires Sound(c) && c.safe == safe && c.donehd == donehd && c.writehd == writehd
    ensures Sound(t) && t == c.(safe := safe', donehd := [], writehd := writehd')
    ensures writehd' == Pushed(donehd, writehd)
  {
    safe', writehd', t := safe, writehd, c;
    var rest := donehd;
    while rest != []
      invariant Sound(t) && t == c.(safe := safe', donehd := rest, writehd := writehd')
      invariant Pushed(rest, writehd') == Pushed(donehd, writehd)
      decreases |rest|
    {
      DrainSound(t);
      t := Drained(t);
      safe', writehd' := safe'[rest[0].off := rest[0].blk], [rest[0]] + writehd';
      rest := rest[1..];
    }
  }

  /** struct indirdep with the buffer of its indirect block. */
  class IndirDep {
    var data: seq<nat>
    var safe: seq<nat>
    var saveddata: Option<seq<nat>>
    var deplist: seq<AllocIndir>
    var donehd: seq<AllocIndir>
    var writehd: seq<AllocIndir>
    var completehd: seq<AllocIndir>
    var iostarted: bool
    var undone: bool
    /** DEPCOMPLETE: the pointer to this block is on disk. */
    var depcomplete: bool

    ghost var full: seq<nat>
    ghost var disk: seq<nat>
    ghost var released: seq<AllocIndir>
    ghost var done: set<nat>

    ghost function Now(): Copies
      reads this
    {
      Copies(full, safe, disk, deplist, donehd, writehd, completehd, released, done)
    }

    ghost predicate Valid()
      reads this
    {
      && Sound(Now())
      && (if undone then iostarted && data == safe && saveddata == Some(full) else data == full && saveddata.None?)
      && (iostarted && !undone ==> deplist == [])
      && (if depcomplete then completehd == [] else released == [])
    }

    /** indirdep_lookup for a block without dependencies: both copies start equal. */
    constructor (ptrs: seq<nat>, depcomplete: bool, ghost done: set<nat>, ghost disk: seq<nat>)
      requires AllDone(ptrs, done) && |disk| == |ptrs| && forall o :: 0 <= o < |disk| && disk[o] != 0 ==>
                                                            disk[o] == ptrs[o]
      ensures Valid() && full == ptrs && !iostarted && this.depcomplete == depcomplete && this.done == done
      ensures deplist == donehd == writehd == completehd == released == [] && this.disk == disk
    {
      data, safe, full := ptrs, ptrs, ptrs;
      this.done, this.disk, this.depcomplete := done, disk, depcomplete;
      deplist, donehd, writehd, completehd, released := [], [], [], [], [];
      saveddata, iostarted, undone := None, false, false;
    }

    /** setup_allocindir_phase2 and the store that follows it. */
    method Setup(off: nat, blk: nat)
      requires Valid() && !iostarted && off < |full| && full[off] == 0 && blk != 0
      modifies this`data, this`full, this`deplist
      ensures Valid() && full == old(full)[off := blk] && data == full
      ensures deplist == [AllocIndir(off, blk, false, false)] + old(deplist)
    {
      EnterSound(Now(), off, blk);
      deplist := [AllocIndir(off, blk, false, false)] + deplist;
      data, full := data[off := blk], full[off := blk];
    }

    /** The contents or the free map of a new block reached the disk: handle_allocindir_partdone. */
    method Complete(k: nat, contents: bool)
      requires Valid() && k < |deplist|
      modifies this`deplist, this`donehd, this`writehd, this`safe, this`done
      ensures Valid() && full == old(full)
      ensures done == WithDone(old(done), Marked(old(deplist)[k], contents))
      ensures var r := Marked(old(deplist)[k], contents);
              if r.AllComplete() then deplist == Without(old(deplist), k) else deplist == old(deplist)[k := r]
      ensures var r := Marked(old(deplist)[k], contents);
              donehd == if r.AllComplete() && undone then [r] + old(donehd) else old(donehd)
      ensures var r := Marked(old(deplist)[k], contents);
              writehd == if r.AllComplete() && !undone then [r] + old(writehd) else old(writehd)
    {
      MarkSound(Now(), k, contents);
      var r := Marked(deplist[k], contents);
      deplist, done := deplist[k := r], WithDone(done, r);
      if r.AllComplete() {
        MoveOn(k);
      }
    }

    /** A complete record enters the safe copy, unless a write of that copy is under way. */
    method MoveOn(k: nat)
      requires Valid() && k < |deplist| && deplist[k].AllComplete()
      modifies this`deplist, this`donehd, this`writehd, this`safe
      ensures Valid() && deplist == Without(old(deplist), k)
      ensures if undone then donehd == [old(deplist)[k]] + old(donehd) && writehd == old(writehd)
              else writehd == [old(deplist)[k]] + old(writehd) && donehd == old(donehd)
    {
      var r := deplist[k];
      if undone {
        DeferSound(Now(), k);
        deplist, donehd := Without(deplist, k), [r] + donehd;
      } else {
        SaveSound(Now(), k);
        safe := safe[r.off := r.blk];
        deplist, writehd := Without(deplist, k), [r] + writehd;
      }
    }

    /** initiate_write_indirdep: the buffer becomes an image that is safe to write. */
    method InitiateWrite()
      requires Valid() && !iostarted
      modifies this`iostarted, this`undone, this`saveddata, this`data
      ensures Valid() && iostarted && full == old(full)
      ensures MayWrite(Now(), data) && AllDone(data, done)
      ensures data == (if deplist == [] then full else safe) && (undone <==> deplist != [])
    {
      iostarted := true;
      if deplist != [] {
        saveddata, undone, data := Some(data), true, safe;
      }
      ImageSafe(Now(), data);
    }

    /**
     * handle_written_indirdep: the buffer has every pointer again; if the write succeeded, the records
     * whose pointers were in the image move on.  Without further changes the copies are given up.
     */
    method HandleWritten(success: bool, landed: bool) returns (keep: bool)
      requires Valid() && iostarted && (success ==> landed)
      modifies this
      ensures Valid() && !iostarted && full == old(full) && data == full && done == old(done)
      ensures disk == (if landed then old(data) else old(disk)) && deplist == old(deplist)
              && depcomplete == old(depcomplete)
      ensures success ==> AllHold(old(writehd), disk) && donehd == [] && writehd == Pushed(old(donehd), [])
      ensures completehd == if success && !depcomplete then Pushed(old(writehd), old(completehd)) else old(completehd)
      ensures released == if success && depcomplete then old(released) + old(writehd) else old(released)
      ensures !success ==> donehd == old(donehd) && writehd == old(writehd)
      ensures keep <==> !success || old(undone) || old(donehd) != []
      ensures !keep ==> deplist == [] && donehd == [] && writehd == [] && disk == full
    {
      hide Sound, AllHold, Pushed, Lacks;
      if landed {
        LandSound(Now(), data);
        disk := data;
      }
      var chgs := saveddata.Some?;
      Restore();
      if !success {
        return true;
      }
      var drained := MoveLists();
      NonePushed();
      keep := chgs || drained;
    }

    /** The image is on disk: records whose pointer was in it move on, those that waited for it to end follow. */
    method MoveLists() returns (drained: bool)
      requires Valid() && !undone && !iostarted && AllHold(writehd, disk)
      modifies this`safe, this`donehd, this`writehd, this`completehd, this`released
      ensures Valid() && donehd == [] && writehd == Pushed(old(donehd), [])
      ensures completehd == if depcomplete then old(completehd) else Pushed(old(writehd), old(completehd))
      ensures released == if depcomplete then old(released) + old(writehd) else old(released)
      ensures drained <==> old(donehd) != []
    {
      hide Sound, AllHold, Pushed;
      FlushWritten();
      drained := donehd != [];
      DrainDone();
    }

    /** Revert the rollback. */
    method Restore()
      requires Valid() && iostarted
      modifies this`data, this`saveddata, this`undone, this`iostarted
      ensures Valid() && !iostarted && data == full
    {
      if saveddata.Some? {
        data, saveddata := saveddata.value, None;
      }
      undone, iostarted := false, false;
    }

    /** The loop over writehd: its records are freed, or wait for the pointer to this block. */
    method FlushWritten()
      requires Valid() && !undone && AllHold(writehd, disk)
      modifies this`writehd, this`completehd, this`released
      ensures Valid() && writehd == []
      ensures completehd == if depcomplete then old(completehd) else Pushed(old(writehd), old(completehd))
      ensures released == if depcomplete then old(released) + old(writehd) else old(released)
    {
      hide Sound, AllHold;
      while writehd != []
        invariant Valid() && AllHold(writehd, disk)
        invariant !depcomplete ==>
          Pushed(writehd, completehd) == Pushed(old(writehd), old(completehd)) && released == old(released)
        invariant depcomplete ==> completehd == old(completehd) && released + writehd == old(released) + old(writehd)
        decreases |writehd|
      {
        FlushSound(Now(), depcomplete);
        if !depcomplete {
          completehd := [writehd[0]] + completehd;
        } else {
          released := released + [writehd[0]];
        }
        writehd := writehd[1..];
      }
    }

    /** The loop over donehd: its records put their pointers into the safe copy. */
    method DrainDone()
      requires Valid() && !undone && !iostarted
      modifies this`safe, this`donehd, this`writehd
      ensures Valid() && donehd == [] && writehd == Pushed(old(donehd), old(writehd))
    {
      ghost var t;
      safe, writehd, t := Drain(safe, donehd, writehd, Now());
      donehd := [];
      assert Now() == t;
    }

    /** indirdep_complete: the pointer to this block is on disk, so the records that waited for it go. */
    method ParentWritten()
      requires Valid()
      modifies this`depcomplete, this`completehd, this`released
      ensures Valid() && depcomplete && released == old(released) + old(completehd)
    {
      ParentSound(Now());
      released, completehd, depcomplete := released + completehd, [], true;
    }
  }
}
