// Snapshot files: before a block of the live file system changes or goes away, every snapshot that
// still reads it gets a copy or takes the block over, so a frozen image never changes.
module Snapshots {
  import opened Basics

  /** The contents of a whole block. */
  type Data = nat

  /**
   * A pointer of a snapshot file: 0, BLK_NOCOPY, BLK_SNAP, or the block that holds this part of the
   * image (its own number when the snapshot claimed the block, another one when it was copied).
   */
  datatype Entry = Uncopied | NoCopy | SnapFile | At(blk: nat)

  /** Who uses a block: nobody, files (some of its fragments), a snapshot, a former snapshot file. */
  datatype Owner = Free | Live(frags: set<nat>) | Snapshot(id: nat) | Former

  datatype Snap = Snap(id: nat, entries: seq<Entry>)

  datatype Disk = Disk(content: seq<Data>, owner: seq<Owner>, snaps: seq<Snap>)

  /** What reading block b of the snapshot returns; unmapped blocks have no contents. */
  function Read(d: Disk, s: Snap, b: nat): Option<Data>
    requires b < |s.entries| && b < |d.content|
  {
    match s.entries[b]
    case Uncopied => Some(d.content[b])
    case At(c) => if c < |d.content| then Some(d.content[c]) else None
    case _ => None
  }

  /** Block b of the snapshot reads as it did when the snapshot was taken. */
  ghost predicate Holds(d: Disk, s: Snap, image: seq<Option<Data>>, b: nat)
    requires b < |s.entries| && b < |image| && b < |d.content| && |d.owner| == |d.content|
  {
    && Read(d, s, b) == image[b]
    && match s.entries[b]
       case Uncopied => d.owner[b] != Free
       case NoCopy => true
       case SnapFile => d.owner[b].Snapshot? || d.owner[b].Former?
       case At(c) => c < |d.owner| && d.owner[c] == Snapshot(s.id)
  }

  ghost predicate SnapOk(d: Disk, frozen: map<nat, seq<Option<Data>>>, i: nat)
    requires i < |d.snaps| && |d.owner| == |d.content|
  {
    var s := d.snaps[i];
    && s.id in frozen && |s.entries| == |frozen[s.id]| == |d.content|
    && forall b :: 0 <= b < |d.content| ==> Holds(d, s, frozen[s.id], b)
  }

  /** The images of all snapshots are intact, and a free block is needed by none of them. */
  ghost predicate Intact(d: Disk, frozen: map<nat, seq<Option<Data>>>) {
    && |d.owner| == |d.content|
    && forall i :: 0 <= i < |d.snaps| ==> SnapOk(d, frozen, i)
  }

  /** Every snapshot reads, at every block, exactly what was frozen. */
  lemma Immutable(d: Disk, frozen: map<nat, seq<Option<Data>>>, i: nat, b: nat)
    requires Intact(d, frozen) && i < |d.snaps| && b < |d.content|
    ensures SnapOk(d, frozen, i) && Read(d, d.snaps[i], b) == frozen[d.snaps[i].id][b]
    ensures d.owner[b] == Free ==> d.snaps[i].entries[b] != Uncopied
  {
    assert SnapOk(d, frozen, i);
    assert Holds(d, d.snaps[i], frozen[d.snaps[i].id], b);
  }

  /** No snapshot before the n-th still reads block b in place. */
  predicate Done(snaps: seq<Snap>, b: nat, n: nat) {
    n <= |snaps| && forall i :: 0 <= i < n ==> b < |snaps[i].entries| && snaps[i].entries[b] != Uncopied
  }

  /** No snapshot still reads block b in place. */
  predicate AllDone(snaps: seq<Snap>, b: nat) { Done(snaps, b, |snaps|) }

  function WithEntry(d: Disk, i: nat, b: nat, e: Entry): Disk
    requires i < |d.snaps| && b < |d.snaps[i].entries|
  {
    d.(snaps := d.snaps[i := Snap(d.snaps[i].id, d.snaps[i].entries[b := e])])
  }

  /** Snapshot i gets its own copy of block b at c. */
  function Copied(d: Disk, i: nat, b: nat, c: nat): Disk
    requires i < |d.snaps| && b < |d.snaps[i].entries| && b < |d.content| && c < |d.content| && c < |d.owner|
  {
    WithEntry(d, i, b, At(c)).(content := d.content[c := d.content[b]], owner := d.owner[c := Snapshot(d.snaps[i].id)])
  }

  lemma CopyKeeps(d: Disk, frozen: map<nat, seq<Option<Data>>>, i: nat, b: nat, c: nat)
    requires Intact(d, frozen) && i < |d.snaps| && b < |d.content| && c < |d.content| && d.owner[c] == Free
    requires SnapOk(d, frozen, i) && d.snaps[i].entries[b] == Uncopied
    ensures Intact(Copied(d, i, b, c), frozen) && b != c
  {
    var t := Copied(d, i, b, c);
    assert Holds(d, d.snaps[i], frozen[d.snaps[i].id], b);
    forall j | 0 <= j < |t.snaps|
      ensures SnapOk(t, frozen, j)
    {
      assert SnapOk(d, frozen, j);
      forall x | 0 <= x < |t.content|
        ensures Holds(t, t.snaps[j], frozen[t.snaps[j].id], x)
      {
        assert Holds(d, d.snaps[j], frozen[d.snaps[j].id], x);
      }
    }
  }

  /** Snapshot i takes block b over from the live file system. */
  function Claimed(d: Disk, i: nat, b: nat): Disk
    requires i < |d.snaps| && b < |d.snaps[i].entries| && b < |d.owner|
  {
    WithEntry(d, i, b, At(b)).(owner := d.owner[b := Snapshot(d.snaps[i].id)])
  }

  lemma ClaimKeeps(d: Disk, frozen: map<nat, seq<Option<Data>>>, i: nat, b: nat)
    requires Intact(d, frozen) && i < |d.snaps| && b < |d.content|
    requires d.owner[b].Live? || d.owner[b].Former?
    requires SnapOk(d, frozen, i) && d.snaps[i].entries[b] == Uncopied
    ensures Intact(Claimed(d, i, b), frozen)
  {
    var t := Claimed(d, i, b);
    assert Holds(d, d.snaps[i], frozen[d.snaps[i].id], b);
    forall j | 0 <= j < |t.snaps|
      ensures SnapOk(t, frozen, j)
    {
      assert SnapOk(d, frozen, j);
      forall x | 0 <= x < |t.content|
        ensures Holds(t, t.snaps[j], frozen[t.snaps[j].id], x)
      {
        assert Holds(d, d.snaps[j], frozen[d.snaps[j].id], x);
      }
    }
  }

  lemma ForgetKeeps(d: Disk, frozen: map<nat, seq<Option<Data>>>, i: nat, b: nat)
    requires Intact(d, frozen) && i < |d.snaps| && b < |d.content|
    requires SnapOk(d, frozen, i) && d.snaps[i].entries[b] == SnapFile
    ensures Intact(WithEntry(d, i, b, NoCopy), frozen)
  {
    var t := WithEntry(d, i, b, NoCopy);
    forall j | 0 <= j < |t.snaps|
      ensures SnapOk(t, frozen, j)
    {
      assert SnapOk(d, frozen, j);
      forall x | 0 <= x < |t.content|
        ensures Holds(t, t.snaps[j], frozen[t.snaps[j].id], x)
      {
        assert Holds(d, d.snaps[j], frozen[d.snaps[j].id], x);
      }
    }
  }

  /** Once no snapshot reads it, a live block may be changed, freed or given to other fragments. */
  lemma ReuseKeeps(d: Disk, frozen: map<nat, seq<Option<Data>>>, b: nat, data: Data, owner: Owner)
    requires Intact(d, frozen) && b < |d.content| && AllDone(d.snaps, b)
    requires d.owner[b].Live? || d.owner[b].Former? || d.owner[b].Free?
    requires forall i :: 0 <= i < |d.snaps| && b < |d.snaps[i].entries| && d.snaps[i].entries[b] == SnapFile ==>
               owner.Former?
    ensures Intact(d.(content := d.content[b := data], owner := d.owner[b := owner]), frozen)
  {
    var t := d.(content := d.content[b := data], owner := d.owner[b := owner]);
    forall j | 0 <= j < |t.snaps|
      ensures SnapOk(t, frozen, j)
    {
      assert SnapOk(d, frozen, j);
      forall x | 0 <= x < |t.content|
        ensures Holds(t, t.snaps[j], frozen[t.snaps[j].id], x)
      {
        assert Holds(d, d.snaps[j], frozen[d.snaps[j].id], x);
      }
    }
  }

  // ---- the sweeps over the snapshots

  /** Free blocks that the allocator will hand out for copies, in this order; then it fails. */
  predicate Spare(owner: seq<Owner>, pool: seq<nat>, used: nat) {
    && used <= |pool|
    && (forall k :: used <= k < |pool| ==> pool[k] < |owner| && owner[pool[k]] == Free)
    && (forall j, k :: used <= j < k < |pool| ==> pool[j] != pool[k])
  }

  /** Everything but the copies made of block b is as it was. */
  ghost predicate OnlyCopies(d: Disk, d0: Disk, b: nat, pool: seq<nat>, used: nat) {
    && |d.content| == |d0.content| && |d.owner| == |d0.owner| && used <= |pool|
    && (forall x :: 0 <= x < |d.owner| && d.owner[x] != d0.owner[x] ==> x in pool[..used])
    && (forall x :: 0 <= x < |d.content| && d.content[x] != d0.content[x] ==> x in pool[..used])
    && Onward(d, d0, b)
  }

  /** A snapshot's pointer for block b may have changed, but not back to uncopied. */
  predicate SnapOnward(s: Snap, s0: Snap, b: nat) {
    && s.id == s0.id && b < |s.entries| == |s0.entries|
    && s.entries == s0.entries[b := s.entries[b]]
    && (s.entries[b] == Uncopied ==> s0.entries[b] == Uncopied)
  }

  predicate Onward(d: Disk, d0: Disk, b: nat) {
    |d.snaps| == |d0.snaps| && forall i :: 0 <= i < |d.snaps| ==> SnapOnward(d.snaps[i], d0.snaps[i], b)
  }

  lemma StillDone(d: Disk, d0: Disk, b: nat, x: nat)
    requires Onward(d, d0, b) && AllDone(d0.snaps, x)
    ensures AllDone(d.snaps, x)
  {
    forall i | 0 <= i < |d.snaps|
      ensures x < |d.snaps[i].entries| && d.snaps[i].entries[x] != Uncopied
    {
      assert SnapOnward(d.snaps[i], d0.snaps[i], b);
    }
  }

  /** The number of snapshots before the n-th that read block b in place. */
  function Readers(snaps: seq<Snap>, b: nat, n: nat): (r: nat)
    requires n <= |snaps|
    ensures r == 0 <==> forall i :: 0 <= i < n ==> !Reads(snaps[i], b)
  {
    if n == 0 then 0 else Readers(snaps, b, n - 1) + if Reads(snaps[n - 1], b) then 1 else 0
  }

  predicate Reads(s: Snap, b: nat) { b < |s.entries| && s.entries[b] == Uncopied }

  /** The number of copies of block b that are needed and can be had. */
  function Copies(snaps: seq<Snap>, b: nat, pool: seq<nat>): nat {
    if Readers(snaps, b, |snaps|) <= |pool| then Readers(snaps, b, |snaps|) else |pool|
  }

  /** Snapshot i after the copies: the k-th reader of the block has the k-th block of the pool. */
  function AfterCopy(snaps: seq<Snap>, i: nat, b: nat, pool: seq<nat>): Snap
    requires i < |snaps|
  {
    if Reads(snaps[i], b) && Readers(snaps, b, i) < |pool| then
      Snap(snaps[i].id, snaps[i].entries[b := At(pool[Readers(snaps, b, i)])])
    else snaps[i]
  }

  /** All snapshots before the n-th have their copies. */
  predicate CopiedUpTo(snaps: seq<Snap>, snaps0: seq<Snap>, b: nat, pool: seq<nat>, n: nat) {
    n <= |snaps| == |snaps0| && forall i :: 0 <= i < n ==> snaps[i] == AfterCopy(snaps0, i, b, pool)
  }

  lemma {:induction false} ReadersMore(snaps: seq<Snap>, b: nat, i: nat, n: nat)
    requires i <= n <= |snaps|
    ensures Readers(snaps, b, i) <= Readers(snaps, b, n)
    decreases n
  {
    if i < n {
      ReadersMore(snaps, b, i, n - 1);
    }
  }

  /** When the pool is used up at a reader, the rest of the snapshots stay as they are. */
  lemma PoolEmpty(snaps: seq<Snap>, snaps0: seq<Snap>, b: nat, pool: seq<nat>, n: nat)
    requires CopiedUpTo(snaps, snaps0, b, pool, n) && snaps[n..] == snaps0[n..]
    requires n < |snaps| && Reads(snaps[n], b) && Readers(snaps0, b, n) == |pool|
    ensures CopiedUpTo(snaps, snaps0, b, pool, |snaps|) && Readers(snaps0, b, |snaps|) > |pool|
  {
    assert snaps[n] == snaps[n..][0] == snaps0[n];
    ReadersMore(snaps0, b, n + 1, |snaps|);
    forall i | n <= i < |snaps|
      ensures snaps[i] == AfterCopy(snaps0, i, b, pool)
    {
      assert snaps[i] == snaps[n..][i - n] == snaps0[i];
      ReadersMore(snaps0, b, n, i);
    }
  }

  /** Snapshot i after the free of the whole block: the first reader has it, an earlier file of it let go. */
  function AfterClaim(snaps: seq<Snap>, i: nat, b: nat): Snap
    requires i < |snaps|
  {
    if b < |snaps[i].entries| && Readers(snaps, b, i) == 0 then
      match snaps[i].entries[b]
      case Uncopied => Snap(snaps[i].id, snaps[i].entries[b := At(b)])
      case SnapFile => Snap(snaps[i].id, snaps[i].entries[b := NoCopy])
      case _ => snaps[i]
    else snaps[i]
  }

  /** The state of a sweep for block b before its n-th snapshot. */
  ghost predicate Sweeping(d: Disk, d0: Disk, frozen: map<nat, seq<Option<Data>>>, b: nat, n: nat, pool: seq<nat>,
                           used: nat) {
    && Intact(d, frozen) && Done(d.snaps, b, n) && Spare(d.owner, pool, used)
    && OnlyCopies(d, d0, b, pool, used)
    && b < |d.owner| && d.owner[b] == d0.owner[b] && d.content[b] == d0.content[b]
    && d.snaps[n..] == d0.snaps[n..]
    && CopiedUpTo(d.snaps, d0.snaps, b, pool, n) && used == Readers(d0.snaps, b, n)
  }

  /** Every snapshot before the n-th has its copy once the next reader has one. */
  lemma CopiedNext(d: Disk, d0: Disk, b: nat, i: nat, pool: seq<nat>, used: nat)
    requires i < |d.snaps| == |d0.snaps| && d.snaps[i] == d0.snaps[i] && Reads(d.snaps[i], b)
    requires CopiedUpTo(d.snaps, d0.snaps, b, pool, i) && used == Readers(d0.snaps, b, i) < |pool|
    requires b < |d.content| && pool[used] < |d.content| && pool[used] < |d.owner|
    ensures CopiedUpTo(Copied(d, i, b, pool[used]).snaps, d0.snaps, b, pool, i + 1)
    ensures used + 1 == Readers(d0.snaps, b, i + 1)
  {
  }

  lemma CopySweeps(d: Disk, d0: Disk, frozen: map<nat, seq<Option<Data>>>, b: nat, i: nat, pool: seq<nat>, used: nat)
    requires Sweeping(d, d0, frozen, b, i, pool, used) && i < |d.snaps| && used < |pool|
    requires SnapOk(d, frozen, i) && d.snaps[i].entries[b] == Uncopied
    ensures Sweeping(Copied(d, i, b, pool[used]), d0, frozen, b, i + 1, pool, used + 1)
  {
    hide Intact, SnapOk, CopiedUpTo, Readers;
    LengthsAgree(d, frozen, i);
    var t := Copied(d, i, b, pool[used]);
    assert |d.snaps| == |d0.snaps| && d.snaps[i] == d.snaps[i..][0] == d0.snaps[i];
    CopiedNext(d, d0, b, i, pool, used);
    CopyKeeps(d, frozen, i, b, pool[used]);
    assert pool[..used + 1] == pool[..used] + [pool[used]];
    assert t.snaps[i + 1..] == d.snaps[i..][1..] == d0.snaps[i + 1..];
    assert forall j :: 0 <= j < |d.snaps| ==> SnapOnward(d.snaps[j], d0.snaps[j], b);
  }

  lemma LengthsAgree(d: Disk, frozen: map<nat, seq<Option<Data>>>, i: nat)
    requires Intact(d, frozen) && i < |d.snaps|
    ensures |d.owner| == |d.content| == |d.snaps[i].entries|
  {
    assert SnapOk(d, frozen, i);
  }

  /** One copy: allocate a block, fill it from the saved contents or from the disk, point to it. */
  method CopyBlock(d: Disk, i: nat, b: nat, pool: seq<nat>, used: nat, saved: Option<Data>,
                   ghost d0: Disk, ghost frozen: map<nat, seq<Option<Data>>>) returns (t: Disk)
    requires Sweeping(d, d0, frozen, b, i, pool, used) && i < |d.snaps| && used < |pool|
    requires SnapOk(d, frozen, i) && d.snaps[i].entries[b] == Uncopied
    requires saved.Some? ==> saved.value == d.content[b]
    ensures Sweeping(t, d0, frozen, b, i + 1, pool, used + 1)
  {
    LengthsAgree(d, frozen, i);
    CopySweeps(d, d0, frozen, b, i, pool, used);
    var c := pool[used];
    var data := if saved.Some? then saved.value else d.content[b];
    t := WithEntry(d, i, b, At(c)).(content := d.content[c := data], owner := d.owner[c := Snapshot(d.snaps[i].id)]);
    assert t == Copied(d, i, b, c);
  }

  lemma SameOnward(d: Disk, frozen: map<nat, seq<Option<Data>>>, b: nat)
    requires Intact(d, frozen) && b < |d.content|
    ensures Onward(d, d, b)
  {
    forall i | 0 <= i < |d.snaps|
      ensures SnapOnward(d.snaps[i], d.snaps[i], b)
    {
      assert SnapOk(d, frozen, i);
    }
  }

  /** The sweep of ffs_snapblkfree for a fragment: every snapshot that reads the block copies it. */
  method CopyForAll(d0: Disk, b: nat, pool: seq<nat>, ghost frozen: map<nat, seq<Option<Data>>>)
    returns (d: Disk, failed: bool, used: nat)
    requires Intact(d0, frozen) && b < |d0.content| && d0.owner[b].Live? && Spare(d0.owner, pool, 0)
    ensures used <= |pool| && Intact(d, frozen) && OnlyCopies(d, d0, b, pool, used)
    ensures d.owner[b] == d0.owner[b] && d.content[b] == d0.content[b]
    ensures failed <==> Readers(d0.snaps, b, |d0.snaps|) > |pool|
    ensures used == Copies(d0.snaps, b, pool) && CopiedUpTo(d.snaps, d0.snaps, b, pool, |d.snaps|)
    ensures !failed ==> AllDone(d.snaps, b)
  {
    hide Onward;
    d, failed, used := d0, false, 0;
    SameOnward(d0, frozen, b);
    var saved: Option<Data> := None;
    var i := 0;
    while i < |d.snaps|
      invariant i <= |d.snaps| && Sweeping(d, d0, frozen, b, i, pool, used)
      invariant saved.Some? ==> saved.value == d.content[b]
    {
      assert SnapOk(d, frozen, i) && Holds(d, d.snaps[i], frozen[d.snaps[i].id], b);
      assert d.snaps[i] == d.snaps[i..][0] == d0.snaps[i];
      var blkno := d.snaps[i].entries[b];
      assert blkno != SnapFile; // panics: inconsistent block type, bad copy block
      if blkno == Uncopied {
        if used == |pool| {
          PoolEmpty(d.snaps, d0.snaps, b, pool, i);
          return d, true, used;
        }
        d := CopyBlock(d, i, b, pool, used, saved, d0, frozen);
        used, saved := used + 1, Some(d.content[b]);
      }
      i := i + 1;
    }
  }

  /** No snapshot has anything to do with block b any more. */
  predicate Unwanted(snaps: seq<Snap>, b: nat, n: nat) {
    && n <= |snaps|
    && forall i :: 0 <= i < n ==>
         b < |snaps[i].entries| && snaps[i].entries[b] != Uncopied && snaps[i].entries[b] != SnapFile
  }

  /** The sweep of ffs_snapblkfree for a whole block: the first snapshot that reads it takes it over. */
  method ClaimForOne(d0: Disk, b: nat, ghost frozen: map<nat, seq<Option<Data>>>) returns (d: Disk, claimed: bool)
    requires Intact(d0, frozen) && b < |d0.content| && (d0.owner[b].Live? || d0.owner[b].Former?)
    ensures Intact(d, frozen) && d.content == d0.content && |d.snaps| == |d0.snaps|
    ensures claimed <==> !AllDone(d0.snaps, b)
    ensures if claimed then d.owner[b].Snapshot? && d.owner == d0.owner[b := d.owner[b]]
            else d.owner == d0.owner && Unwanted(d.snaps, b, |d.snaps|)
    ensures forall i :: 0 <= i < |d.snaps| ==> d.snaps[i] == AfterClaim(d0.snaps, i, b)
    ensures Onward(d, d0, b)
  {
    hide Readers;
    d, claimed := d0, false;
    SameOnward(d0, frozen, b);
    var i := 0;
    while i < |d.snaps|
      invariant i <= |d.snaps| == |d0.snaps| && Intact(d, frozen) && Unwanted(d.snaps, b, i) && Done(d0.snaps, b, i)
      invariant d.content == d0.content && d.owner == d0.owner && d.snaps[i..] == d0.snaps[i..]
      invariant Onward(d, d0, b) && forall k :: 0 <= k < i ==> d.snaps[k] == AfterClaim(d0.snaps, k, b)
    {
      assert d.snaps[i] == d.snaps[i..][0] == d0.snaps[i..][0] == d0.snaps[i];
      assert SnapOk(d, frozen, i) && Holds(d, d.snaps[i], frozen[d.snaps[i].id], b);
      var blkno := d.snaps[i].entries[b];
      if blkno == Uncopied {
        ClaimKeeps(d, frozen, i, b);
        OneClaim(d.snaps, d0.snaps, b, i);
        return Claimed(d, i, b), true;
      }
      if blkno == SnapFile {
        ForgetKeeps(d, frozen, i, b);
        d := WithEntry(d, i, b, NoCopy);
      }
      i := i + 1;
      assert d.snaps[i..] == d0.snaps[i - 1..][1..];
    }
  }

  /** Snapshots after the one that claims the block stay as they are. */
  lemma OneClaim(snaps: seq<Snap>, snaps0: seq<Snap>, b: nat, i: nat)
    requires i < |snaps| == |snaps0| && snaps[i..] == snaps0[i..] && Done(snaps0, b, i) && Reads(snaps[i], b)
    ensures Readers(snaps0, b, i) == 0 && snaps[i] == snaps0[i]
    ensures forall k :: i < k < |snaps| ==> snaps[k] == snaps0[k] == AfterClaim(snaps0, k, b)
  {
    assert snaps[i] == snaps[i..][0] == snaps0[i];
    forall k | i < k < |snaps|
      ensures snaps[k] == snaps0[k] == AfterClaim(snaps0, k, b)
    {
      assert snaps[k] == snaps[i..][k - i] == snaps0[k];
      ReadersMore(snaps0, b, i + 1, k);
    }
  }

  /** The search for a block in the sorted hint list, whose first element is not a hint. */
  method Hinted(list: seq<nat>, lbn: nat) returns (found: bool)
    requires forall i, j :: 1 <= i < j < |list| ==> list[i] < list[j]
    ensures found <==> exists k :: 1 <= k < |list| && list[k] == lbn
  {
    var lower, upper := 1, |list| - 1;
    while lower <= upper
      invariant 1 <= lower && upper < |list|
      invariant forall k :: 1 <= k < |list| && list[k] == lbn ==> lower <= k <= upper
      decreases upper - lower
    {
      var mid := (lower + upper) / 2;
      if list[mid] == lbn {
        return true;
      }
      if list[mid] < lbn {
        lower := mid + 1;
      } else {
        upper := mid - 1;
      }
    }
    found := false;
  }

  /** A new snapshot's pointer for block b: the block as it is, or a copy already made of it. */
  ghost predicate Starts(d: Disk, s: Snap, b: nat)
    requires b < |s.entries| && b < |d.content| && |d.owner| == |d.content|
  {
    && (d.owner[b].Live? ==> s.entries[b].Uncopied? || s.entries[b].At?)
    && match s.entries[b]
       case Uncopied => d.owner[b] != Free
       case NoCopy => true
       case SnapFile => d.owner[b].Snapshot? || d.owner[b].Former?
       case At(c) => c < |d.owner| && d.owner[c] == Snapshot(s.id) && d.content[c] == d.content[b]
  }

  function Image(d: Disk, s: Snap): (r: seq<Option<Data>>)
    requires |s.entries| == |d.content|
  {
    seq(|d.content|, b requires 0 <= b < |d.content| => Read(d, s, b))
  }

  lemma TakeKeeps(d: Disk, frozen: map<nat, seq<Option<Data>>>, s: Snap)
    requires Intact(d, frozen) && |s.entries| == |d.content| && s.id !in frozen
    requires forall b :: 0 <= b < |d.content| ==> Starts(d, s, b)
    ensures Intact(d.(snaps := d.snaps + [s]), frozen[s.id := Image(d, s)])
    ensures forall b :: 0 <= b < |d.content| && d.owner[b].Live? ==> Image(d, s)[b] == Some(d.content[b])
  {
    var t, f := d.(snaps := d.snaps + [s]), frozen[s.id := Image(d, s)];
    forall b | 0 <= b < |d.content| && d.owner[b].Live?
      ensures Image(d, s)[b] == Some(d.content[b])
    {
      assert Starts(d, s, b);
    }
    forall j | 0 <= j < |t.snaps|
      ensures SnapOk(t, f, j)
    {
      if j < |d.snaps| {
        assert SnapOk(d, frozen, j) && t.snaps[j] == d.snaps[j];
        assert forall b :: 0 <= b < |d.content| ==> Holds(d, d.snaps[j], frozen[d.snaps[j].id], b);
      }
      forall b | 0 <= b < |t.content|
        ensures Holds(t, t.snaps[j], f[t.snaps[j].id], b)
      {
        if j < |d.snaps| {
          assert Holds(d, d.snaps[j], frozen[d.snaps[j].id], b);
        } else {
          assert Starts(d, s, b);
        }
      }
    }
  }

  /** The blocks of a snapshot that is no longer one belong to an ordinary file. */
  function Disowned(owner: seq<Owner>, id: nat): (r: seq<Owner>)
    ensures |r| == |owner|
    ensures forall b :: 0 <= b < |r| ==> r[b] == if owner[b] == Snapshot(id) then Former else owner[b]
  {
    seq(|owner|, b requires 0 <= b < |owner| => if owner[b] == Snapshot(id) then Former else owner[b])
  }

  lemma DropKeeps(d: Disk, frozen: map<nat, seq<Option<Data>>>, i: nat)
    requires Intact(d, frozen) && i < |d.snaps|
    requires forall j :: 0 <= j < |d.snaps| && j != i ==> d.snaps[j].id != d.snaps[i].id
    ensures Intact(d.(snaps := d.snaps[..i] + d.snaps[i + 1..], owner := Disowned(d.owner, d.snaps[i].id)), frozen)
  {
    var t := d.(snaps := d.snaps[..i] + d.snaps[i + 1..], owner := Disowned(d.owner, d.snaps[i].id));
    forall j | 0 <= j < |t.snaps|
      ensures SnapOk(t, frozen, j)
    {
      var k := if j < i then j else j + 1;
      assert t.snaps[j] == d.snaps[k] && SnapOk(d, frozen, k);
      forall b | 0 <= b < |t.content|
        ensures Holds(t, t.snaps[j], frozen[t.snaps[j].id], b)
      {
        assert Holds(d, d.snaps[k], frozen[d.snaps[k].id], b);
      }
    }
  }

  /** Direct blocks and hinted blocks were copied when the snapshots were taken. */
  predicate Precopied(snaps: seq<Snap>, hints: seq<nat>, nd: nat) {
    && (forall i, j :: 1 <= i < j < |hints| ==> hints[i] < hints[j])
    && (forall b :: 0 <= b < nd ==> AllDone(snaps, b))
    && (forall k :: 1 <= k < |hints| ==> AllDone(snaps, hints[k]))
  }

  lemma DropDone(snaps: seq<Snap>, i: nat, b: nat)
    requires i < |snaps| && AllDone(snaps, b)
    ensures AllDone(snaps[..i] + snaps[i + 1..], b)
  {
  }

  lemma DropPrecopied(snaps: seq<Snap>, i: nat, hints: seq<nat>, nd: nat)
    requires i < |snaps| && Precopied(snaps, hints, nd)
    ensures Precopied(snaps[..i] + snaps[i + 1..], hints, nd)
  {
    var rest := snaps[..i] + snaps[i + 1..];
    forall b | 0 <= b < nd
      ensures AllDone(rest, b)
    {
      DropDone(snaps, i, b);
    }
    forall k | 1 <= k < |hints|
      ensures AllDone(rest, hints[k])
    {
      DropDone(snaps, i, hints[k]);
    }
  }

  lemma TakeDone(snaps: seq<Snap>, s: Snap, b: nat)
    requires AllDone(snaps, b) && b < |s.entries| && s.entries[b] != Uncopied
    ensures AllDone(snaps + [s], b)
  {
  }

  /** The block device with its snapshots.  A snapshot never needs a copy of the first nd blocks. */
  class Volume {
    const nd: nat
    var content: seq<Data>
    var owner: seq<Owner>
    var snaps: seq<Snap>
    var hints: seq<nat>
    ghost var frozen: map<nat, seq<Option<Data>>>

    function Now(): Disk
      reads this
    {
      Disk(content, owner, snaps)
    }

    ghost predicate Valid()
      reads this
    {
      Intact(Now(), frozen) && Precopied(snaps, hints, nd)
    }

    /** A volume without files and snapshots. */
    constructor (nd: nat, blocks: nat)
      ensures Valid() && snaps == [] && hints == [] && frozen == map[] && |content| == blocks && this.nd == nd
      ensures forall b :: 0 <= b < blocks ==> content[b] == 0 && owner[b] == Free
    {
      this.nd := nd;
      content, owner := seq(blocks, i => 0), seq(blocks, i => Free);
      snaps, hints, frozen := [], [], map[];
    }

    /** ffs_copyonwrite and the write that follows it; without room for the copies it fails. */
    method Write(b: nat, data: Data, pool: seq<nat>) returns (failed: bool)
      requires Valid() && b < |content| && owner[b].Live? && Spare(owner, pool, 0)
      modifies this`content, this`owner, this`snaps
      ensures Valid() && |content| == |old(content)| && |snaps| == |old(snaps)|
      ensures failed <==> Readers(old(snaps), b, |snaps|) > |pool|
      ensures CopiedUpTo(snaps, old(snaps), b, pool, |snaps|)
      ensures content[b] == if failed then old(content)[b] else data
      ensures owner[b] == old(owner)[b]
      ensures forall x :: 0 <= x < |content| && x != b && x !in pool[..Copies(old(snaps), b, pool)] ==>
        content[x] == old(content)[x] && owner[x] == old(owner)[x]
    {
      failed := false;
      var found := Hinted(hints, b);
      if b >= nd && !found {
        var d, used;
        d, failed, used := CopyForAll(Now(), b, pool, frozen);
        Move(d, b);
      } else {
        assert AllDone(snaps, b);
      }
      if !failed {
        NotSnapFile(Now(), frozen, b);
        ReuseKeeps(Now(), frozen, b, data, owner[b]);
        assert owner[b := owner[b]] == owner;
        content := content[b := data];
      }
    }

    /** The free of a whole block: freed unless a snapshot still reads it and takes it over. */
    method FreeBlock(b: nat) returns (claimed: bool)
      requires Valid() && b < |content| && (owner[b].Live? || owner[b].Former?)
      modifies this`content, this`owner, this`snaps
      ensures Valid() && content == old(content) && |snaps| == |old(snaps)|
      ensures claimed <==> !AllDone(old(snaps), b)
      ensures forall i :: 0 <= i < |snaps| ==> snaps[i] == AfterClaim(old(snaps), i, b)
      ensures owner == old(owner)[b := owner[b]] && if claimed then owner[b].Snapshot? else owner[b] == Free
    {
      var d;
      d, claimed := ClaimForOne(Now(), b, frozen);
      Move(d, b);
      if !claimed {
        ReuseKeeps(Now(), frozen, b, content[b], Free);
        assert content[b := content[b]] == content;
        owner := owner[b := Free];
      }
    }

    /** The free of some fragments of a block: every snapshot that reads the block copies it first. */
    method FreeFrags(b: nat, frags: set<nat>, pool: seq<nat>) returns (failed: bool)
      requires Valid() && b < |content| && owner[b].Live? && frags <= owner[b].frags && Spare(owner, pool, 0)
      modifies this`content, this`owner, this`snaps
      ensures Valid() && |content| == |old(content)| && |snaps| == |old(snaps)|
      ensures failed <==> Readers(old(snaps), b, |snaps|) > |pool|
      ensures CopiedUpTo(snaps, old(snaps), b, pool, |snaps|) && content[b] == old(content)[b]
      ensures failed ==> owner[b] == old(owner)[b]
      ensures !failed ==> owner[b] == if frags == old(owner)[b].frags then Free else Live(old(owner)[b].frags - frags)
      ensures forall x :: 0 <= x < |content| && x != b && x !in pool[..Copies(old(snaps), b, pool)] ==>
        content[x] == old(content)[x] && owner[x] == old(owner)[x]
    {
      var d, used;
      d, failed, used := CopyForAll(Now(), b, pool, frozen);
      Move(d, b);
      if !failed {
        var left := if frags == owner[b].frags then Free else Live(owner[b].frags - frags);
        NotSnapFile(Now(), frozen, b);
        ReuseKeeps(Now(), frozen, b, content[b], left);
        assert content[b := content[b]] == content;
        owner := owner[b := left];
      }
    }

    /** The live file system allocates fragments of a free or a partly used block. */
    method Allocate(b: nat, frags: set<nat>)
      requires Valid() && b < |content| && frags != {}
      requires owner[b].Free? || (owner[b].Live? && owner[b].frags !! frags)
      modifies this`owner
      ensures Valid()
      ensures owner == old(owner)[b := Live((if old(owner)[b].Live? then old(owner)[b].frags else {}) + frags)]
    {
      var more := Live((if owner[b].Live? then owner[b].frags else {}) + frags);
      NoSnapFile(Now(), frozen, b, more);
      owner := owner[b := more];
    }

    /** A snapshot is taken: it holds every live block as it is now. */
    method Take(s: Snap, newHints: seq<nat>)
      requires Valid() && |s.entries| == |content| && s.id !in frozen
      requires forall b :: 0 <= b < |content| ==> Starts(Now(), s, b)
      requires nd <= |content| && forall b :: 0 <= b < nd ==> s.entries[b] != Uncopied
      requires forall i, j :: 1 <= i < j < |newHints| ==> newHints[i] < newHints[j]
      requires forall k :: 1 <= k < |newHints| ==>
        newHints[k] < |content| && s.entries[newHints[k]] != Uncopied && AllDone(snaps, newHints[k])
      modifies this`snaps, this`hints, this`frozen
      ensures Valid() && snaps == old(snaps) + [s] && hints == newHints
      ensures frozen == old(frozen)[s.id := Image(old(Now()), s)]
      ensures forall b :: 0 <= b < |content| && owner[b].Live? ==> frozen[s.id][b] == Some(content[b])
    {
      TakeKeeps(Now(), frozen, s);
      forall b | 0 <= b < |content| && AllDone(snaps, b) && s.entries[b] != Uncopied
        ensures AllDone(snaps + [s], b)
      {
        TakeDone(snaps, s, b);
      }
      frozen := frozen[s.id := Image(Now(), s)];
      snaps, hints := snaps + [s], newHints;
    }

    /** A snapshot is given up; its blocks are an ordinary file's from now on. */
    method Drop(i: nat)
      requires Valid() && i < |snaps| && forall j :: 0 <= j < |snaps| && j != i ==> snaps[j].id != snaps[i].id
      modifies this`snaps, this`owner
      ensures Valid() && snaps == old(snaps)[..i] + old(snaps)[i + 1..]
              && owner == Disowned(old(owner), old(snaps)[i].id)
    {
      DropKeeps(Now(), frozen, i);
      DropPrecopied(snaps, i, hints, nd);
      owner := Disowned(owner, snaps[i].id);
      snaps := snaps[..i] + snaps[i + 1..];
    }

    method Move(d: Disk, b: nat)
      requires Valid() && Intact(d, frozen) && Onward(d, Now(), b)
      modifies this`content, this`owner, this`snaps
      ensures Valid() && Now() == d
    {
      forall x: nat | AllDone(snaps, x)
        ensures AllDone(d.snaps, x)
      {
        StillDone(d, Now(), b, x);
      }
      content, owner, snaps := d.content, d.owner, d.snaps;
    }
  }

  lemma NotSnapFile(d: Disk, frozen: map<nat, seq<Option<Data>>>, b: nat)
    requires Intact(d, frozen) && b < |d.content| && d.owner[b].Live?
    ensures forall i :: 0 <= i < |d.snaps| ==> b < |d.snaps[i].entries| && d.snaps[i].entries[b] != SnapFile
  {
    forall i | 0 <= i < |d.snaps|
      ensures b < |d.snaps[i].entries| && d.snaps[i].entries[b] != SnapFile
    {
      assert SnapOk(d, frozen, i) && Holds(d, d.snaps[i], frozen[d.snaps[i].id], b);
    }
  }

  /** Giving fragments of a block to files does not concern the snapshots. */
  lemma NoSnapFile(d: Disk, frozen: map<nat, seq<Option<Data>>>, b: nat, owner: Owner)
    requires Intact(d, frozen) && b < |d.content| && owner.Live? && (d.owner[b].Free? || d.owner[b].Live?)
    ensures Intact(d.(owner := d.owner[b := owner]), frozen)
  {
    var t := d.(owner := d.owner[b := owner]);
    forall j | 0 <= j < |t.snaps|
      ensures SnapOk(t, frozen, j)
    {
      assert SnapOk(d, frozen, j);
      forall x | 0 <= x < |t.content|
        ensures Holds(t, t.snaps[j], frozen[t.snaps[j].id], x)
      {
        assert Holds(d, d.snaps[j], frozen[d.snaps[j].id], x);
      }
    }
  }
}
