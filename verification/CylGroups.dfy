// A cylinder group and its summaries, updated in place by allocation, extension and release.
module CylGroups {
  import opened Runs
  import opened FragTables
  import opened FragMap
  import opened BlockSearch
  import opened GroupSums

  /** The part of struct csum that block accounting uses. */
  datatype Csum = Csum(nbfree: int, nffree: int)

  function SumOf(cs: seq<Csum>): Csum {
    if cs == [] then Csum(0, 0)
    else
      var rest, last := SumOf(cs[..|cs| - 1]), cs[|cs| - 1];
      Csum(rest.nbfree + last.nbfree, rest.nffree + last.nffree)
  }

  lemma {:induction false} SumUpdate(cs: seq<Csum>, x: nat, c: Csum)
    requires x < |cs|
    ensures SumOf(cs[x := c]).nbfree == SumOf(cs).nbfree - cs[x].nbfree + c.nbfree
    ensures SumOf(cs[x := c]).nffree == SumOf(cs).nffree - cs[x].nffree + c.nffree
  {
    var n := |cs| - 1;
    if x < n {
      assert cs[x := c][..n] == cs[..n][x := c];
      SumUpdate(cs[..n], x, c);
    } else {
      assert cs[x := c][..n] == cs[..n];
    }
  }

  lemma {:induction false} NothingFree(m: seq<Row>, frag: nat)
    requires frag > 0 && forall h :: 0 <= h < |m| ==> m[h] == AllClear(frag)
    ensures Total(m, FreeBlocks) == 0 && Total(m, FreeFrags) == 0
    ensures forall k :: 1 <= k ==> Total(m, FragRuns(k)) == 0
    ensures forall h :: 0 <= h < |m| ==> !IsFree(m[h])
  {
    FullWeights(frag);
    if m != [] { NothingFree(m[..|m| - 1], frag); }
  }

  lemma NoClusters(c: Row, last: nat)
    requires forall h :: 0 <= h < |c| ==> !c[h]
    ensures forall k :: 1 <= k <= last ==> ClassCount(c, k, last) == 0
  {
    forall k | 1 <= k <= last
      ensures ClassCount(c, k, last) == 0
    {
      forall p | 0 <= p < |c|
        ensures !ClassStarts(c, k, last)[p]
      {
        assert !c[p];
      }
      CountNone(ClassStarts(c, k, last));
    }
  }

  /** The in-memory superblock: per-group summaries, their total and the cluster bounds. */
  class SuperBlock {
    var cs: seq<Csum>
    var cstotal: Csum
    var maxcluster: seq<nat>

    ghost predicate Valid()
      reads this
    {
      cstotal == SumOf(cs)
    }

    /** fs_cstotal and fs_cs(fs, cg) move together. */
    method Adjust(cgx: nat, nbfree: int, nffree: int)
      requires Valid() && cgx < |cs|
      modifies this`cs, this`cstotal
      ensures Valid()
      ensures cs == old(cs)[cgx := Csum(old(cs)[cgx].nbfree + nbfree, old(cs)[cgx].nffree + nffree)]
    {
      SumUpdate(cs, cgx, Csum(cs[cgx].nbfree + nbfree, cs[cgx].nffree + nffree));
      cstotal := Csum(cstotal.nbfree + nbfree, cstotal.nffree + nffree);
      cs := cs[cgx := Csum(cs[cgx].nbfree + nbfree, cs[cgx].nffree + nffree)];
    }
  }

  /** The place of an address in its group: dtogd(). */
  function Offset(addr: nat, fpg: nat): (r: nat)
    requires 0 < fpg
    ensures r < fpg && (addr < fpg ==> r == addr) && (fpg <= addr < fpg + fpg ==> r == addr - fpg)
  {
    addr % fpg
  }

  class CylGroup {
    const fs: SuperBlock
    const cgx: nat
    const frag: nat       // fs_frag
    const fpg: nat        // fs_fpg
    const base: nat       // cgbase(fs, cgx)
    const dblkno: nat     // fs_dblkno
    const metaspace: nat  // fs_metaspace
    const contig: nat     // fs_contigsumsize
    const ndblk: nat      // cg_ndblk
    const blksfree: array<Byte>
    const frsum: array<int>
    const clustersfree: array<bool>
    const clustersum: array<int>
    var nbfree: int
    var nffree: int
    var rotor: nat
    var frotor: nat

    /** The free map: one row of frag bits for each block. */
    ghost function Map(): (m: seq<Row>)
      requires FragSize(frag)
      reads blksfree
      ensures |m| == BlockCount(frag, blksfree.Length)
      ensures forall h :: 0 <= h < |m| ==> |m[h]| == frag
    {
      Blocks(blksfree[..], frag)
    }

    /** The layout of the group, which no operation changes. */
    ghost predicate Shape()
      reads this, fs
    {
      && FragSize(frag) && fpg == 8 * blksfree.Length && 0 < fpg
      && ndblk <= fpg && dblkno + metaspace < fpg
      && (cgx == 0 <==> base == 0)
      && frsum.Length == 8 && frsum != clustersum
      && FragNo(frag, clustersfree.Length, 0) <= ndblk < FragNo(frag, clustersfree.Length + 1, 0)
      && clustersum.Length == contig + 1
      && rotor < fpg && frotor < fpg
      && cgx < |fs.cs| && cgx < |fs.maxcluster|
    }

    /** Block h has nothing free past the end of the group, or in block 0 of group 0. */
    ghost predicate RowInBounds(h: nat, row: Row)
      requires FragSize(frag)
      reads this
    {
      forall p :: 0 <= p < |row| && row[p] ==> FragNo(frag, h, p) < ndblk && (cgx == 0 ==> h != 0)
    }

    ghost predicate InBounds(m: seq<Row>)
      requires FragSize(frag)
      reads this
    {
      forall h :: 0 <= h < |m| ==> RowInBounds(h, m[h])
    }

    /** cs_nbfree, cs_nffree and cg_frsum are the totals of the map. */
    ghost predicate Counted(m: seq<Row>)
      reads this, frsum
    {
      && nbfree == Total(m, FreeBlocks)
      && nffree == Total(m, FreeFrags)
      && frsum.Length == 8
      && forall k :: 1 <= k < frag && k < 8 ==> frsum[k] == Total(m, FragRuns(k))
    }

    /** cg_clustersum is the histogram of the cluster map and fs_maxcluster bounds it. */
    ghost predicate ClusterSums()
      reads this, fs, clustersfree, clustersum
    {
      && cgx < |fs.maxcluster| && clustersum.Length == contig + 1 && fs.maxcluster[cgx] <= contig
      && (forall k :: 1 <= k <= contig ==> clustersum[k] == ClassCount(clustersfree[..], k, contig))
      && (forall k :: fs.maxcluster[cgx] < k <= contig ==> clustersum[k] == 0)
    }

    /** The cluster map marks the wholly free blocks. */
    ghost predicate Clustered(m: seq<Row>)
      reads this, clustersfree
    {
      contig > 0 ==> clustersfree.Length <= |m| && clustersfree[..] == FreeRow(m, clustersfree.Length)
    }

    /** Every summary in the group is the one its map determines. */
    ghost predicate Consistent()
      reads this, fs, blksfree, frsum, clustersfree, clustersum
    {
      Shape() && InBounds(Map()) && Counted(Map()) && (contig > 0 ==> ClusterSums()) && Clustered(Map())
    }

    /** ... and the superblock agrees with the group. */
    ghost predicate Valid()
      reads this, fs, blksfree, frsum, clustersfree, clustersum
    {
      Consistent() && fs.Valid() && fs.cs[cgx] == Csum(nbfree, nffree)
    }

    /** What the superblock says about the other groups has not changed. */
    twostate predicate OthersKept()
      reads fs
    {
      && |fs.cs| == |old(fs.cs)| && |fs.maxcluster| == |old(fs.maxcluster)|
      && (forall x :: 0 <= x < |fs.cs| && x != cgx ==> fs.cs[x] == old(fs.cs)[x])
      && (forall x :: 0 <= x < |fs.maxcluster| && x != cgx ==> fs.maxcluster[x] == old(fs.maxcluster)[x])
    }

    /** An operation on another group leaves this group valid. */
    twostate lemma Undisturbed(other: CylGroup)
      requires old(Valid()) && other.fs == fs && other.cgx != cgx && other.OthersKept() && fs.Valid()
      requires unchanged(this) && unchanged(blksfree) && unchanged(frsum)
      requires unchanged(clustersfree) && unchanged(clustersum)
      ensures Valid() && Map() == old(Map())
    {
      assert blksfree[..] == old(blksfree[..]) && clustersfree[..] == old(clustersfree[..]);
    }

    /** A group with nothing free yet: the state from which releases build every other one. */
    constructor (fs: SuperBlock, cgx: nat, frag: nat, bytes: nat, dblkno: nat, metaspace: nat,
                 contig: nat, ndblk: nat)
      requires FragSize(frag) && 0 < bytes && ndblk <= 8 * bytes && dblkno + metaspace < 8 * bytes
      requires cgx < |fs.cs| && cgx < |fs.maxcluster|
      requires fs.Valid() && fs.cs[cgx] == Csum(0, 0) && fs.maxcluster[cgx] <= contig
      ensures Valid() && this.fs == fs && this.frag == frag
      ensures forall h :: 0 <= h < |Map()| ==> Map()[h] == AllClear(frag)
      ensures fresh(blksfree) && fresh(frsum) && fresh(clustersfree) && fresh(clustersum)
    {
      this.fs, this.cgx, this.frag, this.fpg, this.base := fs, cgx, frag, 8 * bytes, cgx * (8 * bytes);
      this.dblkno, this.metaspace, this.contig, this.ndblk := dblkno, metaspace, contig, ndblk;
      blksfree := new Byte[bytes](i => RangeMask(0, 0));
      frsum := new int[8](i => 0);
      clustersfree := new bool[BlkOf(frag, ndblk)](i => false);
      clustersum := new int[contig + 1](i => 0);
      nbfree, nffree, rotor, frotor := 0, 0, 0, 0;
      new;
      ZeroBytes(blksfree[..], frag);
      Initially();
    }

    lemma Initially()
      requires Shape() && fs.Valid() && fs.maxcluster[cgx] <= contig && fs.cs[cgx] == Csum(0, 0)
      requires forall h :: 0 <= h < |Map()| ==> Map()[h] == AllClear(frag)
      requires nbfree == nffree == 0 && forall k :: 0 <= k < 8 ==> frsum[k] == 0
      requires forall k :: 0 <= k <= contig ==> clustersum[k] == 0
      requires forall h :: 0 <= h < clustersfree.Length ==> !clustersfree[h]
      ensures Valid()
    {
      NothingFree(Map(), frag);
      NoClusters(clustersfree[..], contig);
    }

    /** The size of the run of free blocks after blkno, cut off at contig. */
    method ScanForward(blkno: nat) returns (forw: nat)
      requires blkno < clustersfree.Length
      ensures forw <= contig && blkno + 1 + forw <= clustersfree.Length
      ensures forall i :: blkno < i < blkno + 1 + forw ==> clustersfree[i]
      ensures forw < contig && blkno + 1 + forw < clustersfree.Length ==> !clustersfree[blkno + 1 + forw]
    {
      var start := blkno + 1;
      var end := start + contig;
      if end >= clustersfree.Length { end := clustersfree.Length; }
      var i := start;
      while i < end && clustersfree[i]
        invariant start <= i <= end
        invariant forall j :: start <= j < i ==> clustersfree[j]
      {
        i := i + 1;
      }
      forw := i - start;
    }

    /** The size of the run of free blocks before blkno, cut off at contig. */
    method ScanBackward(blkno: nat) returns (back: nat)
      requires blkno < clustersfree.Length
      ensures back <= contig && back <= blkno
      ensures forall i :: blkno - back <= i < blkno ==> clustersfree[i]
      ensures back < contig && back < blkno ==> !clustersfree[blkno - back - 1]
    {
      var start: int := blkno - 1;
      var end := start - contig;
      if end < 0 { end := -1; }
      var i := start;
      while i > end && clustersfree[i]
        invariant end <= i <= start
        invariant forall j :: i < j <= start ==> clustersfree[j]
      {
        i := i - 1;
      }
      back := start - i;
    }

    /** ffs_clusteracct: one block enters (cnt == 1) or leaves (cnt == -1) the cluster map. */
    method ClusterAcct(blkno: nat, cnt: int)
      requires Shape() && (contig > 0 ==> ClusterSums())
      requires cnt == 1 || cnt == -1
      requires contig > 0 ==> blkno < clustersfree.Length && clustersfree[blkno] == (cnt == -1)
      modifies clustersfree, clustersum, fs`maxcluster
      ensures Shape() && (contig > 0 ==> ClusterSums())
      ensures contig > 0 ==> clustersfree[..] == old(clustersfree[..])[blkno := cnt == 1]
      ensures contig > 0 ==> clustersum[0] == old(clustersum[0])
      ensures if contig > 0 then MaxExact() else clustersfree[..] == old(clustersfree[..])
      ensures frsum[..] == old(frsum[..])
      ensures OthersKept()
    {
      hide ClassCount, MaxExact;
      if contig <= 0 { return; }
      ghost var was := clustersfree[..];
      clustersfree[blkno] := cnt > 0;
      var forw := ScanForward(blkno);
      var back := ScanBackward(blkno);
      ghost var now := clustersfree[..];
      assert now == was[blkno := cnt > 0];
      ghost var off, on := was[blkno := false], was[blkno := true];
      assert forall i :: 0 <= i < |off| && i != blkno ==> off[i] == clustersfree[i];
      assert Neighbours(off, blkno, back, forw, contig);
      forall k | 1 <= k <= contig
        ensures ClassCount(on, k, contig) + One(back > 0 && k == back) + One(forw > 0 && k == forw)
             == ClassCount(off, k, contig) + One(k == Min(back + forw + 1, contig))
      {
        JoinRuns(off, on, blkno, back, forw, contig, k);
      }
      assert was == if cnt > 0 then off else on;
      MoveClass(back, forw, cnt);
      RefreshMax();
    }

    /** fs_maxcluster is the largest class in use. */
    predicate MaxExact()
      requires clustersum.Length == contig + 1 && cgx < |fs.maxcluster|
      reads this, fs, clustersum
    {
      var i := fs.maxcluster[cgx];
      0 <= i <= contig && (i > 0 ==> clustersum[i] > 0) && forall k :: i < k <= contig ==> clustersum[k] == 0
    }

    /** fs_maxcluster becomes the largest class in use. */
    method RefreshMax()
      requires cgx < |fs.maxcluster| && clustersum.Length == contig + 1
      requires forall k :: 1 <= k <= contig ==> clustersum[k] >= 0
      modifies fs`maxcluster
      ensures OthersKept() && MaxExact()
    {
      var i := contig;
      while i > 0 && clustersum[i] <= 0
        invariant 0 <= i <= contig
        invariant forall k :: i < k <= contig ==> clustersum[k] == 0
      {
        i := i - 1;
      }
      fs.maxcluster := fs.maxcluster[cgx := i];
    }

    /** The histogram when the runs on both sides of a block merge with it, or part from it. */
    method MoveClass(back: nat, forw: nat, cnt: int)
      requires 0 < contig && clustersum.Length == contig + 1 && back <= contig && forw <= contig
      modifies clustersum
      ensures forall k :: 1 <= k <= contig ==>
        clustersum[k] == old(clustersum[k]) + cnt * One(k == Min(back + forw + 1, contig))
                         - cnt * One(back > 0 && k == back) - cnt * One(forw > 0 && k == forw)
      ensures clustersum[0] == old(clustersum[0])
    {
      var i := back + forw + 1;
      if i > contig { i := contig; }
      clustersum[i] := clustersum[i] + cnt;
      if back > 0 { clustersum[back] := clustersum[back] - cnt; }
      if forw > 0 { clustersum[forw] := clustersum[forw] - cnt; }
    }

    /** setbit on fragments lo .. hi - 1 of block h. */
    method SetFrags(h: nat, lo: nat, hi: nat)
      requires FragSize(frag) && h < |Map()| && lo <= hi <= frag
      modifies blksfree
      ensures Map() == old(Map())[h := Fill(old(Map())[h], lo, hi, true)]
    {
      ghost var m := Map();
      assert Fill(m[h], lo, lo, true) == m[h];
      for i := lo to hi
        invariant Map() == m[h := Fill(m[h], lo, i, true)]
      {
        FragNoParts(frag, h, i);
        SetBit(frag, blksfree, FragNo(frag, h, i));
        assert Fill(m[h], lo, i, true)[i := true] == Fill(m[h], lo, i + 1, true);
      }
    }

    /** clrbit on fragments lo .. hi - 1 of block h. */
    method ClearFrags(h: nat, lo: nat, hi: nat)
      requires FragSize(frag) && h < |Map()| && lo <= hi <= frag
      modifies blksfree
      ensures Map() == old(Map())[h := Fill(old(Map())[h], lo, hi, false)]
    {
      ghost var m := Map();
      assert Fill(m[h], lo, lo, false) == m[h];
      for i := lo to hi
        invariant Map() == m[h := Fill(m[h], lo, i, false)]
      {
        FragNoParts(frag, h, i);
        ClrBit(frag, blksfree, FragNo(frag, h, i));
        assert Fill(m[h], lo, i, false)[i := false] == Fill(m[h], lo, i + 1, false);
      }
    }

    lemma BoundsKept(m: seq<Row>, h: nat, lo: nat, hi: nat, v: bool)
      requires FragSize(frag) && InBounds(m) && h < |m| && |m[h]| == frag && lo < hi <= frag
      requires v ==> FragNo(frag, h, hi) <= ndblk && (cgx == 0 ==> h != 0)
      ensures InBounds(m[h := Fill(m[h], lo, hi, v)])
    {}

    /** A wholly free block has a place in the cluster map. */
    lemma FreeInMap(m: seq<Row>, h: nat)
      requires FragSize(frag) && InBounds(m) && h < |m| && |m[h]| == frag && IsFree(m[h])
      requires ndblk < FragNo(frag, clustersfree.Length + 1, 0)
      ensures h < clustersfree.Length
    {
      assert RowInBounds(h, m[h]) && m[h][frag - 1];
    }

    /** Set the bits of part of block h, keeping cs_nffree and cg_frsum in step. */
    method SetAndCount(h: nat, lo: nat, hi: nat)
      requires FragSize(frag) && frsum.Length == 8 && h < |Map()| && lo <= hi <= frag
      modifies this`nffree, blksfree, frsum
      ensures Map() == old(Map())[h := Fill(old(Map())[h], lo, hi, true)]
      ensures nffree == old(nffree) + (hi - lo)
      ensures forall k :: 1 <= k < frag ==>
        frsum[k] == old(frsum[k]) - RunCount(old(Map())[h], k) + RunCount(Map()[h], k)
    {
      var blk := BlkMap(frag, blksfree, h);
      FragAcct(blk, frsum, -1);
      SetFrags(h, lo, hi);
      nffree := nffree + (hi - lo);
      blk := BlkMap(frag, blksfree, h);
      FragAcct(blk, frsum, 1);
    }

    /** Block h of map m has become free with row r: account for it as a block. */
    method EnterBlock(h: nat, ghost m: seq<Row>, ghost r: Row)
      requires Shape() && (contig > 0 ==> ClusterSums()) && h < |m| && Map() == m[h := r]
      requires Clustered(m) && InBounds(m[h := r]) && !IsFree(m[h]) && IsFree(r)
      modifies this`nbfree, clustersfree, clustersum, fs`maxcluster
      ensures OthersKept()
      ensures Shape() && (contig > 0 ==> ClusterSums()) && Clustered(m[h := r])
      ensures nbfree == old(nbfree) + 1
    {
      FreeInMap(m[h := r], h);
      FreeRowUpdate(m, h, r, clustersfree.Length);
      ClusterAcct(h, 1);
      nbfree := nbfree + 1;
    }

    /** A block whose last fragment came back counts as a block again, and not as fragments. */
    method Reassemble(h: nat, ghost m: seq<Row>, ghost r: Row)
      requires Shape() && (contig > 0 ==> ClusterSums()) && h < |m| && Map() == m[h := r]
      requires Clustered(m) && InBounds(m[h := r]) && !IsFree(m[h])
      modifies this`nbfree, this`nffree, clustersfree, clustersum, fs`maxcluster
      ensures OthersKept()
      ensures Shape() && (contig > 0 ==> ClusterSums()) && Clustered(m[h := r])
      ensures nbfree == old(nbfree) + One(IsFree(r))
      ensures nffree == old(nffree) - if IsFree(r) then frag else 0
    {
      var whole := IsBlock(frag, blksfree, h);
      if whole {
        nffree := nffree - frag;
        EnterBlock(h, m, r);
      } else {
        FreeRowUpdate(m, h, r, clustersfree.Length);
      }
    }

    /** Give back a whole block. */
    method ReleaseBlock(h: nat)
      requires Consistent() && h < |Map()| && Map()[h] == AllClear(frag)
      requires FragNo(frag, h, frag) <= ndblk && (cgx == 0 ==> h != 0)
      modifies this`nbfree, this`nffree, blksfree, frsum, clustersfree, clustersum, fs`maxcluster
      ensures OthersKept()
      ensures Consistent()
      ensures Map() == old(Map())[h := AllSet(frag)]
    {
      hide Total, Blocks;
      ghost var m, r := Map(), AllSet(frag);
      assert Fill(m[h], 0, frag, true) == r;
      BoundsKept(m, h, 0, frag, true);
      BlockTotals(m, h, frag);
      assert !IsFree(m[h]) && IsFree(r) by { FullWeights(frag); }
      SetBlock(frag, blksfree, h);
      EnterBlock(h, m, r);
    }

    /** Give back part of a block; a block that becomes whole is counted as one. */
    method ReleaseFrags(h: nat, lo: nat, hi: nat)
      requires Consistent() && h < |Map()| && lo < hi <= frag
      requires forall i :: lo <= i < hi ==> !Map()[h][i]
      requires FragNo(frag, h, hi) <= ndblk && (cgx == 0 ==> h != 0)
      modifies this`nbfree, this`nffree, blksfree, frsum, clustersfree, clustersum, fs`maxcluster
      ensures OthersKept()
      ensures Consistent()
      ensures Map() == old(Map())[h := Fill(old(Map())[h], lo, hi, true)]
    {
      hide Total;
      ghost var m, r := Map(), Fill(Map()[h], lo, hi, true);
      BoundsKept(m, h, lo, hi, true);
      ReleaseTotals(m, h, lo, hi);
      ReleaseWeights(m[h], lo, hi);
      SetAndCount(h, lo, hi);
      Reassemble(h, m, r);
    }

    /**
     * Give back fragments lo .. hi - 1 of block h in the group: the common part of
     * ffs_blkfree_cg and jnewblk_rollback.
     */
    method Release(h: nat, lo: nat, hi: nat)
      requires Consistent() && h < |Map()| && lo < hi <= frag
      requires forall i :: lo <= i < hi ==> !Map()[h][i]
      requires FragNo(frag, h, hi) <= ndblk && (cgx == 0 ==> h != 0)
      modifies this`nbfree, this`nffree, blksfree, frsum, clustersfree, clustersum, fs`maxcluster
      ensures OthersKept()
      ensures Consistent()
      ensures Map() == old(Map())[h := Fill(old(Map())[h], lo, hi, true)]
    {
      if hi - lo == frag {
        assert Map()[h] == AllClear(frag) && Fill(Map()[h], lo, hi, true) == AllSet(frag);
        ReleaseBlock(h);
      } else {
        ReleaseFrags(h, lo, hi);
      }
    }

    /** Block h of map m, free until now, has row r: account for it as no longer a block. */
    method LeaveBlock(h: nat, ghost m: seq<Row>, ghost r: Row)
      requires Shape() && (contig > 0 ==> ClusterSums()) && h < |m| && |m| == |Map()| && |m[h]| == frag
      requires Clustered(m) && InBounds(m) && IsFree(m[h]) && !IsFree(r)
      modifies this`nbfree, clustersfree, clustersum, fs`maxcluster
      ensures OthersKept()
      ensures Shape() && (contig > 0 ==> ClusterSums()) && Clustered(m[h := r])
      ensures nbfree == old(nbfree) - 1
    {
      FreeInMap(m, h);
      FreeRowUpdate(m, h, r, clustersfree.Length);
      ClusterAcct(h, -1);
      nbfree := nbfree - 1;
    }

    /** Take a whole block out of the map: the end of ffs_alloccgblk, and jnewblk_rollforward. */
    method TakeBlock(h: nat)
      requires Consistent() && h < |Map()| && Map()[h] == AllSet(frag)
      modifies this`nbfree, this`nffree, blksfree, frsum, clustersfree, clustersum, fs`maxcluster
      ensures OthersKept()
      ensures Consistent()
      ensures Map() == old(Map())[h := AllClear(frag)]
      ensures nbfree == old(nbfree) - 1 && nffree == old(nffree)
    {
      hide Total;
      ghost var m, r := Map(), AllClear(frag);
      assert Fill(m[h], 0, frag, false) == r;
      BoundsKept(m, h, 0, frag, false);
      assert m[h := r][h := AllSet(frag)] == m;
      BlockTotals(m[h := r], h, frag);
      assert IsFree(m[h]) && !IsFree(r) by { FullWeights(frag); }
      ClrBlock(frag, blksfree, h);
      LeaveBlock(h, m, r);
    }

    /** Clear the bits of part of block h, keeping cs_nffree and cg_frsum in step. */
    method ClearAndCount(h: nat, lo: nat, hi: nat)
      requires FragSize(frag) && frsum.Length == 8 && h < |Map()| && lo <= hi <= frag
      modifies this`nffree, blksfree, frsum
      ensures Map() == old(Map())[h := Fill(old(Map())[h], lo, hi, false)]
      ensures nffree == old(nffree) - (hi - lo)
      ensures forall k :: 1 <= k < frag ==>
        frsum[k] == old(frsum[k]) - RunCount(old(Map())[h], k) + RunCount(Map()[h], k)
    {
      var blk := BlkMap(frag, blksfree, h);
      FragAcct(blk, frsum, -1);
      ClearFrags(h, lo, hi);
      nffree := nffree - (hi - lo);
      blk := BlkMap(frag, blksfree, h);
      FragAcct(blk, frsum, 1);
    }

    /** If a complete block is about to be broken up, account for its fragments. */
    method BreakUp(h: nat, ghost r: Row)
      requires Shape() && (contig > 0 ==> ClusterSums()) && h < |Map()|
      requires Clustered(Map()) && InBounds(Map()) && !IsFree(r)
      modifies this`nbfree, this`nffree, clustersfree, clustersum, fs`maxcluster
      ensures OthersKept()
      ensures Shape() && (contig > 0 ==> ClusterSums()) && Clustered(Map()[h := r])
      ensures nbfree == old(nbfree) - One(IsFree(Map()[h]))
      ensures nffree == old(nffree) + if IsFree(Map()[h]) then frag else 0
    {
      var whole := IsBlock(frag, blksfree, h);
      if whole {
        nffree := nffree + frag;
        LeaveBlock(h, Map(), r);
      } else {
        FreeRowUpdate(Map(), h, r, clustersfree.Length);
      }
    }

    /** Take part of a block, as jnewblk_rollforward does. */
    method TakeFrags(h: nat, lo: nat, hi: nat)
      requires Consistent() && h < |Map()| && lo < hi <= frag
      requires forall i :: lo <= i < hi ==> Map()[h][i]
      modifies this`nbfree, this`nffree, blksfree, frsum, clustersfree, clustersum, fs`maxcluster
      ensures OthersKept()
      ensures Consistent()
      ensures Map() == old(Map())[h := Fill(old(Map())[h], lo, hi, false)]
    {
      hide Total, Blocks, FragSize;
      ghost var m, r := Map(), Fill(Map()[h], lo, hi, false);
      ghost var n := m[h := r];
      BoundsKept(m, h, lo, hi, false);
      TakeIsReverse(m, h, lo, hi);
      ReleaseTotals(n, h, lo, hi);
      ReleaseWeights(r, lo, hi);
      BreakUp(h, r);
      ClearAndCount(h, lo, hi);
      assert Map() == n && Counted(n);
    }

    /** One run of length from becomes one of length to; length 0 stands for no run. */
    method MoveRun(from: nat, to: nat)
      requires frsum.Length == 8 && from < 8 && to < 8 && from != to
      modifies frsum
      ensures forall k :: 1 <= k < 8 ==> frsum[k] == old(frsum[k]) - One(k == from) + One(k == to)
      ensures frsum[0] == old(frsum[0])
    {
      if from != 0 { frsum[from] := frsum[from] - 1; }
      if to != 0 { frsum[to] := frsum[to] + 1; }
    }

    /** Block h, not free before or after, now has row r: bring cs_nffree and cg_frsum up to date. */
    method Recount(h: nat, ghost m: seq<Row>, ghost r: Row, delta: int, from: nat, to: nat)
      requires Shape() && (contig > 0 ==> ClusterSums()) && h < |m| && Map() == m[h := r]
      requires Counted(m) && Clustered(m) && InBounds(m[h := r]) && !IsFree(m[h]) && !IsFree(r)
      requires from < frag && to < frag && from != to
      requires Total(m[h := r], FreeBlocks) == Total(m, FreeBlocks)
      requires Total(m[h := r], FreeFrags) == Total(m, FreeFrags) + delta
      requires forall k :: 1 <= k < frag ==>
        Total(m[h := r], FragRuns(k)) == Total(m, FragRuns(k)) - One(k == from) + One(k == to)
      modifies this`nffree, frsum
      ensures Consistent() && nffree == old(nffree) + delta
    {
      hide IsFree, Map;
      FreeRowUpdate(m, h, r, clustersfree.Length);
      nffree := nffree + delta;
      MoveRun(from, to);
    }

    /** The fragment path of ffs_alloccg and ffs_fragextend: take fragments a .. c - 1 of block h. */
    method TakeRun(h: nat, a: nat, c: nat, from: nat, to: nat)
      requires Consistent() && TakesRun(Map(), h, a, c, from, to)
      modifies this`nffree, blksfree, frsum
      ensures Consistent()
      ensures Map() == old(Map())[h := Fill(old(Map())[h], a, c, false)]
    {
      ghost var m, r := Map(), Fill(Map()[h], a, c, false);
      BoundsKept(m, h, a, c, false);
      ClearFrags(h, a, c);
      Recount(h, m, r, a - c, from, to);
    }

    /** Free the fragments the caller of ffs_alloccgblk did not want. */
    method FreeTail(h: nat, size: nat)
      requires Consistent() && h < |Map()| && Map()[h] == AllClear(frag) && 1 <= size < frag
      requires FragNo(frag, h, frag) <= ndblk && (cgx == 0 ==> h != 0)
      modifies this`nffree, blksfree, frsum
      ensures Consistent()
      ensures Map() == old(Map())[h := Fill(AllClear(frag), size, frag, true)]
      ensures nffree == old(nffree) + (frag - size)
    {
      ghost var m, r := Map(), Fill(AllClear(frag), size, frag, true);
      BoundsKept(m, h, size, frag, true);
      TailTotals(m, h, size, frag);
      SetFrags(h, size, frag);
      Recount(h, m, r, frag - size, 0, frag - size);
    }

    /** Pass the change of the group's counts since they were nb and nf on to the superblock. */
    method PostSums(nb: int, nf: int)
      requires Consistent() && fs.Valid() && fs.cs[cgx] == Csum(nb, nf)
      modifies fs`cs, fs`cstotal
      ensures Valid() && OthersKept()
    {
      fs.Adjust(cgx, nbfree - nb, nffree - nf);
    }

    /** The place in this group, dtogd(), of the preference ffs_alloccgblk settles on. */
    function Preferred(bpref: nat, rotor0: nat): (r: nat)
      requires 0 < fpg
      ensures dblkno + metaspace < fpg ==> r < fpg
      ensures bpref == 0 && rotor0 < fpg && frag <= fpg ==> rotor0 + frag == r || rotor0 + frag == r + fpg
      ensures bpref != 0 && base <= bpref < base + fpg ==> base + r == bpref
      ensures bpref != 0 && !(base <= bpref < base + fpg) ==>
        && (r == dblkno || r == dblkno + metaspace)
        && (metaspace > 0 ==> (r < dblkno + metaspace <==> Offset(bpref, fpg) < dblkno + metaspace))
    {
      if bpref == 0 then Offset(rotor0 + frag, fpg)
      else if !(base <= bpref < base + fpg) then
          (if Offset(bpref, fpg) < dblkno + metaspace then dblkno else dblkno + metaspace)
      else bpref - base
    }

    /** Where ffs_mapsearch starts to look for fragments. */
    function SearchFrom(bpref: nat, frotor0: nat): (r: nat)
      requires 0 < fpg
      ensures frotor0 < fpg ==> r < fpg
      ensures bpref == 0 ==> r == frotor0
      ensures bpref != 0 && base <= bpref < base + fpg ==> base + r == bpref
    {
      if bpref == 0 then frotor0 else if base <= bpref < base + fpg then bpref - base else Offset(bpref, fpg)
    }

    /** The block chosen for preference w: the one at w if it is free, or else the next one that is. */
    ghost predicate BlockNear(m: seq<Row>, w: nat, h: nat)
      requires FragSize(frag)
    {
      if BlkOf(frag, w) < |m| && m[BlkOf(frag, w)] == AllSet(frag) then h == BlkOf(frag, w)
      else NextRun(m, frag, frag, 8 * (w / 8), FragNo(frag, h, 0))
    }

    /**
     * The run that a request for frags fragments is cut from: of the smallest length k that suffices,
     * the first one from the place the search starts at; a whole block, near w, only if there is no other.
     */
    ghost predicate BestFit(m: seq<Row>, w: nat, from: nat, frags: nat, k: nat, h: nat, p: nat)
      requires FragSize(frag)
    {
      && frags <= k <= frag && (forall j :: frags <= j < k ==> !Available(m, j))
      && if k == frag then p == 0 && BlockNear(m, w, h)
         else NextRun(m, frag, k, 8 * (from / 8), FragNo(frag, h, p))
    }

    lemma FreeBlockExists()
      requires Consistent() && nbfree > 0
      ensures Available(Map(), frag)
    {
      var h := TotalPositive(Map(), FreeBlocks);
      assert RunAt(Map()[h], 0, frag);
    }

    lemma FreeRowAt(m: seq<Row>, h: nat, p: nat)
      requires FragSize(frag) && InBounds(m) && h < |m| && |m[h]| == frag && RunAt(m[h], p, frag)
      ensures p == 0 && m[h] == AllSet(frag) && FragNo(frag, h, frag) <= ndblk && (cgx == 0 ==> h != 0)
    {
      assert RowInBounds(h, m[h]) && m[h][frag - 1];
    }

    /** Search on from the rotor for a wholly free block. */
    method NextBlock(start: nat) returns (h: nat)
      requires Consistent() && nbfree > 0 && start < blksfree.Length
      modifies this`rotor, this`frotor
      ensures Consistent()
      ensures h < |Map()| && Map()[h] == AllSet(frag)
      ensures NextRun(Map(), frag, frag, 8 * start, FragNo(frag, h, 0))
      ensures frotor == FragNo(frag, h, 0) - FragNo(frag, h, 0) % 8
      ensures rotor == if FragNo(frag, h, 0) >= dblkno + metaspace then FragNo(frag, h, 0) else old(rotor)
    {
      FreeBlockExists();
      var bno, r := MapSearch(frag, blksfree, start, frag);
      frotor := r;
      h := BlkOf(frag, bno);
      FreeRowAt(Map(), h, PosOf(frag, bno));
      if bno >= dblkno + metaspace { rotor := bno; }
    }

    /** Both rotors follow a search for a block, cg_rotor only to the data zone. */
    ghost predicate RotorsMoved(m: seq<Row>, w: nat, h: nat, rotor0: nat, frotor0: nat)
      requires FragSize(frag)
      reads this
    {
      var x := FragNo(frag, h, 0);
      if BlkOf(frag, w) < |m| && m[BlkOf(frag, w)] == AllSet(frag) then rotor == rotor0 && frotor == frotor0
      else frotor == x - x % 8 && rotor == if x >= dblkno + metaspace then x else rotor0
    }

    /** The choice made by ffs_alloccgblk: the preferred block if free, else the next one found. */
    method ChooseBlock(pref: nat) returns (h: nat)
      requires Consistent() && nbfree > 0 && pref < fpg
      modifies this`rotor, this`frotor
      ensures Consistent()
      ensures h < |Map()| && Map()[h] == AllSet(frag)
      ensures BlockNear(Map(), pref, h) && RotorsMoved(Map(), pref, h, old(rotor), old(frotor))
    {
      h := BlkOf(frag, pref);
      var free := IsBlock(frag, blksfree, h);
      if !free { h := NextBlock(pref / 8); }
    }

    /** Take block h and give back all but its first size fragments. */
    method CarveBlock(h: nat, size: nat)
      requires Valid() && 1 <= size <= frag && h < |Map()| && Map()[h] == AllSet(frag)
      modifies this`nbfree, this`nffree, blksfree, frsum, clustersfree, clustersum, fs
      ensures Valid() && OthersKept()
      ensures Map() == old(Map())[h := Fill(old(Map())[h], 0, size, false)]
    {
      hide Counted;
      ghost var m := Map();
      var nb, nf := nbfree, nffree;
      FreeRowAt(m, h, 0);
      TakeBlock(h);
      if size != frag {
        FreeTail(h, size);
        assert Fill(AllSet(frag), 0, size, false) == Fill(AllClear(frag), size, frag, true);
      } else {
        assert Fill(AllSet(frag), 0, size, false) == AllClear(frag);
      }
      PostSums(nb, nf);
    }

    /** In map w just the n fragments of m from position p of block h on, all free, are taken. */
    ghost predicate Took(m: seq<Row>, w: seq<Row>, h: nat, p: nat, n: nat) {
      RoomAt(m, h, p, p + n) && p < |m[h]| && w == m[h := Fill(m[h], p, p + n, false)]
    }

    /** ffs_alloccgblk: allocate a block, near bpref if possible, of which size fragments are wanted. */
    method AllocCgBlk(bpref: nat, size: nat) returns (blkno: nat, ghost h: nat)
      requires Valid() && 1 <= size <= frag && nbfree > 0
      modifies this, blksfree, frsum, clustersfree, clustersum, fs
      ensures Valid() && OthersKept()
      ensures blkno == base + FragNo(frag, h, 0) && blkno != 0 && Took(old(Map()), Map(), h, 0, size)
      ensures old(Map())[h] == AllSet(frag)
      ensures BlockNear(old(Map()), Preferred(bpref, old(rotor)), h)
      ensures RotorsMoved(old(Map()), Preferred(bpref, old(rotor)), h, old(rotor), old(frotor))
    {
      ghost var m := Map();
      var x := ChooseBlock(Preferred(bpref, rotor));
      CarveBlock(x, size);
      blkno, h := base + FragNo(frag, x, 0), x;
      FreeRowAt(m, h, 0);
    }

    /** The number of adjacent fragments in a non-full block is counted in cs_nffree. */
    lemma RoomCounted(h: nat, lo: nat, hi: nat)
      requires Consistent() && h < |Map()| && lo <= hi <= frag && !IsFree(Map()[h])
      requires forall i :: lo <= i < hi ==> Map()[h][i]
      ensures hi - lo <= nffree
    {
      var row := Map()[h];
      TotalUpdate(Map(), h, row, FreeFrags);
      var bare := Fill(row, lo, hi, false);
      CountSetRange(bare, row, lo, hi);
    }

    /** The first size from frags on that is available as a fragment, or frag. */
    method FragmentSize(frags: nat) returns (allocsiz: nat)
      requires frsum.Length == 8 && 1 <= frags <= frag <= 8
      ensures frags <= allocsiz <= frag
      ensures allocsiz < frag ==> frsum[allocsiz] != 0
      ensures forall k :: frags <= k < allocsiz ==> frsum[k] == 0
    {
      allocsiz := frags;
      while allocsiz < frag && frsum[allocsiz] == 0
        invariant frags <= allocsiz <= frag
        invariant forall k :: frags <= k < allocsiz ==> frsum[k] == 0
      {
        allocsiz := allocsiz + 1;
      }
    }

    /** ffs_alloccg: allocate frags adjacent fragments, or 0 if no block of the group has them. */
    method AllocCg(bpref: nat, frags: nat, rfrags: nat)
      returns (blkno: nat, ghost h: nat, ghost p: nat, ghost k: nat)
      requires Valid() && 1 <= frags <= frag && 1 <= rfrags <= frag
      requires frags < frag ==> rfrags == frags
      modifies this, blksfree, frsum, clustersfree, clustersum, fs
      ensures Valid() && OthersKept()
      ensures blkno == 0 <==> !Room(old(Map()), frags)
      ensures blkno == 0 ==> Map() == old(Map())
      ensures blkno != 0 ==> blkno == base + FragNo(frag, h, p) && Took(old(Map()), Map(), h, p, rfrags)
      ensures blkno != 0 ==>
        BestFit(old(Map()), Preferred(bpref, old(rotor)), SearchFrom(bpref, old(frotor)), frags, k, h, p)
      ensures if blkno == 0 then rotor == old(rotor) && frotor == old(frotor)
        else if k == frag then RotorsMoved(old(Map()), Preferred(bpref, old(rotor)), h, old(rotor), old(frotor))
        else rotor == old(rotor) && frotor == FragNo(frag, h, p) - FragNo(frag, h, p) % 8
    {
      hide Map, BlockCount, FragNo, SumOf;
      h, p, k := 0, 0, frag;
      if fs.cs[cgx].nbfree == 0 && frags == frag {
        NoRoom(frags);
        return 0, 0, 0, 0;
      }
      if frags == frag {
        BlockIsRoom(frags);
        blkno, h := AllocCgBlk(bpref, rfrags);
        return;
      }
      var allocsiz := FragmentSize(frags);
      NoneShorter(frags, allocsiz);
      if allocsiz == frag {
        if nbfree == 0 {
          NoRoom(frags);
          return 0, 0, 0, 0;
        }
        BlockIsRoom(frags);
        blkno, h := AllocCgBlk(bpref, rfrags);
        return;
      }
      k := allocsiz;
      blkno, h, p := AllocFrags(SearchFrom(bpref, frotor), frags, allocsiz);
    }

    lemma NoneShorter(frags: nat, k: nat)
      requires Consistent() && 1 <= frags <= k <= frag && forall j :: frags <= j < k ==> frsum[j] == 0
      ensures forall j :: frags <= j < k ==> !Available(Map(), j)
    {
      forall j | frags <= j < k
        ensures !Available(Map(), j)
      {
        SumMeansAvailable(Map(), j);
      }
    }

    /** The same, with the superblock brought up to date. */
    method GrabRun(h: nat, a: nat, c: nat, from: nat, to: nat)
      requires Valid() && TakesRun(Map(), h, a, c, from, to)
      modifies this`nffree, blksfree, frsum, fs`cs, fs`cstotal
      ensures Valid() && OthersKept()
      ensures Map() == old(Map())[h := Fill(old(Map())[h], a, c, false)]
      ensures Took(old(Map()), Map(), h, a, c - a)
    {
      var nf := nffree;
      ghost var m := Map();
      TakeRun(h, a, c, from, to);
      PostSums(nbfree, nf);
      TookRun(m, Map(), h, a, c, from, to);
    }

    lemma FreeAddress(m: seq<Row>, h: nat, p: nat)
      requires Shape() && InBounds(m) && h < |m| && p < |m[h]| && m[h][p]
      ensures base + FragNo(frag, h, p) != 0
    {
      assert RowInBounds(h, m[h]);
    }

    /** A fragment of allocsiz, found from pref on, whose first frags are wanted. */
    method FindFrags(pref: nat, frags: nat, allocsiz: nat) returns (h: nat, a: nat, c: nat, to: nat)
      requires Valid() && 1 <= frags <= allocsiz < frag && pref < fpg && frsum[allocsiz] != 0
      modifies this`frotor
      ensures Valid() && c == a + frags && TakesRun(Map(), h, a, c, allocsiz, to) && Map() == old(Map())
      ensures base + FragNo(frag, h, a) != 0
      ensures NextRun(Map(), frag, allocsiz, 8 * (pref / 8), FragNo(frag, h, a))
      ensures frotor == FragNo(frag, h, a) - FragNo(frag, h, a) % 8
    {
      hide Total, Blocks, BlkOf;
      SumMeansAvailable(Map(), allocsiz);
      var bno, r := MapSearch(frag, blksfree, pref / 8, allocsiz);
      frotor := r;
      h, a := BlkOf(frag, bno), PosOf(frag, bno);
      c, to := a + frags, allocsiz - frags;
      TakeRunTotals(Map(), h, a, a + allocsiz, c);
      FreeAddress(Map(), h, a);
    }

    /** Allocate from it. */
    method AllocFrags(pref: nat, frags: nat, allocsiz: nat) returns (blkno: nat, ghost h: nat, ghost p: nat)
      requires Valid() && 1 <= frags <= allocsiz < frag && pref < fpg && frsum[allocsiz] != 0
      modifies this`nffree, this`frotor, blksfree, frsum, fs`cs, fs`cstotal
      ensures Valid() && OthersKept()
      ensures blkno != 0 && blkno == base + FragNo(frag, h, p) && Took(old(Map()), Map(), h, p, frags)
      ensures NextRun(old(Map()), frag, allocsiz, 8 * (pref / 8), FragNo(frag, h, p))
      ensures frotor == FragNo(frag, h, p) - FragNo(frag, h, p) % 8
    {
      hide Map, FragSize, InBounds;
      var x, a, c, to := FindFrags(pref, frags, allocsiz);
      GrabRun(x, a, c, allocsiz, to);
      blkno, h, p := base + FragNo(frag, x, a), x, a;
    }

    lemma TookRun(m: seq<Row>, w: seq<Row>, h: nat, a: nat, c: nat, from: nat, to: nat)
      requires TakesRun(m, h, a, c, from, to) && w == m[h := Fill(m[h], a, c, false)]
      ensures Took(m, w, h, a, c - a)
    {
    }

    lemma SumMeansAvailable(m: seq<Row>, k: nat)
      requires 1 <= k
      ensures Total(m, FragRuns(k)) > 0 <==> Available(m, k)
    {
      if Total(m, FragRuns(k)) > 0 {
        var h := TotalPositive(m, FragRuns(k));
        var p := CountPositive(RunStarts(m[h], k));
        assert RunAt(m[h], p, k);
      }
      if Available(m, k) {
        var h :| 0 <= h < |m| && HasRun(m[h], k);
        var p :| 0 <= p < |m[h]| && RunAt(m[h], p, k);
        CountUpdate(RunStarts(m[h], k), p, true);
        TotalUpdate(m, h, m[h], FragRuns(k));
      }
    }

    lemma BlockIsRoom(frags: nat)
      requires Consistent() && nbfree > 0 && frags <= frag
      ensures Room(Map(), frags)
    {
      var h := TotalPositive(Map(), FreeBlocks);
      assert RoomAt(Map(), h, 0, frags);
    }

    /** With no free block and no fragment of the size or larger there is no room. */
    lemma NoRoom(frags: nat)
      requires Consistent() && nbfree == 0 && 1 <= frags <= frag
      requires forall k :: frags <= k < frag ==> frsum[k] == 0
      ensures !Room(Map(), frags)
    {
      if Room(Map(), frags) {
        var h: nat, p: nat, hi: nat :| hi - p == frags && RoomAt(Map(), h, p, hi);
        var row := Map()[h];
        var a, n := MaximalRun(row, p, frags);
        assert HasRun(row, n);
        if n == frag {
          assert row == AllSet(frag);
          TotalUpdate(Map(), h, row, FreeBlocks);
        } else {
          SumMeansAvailable(Map(), n);
        }
      }
    }

    /** Whether fragments lo .. hi - 1 of block h are all free. */
    method AllFree(h: nat, lo: nat, hi: nat) returns (r: bool)
      requires FragSize(frag) && h < |Map()| && lo <= hi <= frag
      ensures r == forall i :: lo <= i < hi ==> Map()[h][i]
    {
      var i := lo;
      while i < hi
        invariant lo <= i <= hi && forall j :: lo <= j < i ==> Map()[h][j]
      {
        FragNoParts(frag, h, i);
        var bit := IsSet(frag, blksfree, FragNo(frag, h, i));
        assert bit == Map()[h][i];
        if !bit { return false; }
        i := i + 1;
      }
      r := true;
    }

    /** The end of the free run that reaches position c of block h. */
    method RunEnd(h: nat, c: nat) returns (b: nat)
      requires FragSize(frag) && h < |Map()| && c <= frag
      ensures c <= b <= frag && (forall i :: c <= i < b ==> Map()[h][i]) && (b < frag ==> !Map()[h][b])
    {
      b := c;
      while b < frag
        invariant c <= b <= frag && forall i :: c <= i < b ==> Map()[h][i]
      {
        FragNoParts(frag, h, b);
        var bit := IsSet(frag, blksfree, FragNo(frag, h, b));
        if !bit { return; }
        b := b + 1;
      }
    }

    /** Whether fragments a .. c - 1 of block h can be taken, and from what run. */
    method MayExtend(h: nat, a: nat, c: nat) returns (can: bool, from: nat, to: nat)
      requires Valid() && h < |Map()| && 1 <= a <= frag && a < c && !Map()[h][a - 1]
      ensures can == RoomAt(Map(), h, a, c)
      ensures can ==> c <= frag && TakesRun(Map(), h, a, c, from, to)
    {
      from, to := 0, 0;
      if fs.cs[cgx].nffree < c - a {
        if RoomAt(Map(), h, a, c) { NotWhole(h, a - 1); RoomCounted(h, a, c); }
        return false, 0, 0;
      }
      if c > frag { return false, 0, 0; }
      can := AllFree(h, a, c);
      if can {
        var b := RunEnd(h, c);
        TakeRunTotals(Map(), h, a, b, c);
        from, to := b - a, b - c;
      }
    }

    /** Extend the allocation that ends at position a of block h up to position c. */
    method ExtendTo(h: nat, a: nat, c: nat) returns (done: bool)
      requires Valid() && h < |Map()| && 1 <= a <= frag && a < c && !Map()[h][a - 1]
      modifies this`nffree, blksfree, frsum, fs`cs, fs`cstotal
      ensures Valid() && OthersKept()
      ensures done == RoomAt(old(Map()), h, a, c)
      ensures !done ==> Map() == old(Map())
      ensures done ==> c <= frag && Map() == old(Map())[h := Fill(old(Map())[h], a, c, false)]
    {
      var from, to;
      done, from, to := MayExtend(h, a, c);
      if done { GrabRun(h, a, c, from, to); }
    }

    /** The block and the position in it of a fragment address: fragstoblks(dtogd()) and fragnum(). */
    method Locate(addr: nat, ghost h: nat, ghost p: nat) returns (x: nat, q: nat)
      requires FragSize(frag) && addr == base + FragNo(frag, h, p) && p < frag
      ensures x == h && q == p
    {
      FragNoParts(frag, h, p);
      x, q := BlkOf(frag, addr - base), PosOf(frag, addr - base);
    }

    /**
     * ffs_fragextend: grow the fragment of ofrags at bprev, position p of block h, to nfrags in
     * place.  It succeeds exactly when the fragments that follow it in its block are free.
     */
    method FragExtend(bprev: nat, ofrags: nat, nfrags: nat, ghost h: nat, ghost p: nat) returns (r: nat)
      requires Valid() && bprev == base + FragNo(frag, h, p) != 0 && h < |Map()|
      requires 1 <= ofrags < nfrags <= frag && p + ofrags <= frag
      requires forall i :: p <= i < p + ofrags ==> !Map()[h][i]
      modifies this`nffree, blksfree, frsum, fs`cs, fs`cstotal
      ensures Valid() && OthersKept()
      ensures r == if RoomAt(old(Map()), h, p + ofrags, p + nfrags) then bprev else 0
      ensures r == 0 ==> Map() == old(Map())
      ensures r != 0 ==>
        p + nfrags <= frag && Map() == old(Map())[h := Fill(old(Map())[h], p + ofrags, p + nfrags, false)]
    {
      var x, bbase := Locate(bprev, h, p);
      var done := ExtendTo(x, bbase + ofrags, bbase + nfrags);
      r := if done then bprev else 0;
    }

    lemma NotWhole(h: nat, p: nat)
      requires FragSize(frag) && h < |Map()| && p < frag && !Map()[h][p]
      ensures !IsFree(Map()[h])
    {
      assert AllSet(frag)[p];
    }

    /** ffs_blkfree_cg: release frags fragments at bno; a bad block number is ignored. */
    method BlkFreeCg(bno: nat, frags: nat)
      requires Valid() && 1 <= frags <= frag
      requires bno < ndblk ==> PosOf(frag, bno) + frags <= frag && bno + frags <= ndblk
      requires bno < ndblk ==> forall i :: PosOf(frag, bno) <= i < PosOf(frag, bno) + frags ==>
                                 !Map()[BlkOf(frag, bno)][i]
      requires cgx == 0 ==> BlkOf(frag, bno) != 0
      modifies this`nbfree, this`nffree, blksfree, frsum, clustersfree, clustersum, fs
      ensures Valid() && OthersKept()
      ensures bno >= ndblk ==> Map() == old(Map())
      ensures bno < ndblk ==>
        var h, p := BlkOf(frag, bno), PosOf(frag, bno);
        Map() == old(Map())[h := Fill(old(Map())[h], p, p + frags, true)]
    {
      if bno >= ndblk { return; }
      var nb, nf := nbfree, nffree;
      Release(BlkOf(frag, bno), PosOf(frag, bno), PosOf(frag, bno) + frags);
      PostSums(nb, nf);
    }

    /** Blocks g .. g + n - 1 are all free. */
    ghost predicate FreeCluster(m: seq<Row>, g: nat, n: nat) {
      g + n <= |m| && forall i :: g <= i < g + n ==> IsFree(m[i])
    }

    /** The cluster map shows just the free clusters. */
    lemma ClusterMapExact(g: nat, n: nat)
      requires Consistent() && contig > 0 && 1 <= n
      ensures FreeCluster(Map(), g, n) == AllIn(clustersfree[..], g, n)
    {
      var c := clustersfree[..];
      if FreeCluster(Map(), g, n) {
        FreeInMap(Map(), g + n - 1);
        assert forall i :: g <= i < g + n ==> c[i] == IsFree(Map()[i]);
      }
      if AllIn(c, g, n) {
        assert forall i :: g <= i < g + n ==> c[i] == IsFree(Map()[i]);
      }
    }

    /** A cluster of len implies a class of at least len, so an exhausted histogram hides none. */
    lemma NoCluster(len: nat)
      requires contig > 0 && ClusterSums() && 1 <= len <= contig
      requires forall k :: len <= k <= contig ==> clustersum[k] == 0
      ensures forall g: nat :: !AllIn(clustersfree[..], g, len)
    {
      var c := clustersfree[..];
      forall g: nat
        ensures !AllIn(c, g, len)
      {
        if AllIn(c, g, len) {
          var a, n := MaximalRun(c, g, len);
          var k := Min(n, contig);
          assert clustersum[k] == ClassCount(c, k, contig) == 0;
          assert ClassStarts(c, k, contig)[a];
          CountUpdate(ClassStarts(c, k, contig), a, true);
        }
      }
    }

    /** The first class from len on that is in use, or contig + 1. */
    method FirstClass(len: nat) returns (i: nat)
      requires clustersum.Length == contig + 1 && len <= contig
      ensures len <= i <= contig + 1 && (i <= contig ==> clustersum[i] > 0)
      ensures forall k :: len <= k < i ==> clustersum[k] <= 0
    {
      i := len;
      while i <= contig && clustersum[i] <= 0
        invariant len <= i <= contig + 1
        invariant forall k :: len <= k < i ==> clustersum[k] <= 0
      {
        i := i + 1;
      }
    }

    /** Lower fs_maxcluster to the largest class in use below len. */
    method LowerMax(len: nat)
      requires Valid() && 1 <= len <= contig && forall k :: len <= k <= contig ==> clustersum[k] == 0
      modifies fs`maxcluster
      ensures OthersKept()
      ensures Valid() && MaxExact()
    {
      var i := len - 1;
      while i > 0 && clustersum[i] <= 0
        invariant 0 <= i < len
        invariant forall k :: i < k <= contig ==> clustersum[k] == 0
      {
        i := i - 1;
      }
      fs.maxcluster := fs.maxcluster[cgx := i];
    }

    /** The checks of fs_maxcluster and of the histogram, for a length the histogram can tell apart. */
    method MayHaveCluster(len: nat) returns (may: bool)
      requires Valid() && contig > 0 && 1 <= len
      modifies fs`maxcluster
      ensures OthersKept()
      ensures Valid()
      ensures !may && len <= contig ==> forall g: nat :: !AllIn(clustersfree[..], g, len)
      ensures may ==> len <= contig
      ensures !may && old(fs.maxcluster[cgx]) >= len ==> MaxExact()
      ensures may || old(fs.maxcluster[cgx]) < len ==> fs.maxcluster == old(fs.maxcluster)
    {
      if fs.maxcluster[cgx] < len {
        if len <= contig { NoCluster(len); }
        return false;
      }
      var i := FirstClass(len);
      may := i <= contig;
      if !may {
        NoCluster(len);
        LowerMax(len);
      }
    }

    /** Allocate blocks g .. g + len - 1, one ffs_alloccgblk call each. */
    method TakeCluster(g: nat, len: nat)
      requires Valid() && FreeCluster(Map(), g, len)
      modifies this, blksfree, frsum, clustersfree, clustersum, fs
      ensures Valid() && OthersKept()
      ensures ClusterTaken(old(Map()), Map(), g, len) && rotor == old(rotor) && frotor == old(frotor)
    {
      for i := 0 to len
        invariant Valid() && OthersKept() && rotor == old(rotor) && frotor == old(frotor)
        invariant ClusterTaken(old(Map()), Map(), g, i)
      {
        TakeOne(g + i);
      }
    }

    /** Map w is m with blocks g .. g + n - 1 taken. */
    ghost predicate ClusterTaken(m: seq<Row>, w: seq<Row>, g: nat, n: nat) {
      |w| == |m| && forall h :: 0 <= h < |m| ==> w[h] == if g <= h < g + n then AllClear(frag) else m[h]
    }

    /** One block of the cluster; the "lost block" panic is unreachable. */
    method TakeOne(h: nat)
      requires Valid() && h < |Map()| && Map()[h] == AllSet(frag)
      modifies this, blksfree, frsum, clustersfree, clustersum, fs
      ensures Valid() && OthersKept()
      ensures Map() == old(Map())[h := AllClear(frag)] && rotor == old(rotor) && frotor == old(frotor)
    {
      hide ClusterSums, Counted;
      WantedBlock(h);
      var want := base + FragNo(frag, h, 0);
      var blkno, x := AllocCgBlk(want, frag);
      assert blkno == want;  // panic: lost block
    }

    lemma WantedBlock(h: nat)
      requires Consistent() && h < |Map()| && Map()[h] == AllSet(frag)
      ensures nbfree > 0 && BlkOf(frag, Preferred(base + FragNo(frag, h, 0), rotor)) == h
      ensures Fill(Map()[h], 0, frag, false) == AllClear(frag)
    {
      TotalUpdate(Map(), h, Map()[h], FreeBlocks);
      FreeRowAt(Map(), h, 0);
      FragNoParts(frag, h, 0);
    }

    /** The block of the group, by number, from which ffs_clusteralloc searches. */
    function ClusterStart(bpref: nat): (r: nat)
      requires FragSize(frag)
      reads this
      ensures base <= bpref < base + fpg ==> base + FragNo(frag, r, 0) <= bpref < base + FragNo(frag, r + 1, 0)
      ensures !(base <= bpref < base + fpg) ==> FragNo(frag, r, 0) <= dblkno + metaspace < FragNo(frag, r + 1, 0)
    {
      BlkOf(frag, if base <= bpref < base + fpg then bpref - base else dblkno + metaspace)
    }

    /**
     * ffs_clusteralloc: allocate len adjacent blocks at or after the preference.  For a length
     * the histogram can tell apart it fails only if there is no such cluster.
     */
    method ClusterAlloc(bpref: nat, len: nat) returns (blkno: nat, ghost g: nat)
      requires Valid() && contig > 0 && 1 <= len
      modifies this, blksfree, frsum, clustersfree, clustersum, fs
      ensures Valid() && OthersKept() && rotor == old(rotor) && frotor == old(frotor)
      ensures blkno == 0 ==> Map() == old(Map())
      ensures blkno != 0 ==> blkno == base + FragNo(frag, g, 0) && old(ClusterStart(bpref)) <= g
      ensures blkno != 0 ==> FreeCluster(old(Map()), g, len) && ClusterTaken(old(Map()), Map(), g, len)
      ensures blkno != 0 ==>
        forall x: nat :: old(ClusterStart(bpref)) <= x < g ==> !FreeCluster(old(Map()), x, len)
      ensures blkno == 0 && len <= contig ==>
        forall x: nat :: old(ClusterStart(bpref)) <= x ==> !FreeCluster(old(Map()), x, len)
      ensures len > contig ==> blkno == 0
    {
      hide Counted;
      g := 0;
      var start := ClusterStart(bpref);
      var may := MayHaveCluster(len);
      var found, at := false, 0;
      if may { found, at := FindRun(clustersfree, start, len); }
      if !found {
        forall x: nat | start <= x && len <= contig
          ensures !FreeCluster(Map(), x, len)
        {
          ClusterMapExact(x, len);
        }
        return 0, 0;
      }
      forall x: nat | start <= x < at
        ensures !FreeCluster(Map(), x, len)
      {
        ClusterMapExact(x, len);
      }
      ClusterMapExact(at, len);  // panic: map mismatch
      FreeRowAt(Map(), at, 0);   // panic: allocated out of group
      TakeCluster(at, len);
      blkno, g := base + FragNo(frag, at, 0), at;
    }
  }
}
