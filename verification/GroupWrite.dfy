// Writing a cylinder group whose latest allocations are not yet covered by the journal:
// initiate_write_bmsafemap rolls each of them back in the buffer, and
// handle_written_bmsafemap rolls them forward again once the write is done.
module GroupWrite {
  import opened FragTables
  import opened FragMap
  import opened GroupSums
  import opened CylGroups

  /** A jnewblk: fragments oldfrags .. frags - 1 of the block address bno (jn_blkno in its group). */
  datatype JNewBlk = JNewBlk(bno: nat, oldfrags: nat, frags: nat)

  function Block(frag: nat, j: JNewBlk): nat
    requires FragSize(frag)
  {
    BlkOf(frag, j.bno)
  }

  function Low(frag: nat, j: JNewBlk): nat
    requires FragSize(frag)
  {
    PosOf(frag, j.bno) + j.oldfrags
  }

  function High(frag: nat, j: JNewBlk): nat
    requires FragSize(frag)
  {
    PosOf(frag, j.bno) + j.frags
  }

  /** The record is for fragment x of the group. */
  predicate Covers(j: JNewBlk, x: nat) { j.bno + j.oldfrags <= x < j.bno + j.frags }

  /** One of the records a .. b - 1 is for fragment x. */
  ghost predicate Covered(js: seq<JNewBlk>, a: nat, b: nat, x: nat)
    requires b <= |js|
  {
    exists k :: a <= k < b && Covers(js[k], x)
  }

  ghost predicate Disjoint(js: seq<JNewBlk>) {
    forall a, b, x: nat :: 0 <= a < b < |js| ==> !(Covers(js[a], x) && Covers(js[b], x))
  }

  /** Within its block the record is for positions Low .. High - 1. */
  lemma CoversRow(frag: nat, j: JNewBlk, h: nat, i: nat)
    requires FragSize(frag) && High(frag, j) <= frag && i < frag
    ensures Covers(j, FragNo(frag, h, i)) <==> h == Block(frag, j) && Low(frag, j) <= i < High(frag, j)
  {
    FragNoParts(frag, h, i);
    assert FragNo(frag, Block(frag, j), PosOf(frag, j.bno)) == j.bno;
  }

  /** The record names fragments of one block that are allocated in map m. */
  ghost predicate Allocated(g: CylGroup, m: seq<Row>, j: JNewBlk)
    requires FragSize(g.frag)
  {
    var h, lo, hi := Block(g.frag, j), Low(g.frag, j), High(g.frag, j);
    && h < |m| && lo < hi <= g.frag == |m[h]|
    && (forall i :: lo <= i < hi ==> !m[h][i])
    && FragNo(g.frag, h, hi) <= g.ndblk && (g.cgx == 0 ==> h != 0)
  }

  /** Map w is m with the fragments of records a .. b - 1 free as well. */
  ghost predicate Shows(w: seq<Row>, m: seq<Row>, frag: nat, js: seq<JNewBlk>, a: nat, b: nat)
    requires FragSize(frag) && b <= |js|
  {
    && |w| == |m|
    && (forall h :: 0 <= h < |m| ==> |m[h]| == frag && |w[h]| == frag)
    && (forall h, i :: 0 <= h < |m| && 0 <= i < frag ==> w[h][i] == (m[h][i] || Covered(js, a, b, FragNo(frag, h, i))))
  }

  /** Rolling back one more record. */
  lemma StepBack(g: CylGroup, w: seq<Row>, m: seq<Row>, js: seq<JNewBlk>, k: nat)
    requires FragSize(g.frag) && k < |js| && Disjoint(js) && Allocated(g, m, js[k])
    requires Shows(w, m, g.frag, js, 0, k)
    ensures Allocated(g, w, js[k])
    ensures var h, lo, hi := Block(g.frag, js[k]), Low(g.frag, js[k]), High(g.frag, js[k]);
      Shows(w[h := Fill(w[h], lo, hi, true)], m, g.frag, js, 0, k + 1)
  {
    hide FragNo, BlkOf, PosOf;
    var h, lo, hi := Block(g.frag, js[k]), Low(g.frag, js[k]), High(g.frag, js[k]);
    forall x, i | 0 <= x && 0 <= i < g.frag
      ensures Covers(js[k], FragNo(g.frag, x, i)) <==> x == h && lo <= i < hi
      ensures Covered(js, 0, k + 1, FragNo(g.frag, x, i))
              == (Covered(js, 0, k, FragNo(g.frag, x, i)) || Covers(js[k], FragNo(g.frag, x, i)))
      ensures Covers(js[k], FragNo(g.frag, x, i)) ==> !Covered(js, 0, k, FragNo(g.frag, x, i))
    {
      CoversRow(g.frag, js[k], x, i);
    }
  }

  /** Rolling forward one more record. */
  lemma StepForward(g: CylGroup, w: seq<Row>, m: seq<Row>, js: seq<JNewBlk>, k: nat)
    requires FragSize(g.frag) && k < |js| && Disjoint(js) && Allocated(g, m, js[k])
    requires Shows(w, m, g.frag, js, k, |js|)
    ensures var h, lo, hi := Block(g.frag, js[k]), Low(g.frag, js[k]), High(g.frag, js[k]);
      && (forall i :: lo <= i < hi ==> w[h][i])
      && Shows(w[h := Fill(w[h], lo, hi, false)], m, g.frag, js, k + 1, |js|)
  {
    hide FragNo, BlkOf, PosOf;
    var h, lo, hi := Block(g.frag, js[k]), Low(g.frag, js[k]), High(g.frag, js[k]);
    forall x, i | 0 <= x && 0 <= i < g.frag
      ensures Covers(js[k], FragNo(g.frag, x, i)) <==> x == h && lo <= i < hi
      ensures Covered(js, k, |js|, FragNo(g.frag, x, i))
              == (Covers(js[k], FragNo(g.frag, x, i)) || Covered(js, k + 1, |js|, FragNo(g.frag, x, i)))
      ensures Covers(js[k], FragNo(g.frag, x, i)) ==> !Covered(js, k + 1, |js|, FragNo(g.frag, x, i))
    {
      CoversRow(g.frag, js[k], x, i);
    }
  }

  /** jnewblk_rollback over the list: the buffer shows none of the pending allocations. */
  method RollbackAll(g: CylGroup, js: seq<JNewBlk>, ghost m: seq<Row>)
    requires g.Consistent() && m == g.Map() && Disjoint(js)
    requires forall k :: 0 <= k < |js| ==> Allocated(g, m, js[k])
    modifies g`nbfree, g`nffree, g.blksfree, g.frsum, g.clustersfree, g.clustersum, g.fs`maxcluster
    ensures g.Consistent() && Shows(g.Map(), m, g.frag, js, 0, |js|)
  {
    hide FragNo;
    for k := 0 to |js|
      invariant g.Consistent() && Shows(g.Map(), m, g.frag, js, 0, k)
    {
      StepBack(g, g.Map(), m, js, k);
      g.Release(Block(g.frag, js[k]), Low(g.frag, js[k]), High(g.frag, js[k]));
    }
  }

  /** One jnewblk_rollforward; "re-allocated fragment" is unreachable. */
  method Rollforward(g: CylGroup, h: nat, lo: nat, hi: nat)
    requires g.Consistent() && h < |g.Map()| && lo < hi <= g.frag
    requires forall i :: lo <= i < hi ==> g.Map()[h][i]
    modifies g`nbfree, g`nffree, g.blksfree, g.frsum, g.clustersfree, g.clustersum, g.fs`maxcluster
    ensures g.Consistent()
    ensures g.Map() == old(g.Map())[h := Fill(old(g.Map())[h], lo, hi, false)]
  {
    if hi - lo == g.frag {
      assert g.Map()[h] == AllSet(g.frag) && Fill(g.Map()[h], lo, hi, false) == AllClear(g.frag);
      g.TakeBlock(h);
    } else {
      g.TakeFrags(h, lo, hi);
    }
  }

  method RollforwardAll(g: CylGroup, js: seq<JNewBlk>, ghost m: seq<Row>)
    requires g.Consistent() && Disjoint(js)
    requires forall k :: 0 <= k < |js| ==> Allocated(g, m, js[k])
    requires Shows(g.Map(), m, g.frag, js, 0, |js|)
    modifies g`nbfree, g`nffree, g.blksfree, g.frsum, g.clustersfree, g.clustersum, g.fs`maxcluster
    ensures g.Consistent() && g.Map() == m
  {
    hide FragSize, Total, Blocks;
    for k := 0 to |js|
      invariant g.Consistent() && Shows(g.Map(), m, g.frag, js, k, |js|)
    {
      StepForward(g, g.Map(), m, js, k);
      Rollforward(g, Block(g.frag, js[k]), Low(g.frag, js[k]), High(g.frag, js[k]));
    }
    assert forall h :: 0 <= h < |m| ==> g.Map()[h] == m[h];
  }

  /**
   * A whole write.  The image has every pending allocation free and every summary in step with
   * it; afterwards the group is exactly as it was, whatever the number and order of the records.
   */
  method WriteGroup(g: CylGroup, js: seq<JNewBlk>) returns (ghost image: seq<Row>)
    requires g.Valid() && Disjoint(js)
    requires forall k :: 0 <= k < |js| ==> Allocated(g, g.Map(), js[k])
    modifies g`nbfree, g`nffree, g.blksfree, g.frsum, g.clustersfree, g.clustersum, g.fs`maxcluster
    ensures Shows(image, old(g.Map()), g.frag, js, 0, |js|)
    ensures g.Valid() && g.Map() == old(g.Map())
    ensures g.nbfree == old(g.nbfree) && g.nffree == old(g.nffree)
    ensures forall k :: 1 <= k < g.frag ==> g.frsum[k] == old(g.frsum[k])
    ensures g.contig > 0 ==> g.clustersfree[..] == old(g.clustersfree[..])
    ensures g.contig > 0 ==> forall k :: 1 <= k <= g.contig ==> g.clustersum[k] == old(g.clustersum[k])
  {
    ghost var m := g.Map();
    RollbackAll(g, js, m);
    image := g.Map();
    RollforwardAll(g, js, m);
  }
}
