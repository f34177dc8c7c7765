// Searches for a cylinder group with at least the average of something always find one, because the
// total is the sum over the groups.
module Averages {
  import opened CylGroups

  function Sum(s: seq<int>): int { if s == [] then 0 else Sum(s[..|s| - 1]) + s[|s| - 1] }

  lemma {:induction false} AllBelow(s: seq<int>, avg: int)
    requires forall i :: 0 <= i < |s| ==> s[i] < avg
    ensures s == [] || Sum(s) < avg * |s|
    decreases |s|
  {
    if s != [] {
      var n := |s| - 1;
      AllBelow(s[..n], avg);
      assert avg * |s| == avg * n + avg;
    }
  }

  /** Some group has at least the average, rounded down as the code does. */
  lemma SomeAtLeastAverage(s: seq<int>) returns (i: nat)
    requires s != [] && Sum(s) >= 0
    ensures i < |s| && s[i] >= Sum(s) / |s|
  {
    var avg := Sum(s) / |s|;
    AverageTimes(Sum(s), |s|);
    if forall k :: 0 <= k < |s| ==> s[k] < avg {
      AllBelow(s, avg);
      assert false;
    }
    var k :| 0 <= k < |s| && s[k] >= avg;
    i := k;
  }

  lemma AverageTimes(total: nat, n: nat)
    requires n > 0
    ensures (total / n) * n <= total
  {
    assert total == (total / n) * n + total % n;
  }

  /** No group before cg, in circular order from start, reaches the bound. */
  predicate FirstFrom(s: seq<int>, start: nat, bound: int, cg: nat) {
    && cg <= |s|
    && (forall k :: start <= k < |s| && (cg < start || k < cg) ==> s[k] < bound)
    && (cg < start ==> forall k :: 0 <= k < cg ==> s[k] < bound)
  }

  /**
   * The search of ffs_blkpref_ufs2 for a group with many free blocks, from any starting group: it
   * never falls through to its final return.
   */
  method RoomyGroup(nbfree: seq<int>, total: nat, start: nat) returns (cg: nat)
    requires nbfree != [] && total == Sum(nbfree)
    ensures cg < |nbfree| && nbfree[cg] >= total / |nbfree| && FirstFrom(nbfree, start % |nbfree|, total / |nbfree|, cg)
  {
    var ncg := |nbfree|;
    var startcg := start % ncg;
    var avgbfree := total / ncg;
    ghost var some := SomeAtLeastAverage(nbfree);
    cg := startcg;
    while cg < ncg
      invariant startcg <= cg <= ncg && forall k :: startcg <= k < cg ==> nbfree[k] < avgbfree
    {
      if nbfree[cg] >= avgbfree {
        return;
      }
      cg := cg + 1;
    }
    cg := 0;
    while cg <= startcg
      invariant cg <= startcg + 1 && forall k :: 0 <= k < cg ==> nbfree[k] < avgbfree
      invariant forall k :: startcg <= k < ncg ==> nbfree[k] < avgbfree
    {
      if nbfree[cg] >= avgbfree {
        return;
      }
      cg := cg + 1;
    }
    assert false; // the final return, of no group
  }

  /** The backstop of ffs_dirpref: a group with at least the average number of free inodes. */
  method DirectoryGroup(nifree: seq<int>, total: nat, prefcg: nat) returns (cg: nat)
    requires nifree != [] && total == Sum(nifree) && prefcg < |nifree|
    ensures cg < |nifree| && nifree[cg] >= total / |nifree| && FirstFrom(nifree, prefcg, total / |nifree|, cg)
  {
    var ncg := |nifree|;
    var avgifree := total / ncg;
    ghost var some := SomeAtLeastAverage(nifree);
    cg := prefcg;
    while cg < ncg
      invariant prefcg <= cg <= ncg && forall k :: prefcg <= k < cg ==> nifree[k] < avgifree
    {
      if nifree[cg] >= avgifree {
        return;
      }
      cg := cg + 1;
    }
    cg := 0;
    while cg < prefcg
      invariant cg <= prefcg && forall k :: 0 <= k < cg ==> nifree[k] < avgifree
      invariant forall k :: prefcg <= k < ncg ==> nifree[k] < avgifree
    {
      if nifree[cg] >= avgifree {
        break;
      }
      cg := cg + 1;
    }
  }

  function FreeBlockCounts(cs: seq<Csum>): (r: seq<int>)
    ensures |r| == |cs| && forall i :: 0 <= i < |cs| ==> r[i] == cs[i].nbfree
  {
    seq(|cs|, i requires 0 <= i < |cs| => cs[i].nbfree)
  }

  /** fs_cstotal counts what the groups count. */
  lemma {:induction false} TotalIsSum(cs: seq<Csum>)
    ensures SumOf(cs).nbfree == Sum(FreeBlockCounts(cs))
    decreases |cs|
  {
    if cs != [] {
      var n := |cs| - 1;
      TotalIsSum(cs[..n]);
      assert FreeBlockCounts(cs)[..n] == FreeBlockCounts(cs[..n]);
    }
  }

  /** The same search on the superblock, whose total every operation keeps. */
  method PreferredGroup(fs: SuperBlock, start: nat) returns (cg: nat)
    requires fs.Valid() && fs.cs != [] && fs.cstotal.nbfree >= 0
    ensures cg < |fs.cs| && fs.cs[cg].nbfree >= fs.cstotal.nbfree / |fs.cs|
    ensures FirstFrom(FreeBlockCounts(fs.cs), start % |fs.cs|, fs.cstotal.nbfree / |fs.cs|, cg)
  {
    TotalIsSum(fs.cs);
    cg := RoomyGroup(FreeBlockCounts(fs.cs), fs.cstotal.nbfree, start);
  }
}
