// ffs_hashalloc over all the cylinder groups of a file system.
module FileSystem {
  import opened Basics
  import opened GroupSums
  import opened FragTables
  import opened FragMap
  import opened CylGroups

  /** The groups have no storage in common. */
  ghost predicate Separate(groups: seq<CylGroup>) {
    forall i, j :: 0 <= i < j < |groups| ==>
      && groups[i] != groups[j] && groups[i].blksfree != groups[j].blksfree
      && groups[i].clustersfree != groups[j].clustersfree
      && groups[i].frsum != groups[j].frsum && groups[i].clustersum != groups[j].clustersum
      && groups[i].frsum != groups[j].clustersum && groups[i].clustersum != groups[j].frsum
  }

  function Storage(groups: seq<CylGroup>): set<object> {
    (set i | 0 <= i < |groups| :: groups[i] as object)
    + (set i | 0 <= i < |groups| :: groups[i].blksfree as object)
    + (set i | 0 <= i < |groups| :: groups[i].frsum as object)
    + (set i | 0 <= i < |groups| :: groups[i].clustersfree as object)
    + (set i | 0 <= i < |groups| :: groups[i].clustersum as object)
  }

  ghost predicate GroupOk(fs: SuperBlock, groups: seq<CylGroup>, i: nat)
    requires i < |groups|
    reads fs, Storage(groups)
  {
    groups[i].fs == fs && groups[i].cgx == i && groups[i].Valid()
  }

  /** Every group is valid, and together they are the groups the superblock describes. */
  ghost predicate Valid(fs: SuperBlock, groups: seq<CylGroup>)
    reads fs, Storage(groups)
  {
    && Separate(groups) && |groups| == |fs.cs| && 0 < |groups|
    && (forall i :: 0 <= i < |groups| ==> FragSize(groups[i].frag))
    && (forall i :: 0 <= i < |groups| ==> GroupOk(fs, groups, i))
  }

  /** A request that ffs_alloc and ffs_realloccg may make of group g. */
  predicate Fits(g: CylGroup, size: nat, rsize: nat) {
    1 <= size <= g.frag && 1 <= rsize <= g.frag && (size < g.frag ==> rsize == size)
  }

  ghost predicate FullAt(groups: seq<CylGroup>, i: nat, size: nat, full: set<int>)
    requires i < |groups| && FragSize(groups[i].frag)
    reads Storage(groups)
  {
    i in full <==> !Room(groups[i].Map(), size)
  }

  /** full names the groups that have no room for size. */
  ghost predicate FullGroups(groups: seq<CylGroup>, size: nat, full: set<int>)
    requires forall i :: 0 <= i < |groups| ==> FragSize(groups[i].frag)
    reads Storage(groups)
  {
    forall i :: 0 <= i < |groups| ==> FullAt(groups, i, size, full)
  }

  /** Fragments p .. of block h of group g are cut from the best run for the request. */
  ghost predicate Best(g: CylGroup, m: seq<Row>, rotor: nat, frotor: nat, pref: nat, size: nat, h: nat, p: nat)
    requires FragSize(g.frag)
  {
    0 < g.fpg && exists k: nat :: g.BestFit(m, g.Preferred(pref, rotor), g.SearchFrom(pref, frotor), size, k, h, p)
  }

  /** One call of the allocator: ffs_alloccg in group x. */
  method TryGroup(fs: SuperBlock, groups: seq<CylGroup>, x: nat, pref: nat, size: nat, rsize: nat, ghost full: set<int>)
    returns (result: nat, ghost h: nat, ghost p: nat)
    requires Valid(fs, groups) && x < |groups| && Fits(groups[x], size, rsize)
    requires FullGroups(groups, size, full)
    modifies fs, Storage(groups)
    ensures Valid(fs, groups)
    ensures result == 0 <==> x in full
    ensures result == 0 ==> FullGroups(groups, size, full)
    ensures forall i :: 0 <= i < |groups| && (i != x || result == 0) ==>
      groups[i].Map() == old(groups[i].Map()) && groups[i].rotor == old(groups[i].rotor)
      && groups[i].frotor == old(groups[i].frotor)
    ensures result != 0 ==> result == groups[x].base + FragNo(groups[x].frag, h, p)
    ensures result != 0 ==>
      Best(groups[x], old(groups[x].Map()), old(groups[x].rotor), old(groups[x].frotor), pref, size, h, p)
    ensures result != 0 ==> groups[x].Took(old(groups[x].Map()), groups[x].Map(), h, p, rsize)
  {
    hide Blocks, BlockCount;
    assert GroupOk(fs, groups, x) && FullAt(groups, x, size, full);
    ghost var k;
    result, h, p, k := groups[x].AllocCg(pref, size, rsize);
    forall i | 0 <= i < |groups| && i != x
      ensures GroupOk(fs, groups, i) && groups[i].Map() == old(groups[i].Map())
      ensures groups[i].rotor == old(groups[i].rotor) && groups[i].frotor == old(groups[i].frotor)
    {
      assert old(GroupOk(fs, groups, i));
      groups[i].Undisturbed(groups[x]);
    }
    if result == 0 {
      forall i | 0 <= i < |groups|
        ensures FullAt(groups, i, size, full)
      {
        assert old(FullAt(groups, i, size, full));
      }
    }
  }

  /** The k-th group after icg, counting round. */
  function Wrap(icg: nat, k: nat, ncg: nat): (x: nat)
    requires icg < ncg && k < ncg
    ensures x < ncg
  {
    if icg + k < ncg then icg + k else icg + k - ncg
  }

  lemma WrapIsMod(icg: nat, ncg: nat)
    requires icg < ncg && 2 < ncg
    ensures Round(icg + 2, ncg) == Wrap(icg, 2, ncg)
  {}

  /** The x-th group, counting round. */
  function Round(x: nat, ncg: nat): (r: nat)
    requires 0 < ncg
    ensures r < ncg && (x < ncg ==> r == x)
  {
    x % ncg
  }

  lemma ModStep(a: nat, i: nat, n: nat)
    requires 0 < n && i <= n
    ensures Round(a + i, n) == if Round(a, n) + i < n then Round(a, n) + i else Round(a, n) + i - n
  {
    var q, r := a / n, a % n + i;
    assert a == q * n + a % n && (q + 1) * n == q * n + n;
    if r < n {
      DivMod(a + i, n, q, r);
    } else {
      DivMod(a + i, n, q + 1, r - n);
    }
  }

  /**
   * The groups in the order ffs_hashalloc tries them: the preferred one, those 1, 3, 7, ... after it
   * until the step has reached the number of groups, then all from the second after it on.
   */
  ghost predicate Probes(order: seq<nat>, icg: nat, ncg: nat, r: nat)
    requires icg < ncg
  {
    && Pow2(r) >= ncg && (r > 0 ==> Pow2(r - 1) < ncg)
    && |order| == 1 + r + (if ncg > 2 then ncg - 2 else 0)
    && (forall k :: 0 <= k <= r ==> order[k] == Round(icg + Pow2(k) - 1, ncg))
    && (forall k :: 2 <= k < ncg ==> order[r + k - 1] == Wrap(icg, k, ncg))
  }

  lemma ProbesAll(order: seq<nat>, icg: nat, ncg: nat, r: nat)
    requires icg < ncg && Probes(order, icg, ncg, r)
    ensures order[0] == icg && forall k :: 0 <= k < |order| ==> order[k] < ncg
    ensures forall x :: 0 <= x < ncg ==> x in order
  {
    hide Round;
    assert order[0] == icg;
    forall k | 0 <= k < |order|
      ensures order[k] < ncg
    {
      if k > r {
        assert order[r + (k - r + 1) - 1] == Wrap(icg, k - r + 1, ncg);
      }
    }
    forall x | 0 <= x < ncg
      ensures x in order
    {
      var k := if x >= icg then x - icg else x + ncg - icg;
      assert x == Wrap(icg, k, ncg);
      if k >= 2 {
        assert order[r + k - 1] == x;
      } else if k == 1 {
        assert Pow2(0) == 1;
        ModStep(icg, 1, ncg);
        assert r >= 1 && order[1] == Round(icg + Pow2(1) - 1, ncg);
      }
    }
  }

  /**
   * The preferred group and the quadratic rehash.  The bound on the number of groups is the one for
   * which the 32-bit doubling of i reaches it.
   */
  method Rehash(icg: nat, ncg: nat) returns (order: seq<nat>)
    requires icg < ncg <= 0x8000_0000
    ensures |order| > 0 && Pow2(|order| - 1) >= ncg && (|order| > 1 ==> Pow2(|order| - 2) < ncg)
    ensures forall k :: 0 <= k < |order| ==> order[k] == Round(icg + Pow2(k) - 1, ncg)
  {
    hide Round, Pow2;
    order := [icg];
    Pow2Next(0);
    var cg: nat, i: nat := icg, 1;
    while i < ncg
      invariant |order| > 0 && i == Pow2(|order| - 1) && (|order| > 1 ==> Pow2(|order| - 2) < ncg)
      invariant cg == Round(icg + i - 1, ncg)
      invariant forall k :: 0 <= k < |order| ==> order[k] == Round(icg + Pow2(k) - 1, ncg)
      decreases ncg - i
    {
      assert cg + i < 0x1_0000_0000 && 2 * i < 0x1_0000_0000;
      ModStep(icg + i - 1, i, ncg);
      Pow2Next(|order| - 1);
      cg := cg + i;
      if cg >= ncg { cg := cg - ncg; }
      order := order + [cg];
      i := i * 2;
    }
  }

  /** The whole probe order: then follows the brute-force search. */
  method ProbeOrder(icg: nat, ncg: nat) returns (order: seq<nat>, ghost r: nat)
    requires icg < ncg <= 0x8000_0000
    ensures Probes(order, icg, ncg, r)
  {
    hide Round, Pow2;
    order := Rehash(icg, ncg);
    r := |order| - 1;
    if ncg > 2 { WrapIsMod(icg, ncg); }
    var cg, i := Round(icg + 2, ncg), 2;
    while i < ncg
      invariant 2 <= i && (i < ncg ==> cg == Wrap(icg, i, ncg)) && (ncg > 2 ==> i <= ncg)
      invariant |order| == 1 + r + (if ncg > 2 then i - 2 else 0)
      invariant forall k :: 0 <= k <= r ==> order[k] == Round(icg + Pow2(k) - 1, ncg)
      invariant forall k :: 2 <= k < i && k < ncg ==> order[r + k - 1] == Wrap(icg, k, ncg)
      decreases ncg - i
    {
      order := order + [cg];
      cg := cg + 1;
      if cg == ncg { cg := 0; }
      i := i + 1;
    }
  }

  /** Call the allocator in the groups of order, one after the other, until it succeeds. */
  method TryAll(fs: SuperBlock, groups: seq<CylGroup>, order: seq<nat>, pref: nat, size: nat, rsize: nat,
                ghost full: set<int>)
    returns (result: nat, x: nat, ghost h: nat, ghost p: nat, ghost tries: nat)
    requires Valid(fs, groups) && FullGroups(groups, size, full)
    requires forall i :: 0 <= i < |groups| ==> Fits(groups[i], size, rsize)
    requires forall k :: 0 <= k < |order| ==> order[k] < |groups|
    modifies fs, Storage(groups)
    ensures Valid(fs, groups) && x < |groups|
    ensures result == 0 <==> forall k :: 0 <= k < |order| ==> order[k] in full
    ensures result != 0 ==> FirstRoom(order, full, tries) && x == order[tries]
    ensures forall i :: 0 <= i < |groups| && (i != x || result == 0) ==> groups[i].Map() == old(groups[i].Map())
    ensures result != 0 ==> result == groups[x].base + FragNo(groups[x].frag, h, p)
    ensures result != 0 ==> groups[x].Took(old(groups[x].Map()), groups[x].Map(), h, p, rsize)
    ensures result != 0 ==>
      Best(groups[x], old(groups[x].Map()), old(groups[x].rotor), old(groups[x].frotor), PrefAt(tries, pref), size,
           h, p)
    decreases |order|
  {
    hide Storage;
    if order == [] { return 0, 0, 0, 0, 0; }
    x, tries := order[0], 0;
    result, h, p := TryGroup(fs, groups, x, pref, size, rsize, full);
    if result == 0 {
      result, x, h, p, tries := TryAll(fs, groups, order[1..], 0, size, rsize, full);
      tries := tries + 1;
    }
  }

  /** The preference is for the first group only. */
  function PrefAt(tries: nat, pref: nat): nat { if tries == 0 then pref else 0 }

  /** The first group of the order that has room. */
  predicate FirstRoom(order: seq<nat>, full: set<int>, tries: nat) {
    tries < |order| && order[tries] !in full && forall k :: 0 <= k < tries ==> order[k] in full
  }

  /**
   * ffs_hashalloc with ffs_alloccg: it gives up only when every group is full, and otherwise allocates
   * in the first group of the probe order that has room, so in the preferred one if it has any.
   */
  method HashAlloc(fs: SuperBlock, groups: seq<CylGroup>, icg: nat, pref: nat, size: nat, rsize: nat,
                   ghost full: set<int>)
    returns (result: nat, x: nat, ghost h: nat, ghost p: nat, ghost order: seq<nat>, ghost tries: nat)
    requires Valid(fs, groups) && icg < |groups| <= 0x8000_0000
    requires FullGroups(groups, size, full)
    requires forall i :: 0 <= i < |groups| ==> Fits(groups[i], size, rsize)
    modifies fs, Storage(groups)
    ensures Valid(fs, groups) && x < |groups|
    ensures result == 0 <==> forall i :: 0 <= i < |groups| ==> i in full
    ensures exists r :: Probes(order, icg, |groups|, r)
    ensures result != 0 ==> FirstRoom(order, full, tries) && x == order[tries]
    ensures icg !in full ==> x == icg && tries == 0
    ensures forall i :: 0 <= i < |groups| && (i != x || result == 0) ==> groups[i].Map() == old(groups[i].Map())
    ensures result != 0 ==> result == groups[x].base + FragNo(groups[x].frag, h, p)
    ensures result != 0 ==> groups[x].Took(old(groups[x].Map()), groups[x].Map(), h, p, rsize)
    ensures result != 0 ==>
      Best(groups[x], old(groups[x].Map()), old(groups[x].rotor), old(groups[x].frotor), PrefAt(tries, pref), size,
           h, p)
  {
    hide Valid;
    var probes, r := ProbeOrder(icg, |groups|);
    order := probes;
    ProbesAll(order, icg, |groups|, r);
    AllTried(order, full, |groups|);
    result, x, h, p, tries := TryAll(fs, groups, probes, pref, size, rsize, full);
  }

  lemma AllTried(order: seq<nat>, full: set<int>, n: nat)
    requires forall x :: 0 <= x < n ==> x in order
    requires forall k :: 0 <= k < |order| ==> order[k] < n
    ensures (forall k :: 0 <= k < |order| ==> order[k] in full) <==> (forall i :: 0 <= i < n ==> i in full)
  {
    if forall k :: 0 <= k < |order| ==> order[k] in full {
      forall i | 0 <= i < n
        ensures i in full
      {
        assert i in order;
        var k :| 0 <= k < |order| && order[k] == i;
      }
    }
  }

  /** i after k doublings in 32 bits. */
  function Doubled(k: nat): nat { if k == 0 then 1 else 2 * Doubled(k - 1) % 0x1_0000_0000 }

  function Pow2(k: nat): (r: nat)
    ensures r > 0
  {
    if k == 0 then 1 else 2 * Pow2(k - 1)
  }

  lemma Pow2Next(k: nat)
    ensures Pow2(0) == 1 && Pow2(k + 1) == 2 * Pow2(k)
  {
  }

  lemma {:induction false} Pow2Mono(a: nat, b: nat)
    requires a <= b
    ensures Pow2(a) <= Pow2(b)
  {
    if a < b { Pow2Mono(a, b - 1); }
  }

  lemma {:induction false} Pow2Add(a: nat, b: nat)
    ensures Pow2(a + b) == Pow2(a) * Pow2(b)
  {
    if a > 0 { Pow2Add(a - 1, b); }
  }

  lemma Pow2Of31()
    ensures Pow2(31) == 0x8000_0000
  {
    assert Pow2(3) == 8 && Pow2(4) == 16;
    Pow2Add(4, 4);
    Pow2Add(4, 3);
    Pow2Add(8, 7);
    Pow2Add(8, 8);
    Pow2Add(16, 15);
  }

  lemma Pow2Fits(k: nat)
    requires k <= 31
    ensures Pow2(k) <= 0x8000_0000
  {
    Pow2Of31();
    Pow2Mono(k, 31);
  }

  lemma {:induction false} DoubledGrows(k: nat)
    requires k <= 31
    ensures Doubled(k) == Pow2(k) <= 0x8000_0000
  {
    if k > 0 {
      DoubledGrows(k - 1);
      Pow2Fits(k);
      InWord(2 * Doubled(k - 1));
    }
  }

  lemma InWord(x: nat)
    requires x < 0x1_0000_0000
    ensures x % 0x1_0000_0000 == x
  {
  }

  /** The last bit leaves the 32-bit word. */
  lemma DoubledWraps(k: nat)
    requires Doubled(k) == 0x8000_0000
    ensures Doubled(k + 1) == 0
  {
  }

  lemma {:induction false} DoubledStuck(k: nat)
    requires 32 <= k
    ensures Doubled(k) == 0
  {
    if k == 32 {
      DoubledGrows(k - 1);
      Pow2Of31();
      DoubledWraps(k - 1);
    } else {
      DoubledStuck(k - 1);
    }
  }

  /** The rehash loop ends for exactly the group counts that HashAlloc admits. */
  lemma RehashEnds(ncg: nat)
    requires 0 < ncg
    ensures (exists k: nat :: Doubled(k) >= ncg) <==> ncg <= 0x8000_0000
  {
    Pow2Of31();
    DoubledGrows(31);
    forall k: nat | Doubled(k) >= ncg
      ensures ncg <= 0x8000_0000
    {
      if k <= 31 { DoubledGrows(k); } else { DoubledStuck(k); }
    }
  }
}
