// ffs_truncate for a file that gets shorter: its three indirect blocks and its direct blocks, the last
// of which may be a fragment.
module InodeTruncation {
  import opened Basics
  import opened BlockTree
  import opened Truncation

  /** Block, fragment and block-in-fragments sizes, direct pointers, pointers in an indirect block. */
  datatype Geometry = Geometry(bsize: nat, fsize: nat, frag: nat, nd: nat, n: nat)
  {
    predicate Valid() { fsize > 0 && frag > 0 && bsize == frag * fsize && nd > 0 && nd % 4 == 0 && n > 0 && n % 4 == 0 }
  }

  /** blksize: the fragments of direct block lbn in a file of that size. */
  function BlkFrags(g: Geometry, size: nat, lbn: nat): nat
    requires g.Valid()
  {
    if lbn >= g.nd || size >= (lbn + 1) * g.bsize then g.frag else HowMany(size % g.bsize, g.fsize)
  }

  /** The last block of a file of that size, -1 for none. */
  function LastBlock(g: Geometry, size: nat): (r: int)
    requires g.Valid()
    ensures r >= -1
  {
    (size + g.bsize - 1) / g.bsize - 1
  }

  /** The fragments of every direct block in a file of that size. */
  function FragsOf(g: Geometry, size: nat): (r: seq<nat>)
    requires g.Valid()
    ensures |r| == g.nd && forall i :: 0 <= i < |r| ==> r[i] == BlkFrags(g, size, i)
  {
    seq(g.nd, i requires 0 <= i < g.nd => BlkFrags(g, size, i))
  }

  /** The runs of the direct blocks from lo on, the last one first, given their sizes. */
  function DirectRuns(db: seq<nat>, frags: seq<nat>, lo: nat): seq<Run>
    requires |frags| == |db|
    decreases |db| - lo
  {
    if lo >= |db| then []
    else DirectRuns(db, frags, lo + 1) + if db[lo] == 0 then [] else [Run(db[lo], frags[lo])]
  }

  /** The fragments at the end of the last block that the shorter file does not need. */
  function TailRun(db: seq<nat>, old_: seq<nat>, now: seq<nat>, last: int): seq<Run>
    requires |old_| == |now| == |db|
  {
    if !(0 <= last < |db|) || db[last] == 0 || old_[last] <= now[last] then []
    else [Run(db[last] + now[last], old_[last] - now[last])]
  }

  // ---- arithmetic of block and fragment numbers

  lemma DivBounds(x: nat, d: nat)
    requires d > 0
    ensures (x / d) * d <= x < (x / d + 1) * d
  {
    assert x == (x / d) * d + x % d;
    assert (x / d + 1) * d == (x / d) * d + d;
  }

  /** The file ends in its last block. */
  lemma LastBlockEnds(g: Geometry, size: nat)
    requires g.Valid() && LastBlock(g, size) >= 0
    ensures LastBlock(g, size) * g.bsize < size <= (LastBlock(g, size) + 1) * g.bsize
  {
    DivBounds(size + g.bsize - 1, g.bsize);
    var l := LastBlock(g, size);
    assert (l + 2) * g.bsize == (l + 1) * g.bsize + g.bsize;
    assert (l + 1) * g.bsize == l * g.bsize + g.bsize;
  }

  /** Blocks before the last one are whole. */
  lemma BeforeLast(g: Geometry, size: nat, osize: nat, i: nat)
    requires g.Valid() && i < LastBlock(g, size) && size <= osize
    ensures BlkFrags(g, size, i) == g.frag && BlkFrags(g, osize, i) == g.frag
  {
    LastBlockEnds(g, size);
    Scale(i + 1, LastBlock(g, size), g.bsize);
  }

  lemma HowManyBounds(x: nat, y: nat, f: nat)
    requires y > 0 && 0 < x <= f * y
    ensures 0 < HowMany(x, y) <= f
  {
    DivBounds(x + y - 1, y);
    var h := HowMany(x, y);
    assert (f + 1) * y == f * y + y && (0 + 1) * y == y;
    if h > f {
      Scale(f + 1, h, y);
    }
  }

  lemma HowManyRises(x: nat, z: nat, y: nat)
    requires y > 0 && x <= z
    ensures HowMany(x, y) <= HowMany(z, y)
  {
    DivBounds(x + y - 1, y);
    DivBounds(z + y - 1, y);
    if HowMany(x, y) > HowMany(z, y) {
      Scale(HowMany(z, y) + 1, HowMany(x, y), y);
    }
  }

  lemma Remainder(x: nat, q: nat, d: nat)
    requires q * d <= x < (q + 1) * d
    ensures d > 0 && x % d == x - q * d
  {
    assert (q + 1) * d == q * d + d;
    DivMod(x, d, q, x - q * d);
  }

  /** The bytes of a file of that size that are in block lbn. */
  function BytesIn(g: Geometry, size: nat, lbn: nat): int {
    if size >= lbn * g.bsize + g.bsize then g.bsize else size - lbn * g.bsize
  }

  /** A direct block has just the fragments that hold its bytes of the file; others are whole. */
  lemma BlockHolds(g: Geometry, size: nat, lbn: nat)
    requires g.Valid() && lbn * g.bsize <= size
    ensures lbn < g.nd ==> BytesIn(g, size, lbn) <= BlkFrags(g, size, lbn) * g.fsize < BytesIn(g, size, lbn) + g.fsize
    ensures lbn >= g.nd ==> BlkFrags(g, size, lbn) == g.frag
  {
    assert (lbn + 1) * g.bsize == lbn * g.bsize + g.bsize;
    if lbn < g.nd && size < (lbn + 1) * g.bsize {
      Remainder(size, lbn, g.bsize);
      HowManyTight(size % g.bsize, g.fsize);
    }
  }

  /** The last block of the shorter file was at least as large in the longer one. */
  lemma LastShrinks(g: Geometry, size: nat, osize: nat)
    requires g.Valid() && LastBlock(g, size) >= 0 && size <= osize
    ensures 0 < BlkFrags(g, size, LastBlock(g, size)) <= BlkFrags(g, osize, LastBlock(g, size))
  {
    var l := LastBlock(g, size);
    LastBlockEnds(g, size);
    if l < g.nd && size < (l + 1) * g.bsize {
      Remainder(size, l, g.bsize);
      HowManyBounds(size % g.bsize, g.fsize, g.frag);
      if osize < (l + 1) * g.bsize {
        Remainder(osize, l, g.bsize);
        HowManyRises(size % g.bsize, osize % g.bsize, g.fsize);
      }
    }
  }

  // ---- conservation of fragments

  ghost predicate SplitsAt(m: (nat, nat) -> nat, s: nat, a: nat, b: nat) { m(s, a + b) == m(s, a) + m(s + a, b) }

  /** The measure of a run is the sum of those of its parts. */
  ghost predicate Additive(m: (nat, nat) -> nat) { forall s, a, b :: SplitsAt(m, s, a, b) }

  lemma LengthAdditive()
    ensures Additive(LengthOf)
  {
  }

  /** How often a run covers fragment a. */
  function CoverOf(a: nat): (nat, nat) -> nat { (s: nat, f: nat) => if s <= a < s + f then 1 else 0 }

  lemma CoverAdditive(a: nat)
    ensures Additive(CoverOf(a))
  {
    forall s, x, y
      ensures SplitsAt(CoverOf(a), s, x, y)
    {
    }
  }

  lemma SumOne(r: Run, m: (nat, nat) -> nat)
    ensures Sum([r], m) == m(r.start, r.frags) && Sum([], m) == 0
  {
    assert [r][..0] == [];
  }

  /** The measure of one direct block. */
  function Weight(b: nat, frags: nat, m: (nat, nat) -> nat): nat { if b == 0 then 0 else m(b, frags) }

  /** The measure of the direct blocks from lo on. */
  function DirectSum(db: seq<nat>, frags: seq<nat>, lo: nat, m: (nat, nat) -> nat): nat
    requires |frags| == |db|
    decreases |db| - lo
  {
    if lo >= |db| then 0 else DirectSum(db, frags, lo + 1, m) + Weight(db[lo], frags[lo], m)
  }

  /** The measure of the end of the last block that is freed. */
  function TailSum(b: nat, o: nat, k: nat, m: (nat, nat) -> nat): nat {
    if b == 0 || o <= k then 0 else m(b + k, o - k)
  }

  lemma {:induction false} SumOfDirects(db: seq<nat>, frags: seq<nat>, lo: nat, m: (nat, nat) -> nat)
    requires |frags| == |db|
    ensures Sum(DirectRuns(db, frags, lo), m) == DirectSum(db, frags, lo, m)
    decreases |db| - lo
  {
    if lo < |db| {
      SumOfDirects(db, frags, lo + 1, m);
      DirectStep(db, frags, lo, m);
    } else {
      SumOne(Run(0, 0), m);
    }
  }

  lemma DirectStep(db: seq<nat>, frags: seq<nat>, lo: nat, m: (nat, nat) -> nat)
    requires |frags| == |db| && lo < |db|
    ensures Sum(DirectRuns(db, frags, lo), m) == Sum(DirectRuns(db, frags, lo + 1), m) + Weight(db[lo], frags[lo], m)
  {
    var one := if db[lo] == 0 then [] else [Run(db[lo], frags[lo])];
    SumConcat(DirectRuns(db, frags, lo + 1), one, m);
    SumOne(Run(db[lo], frags[lo]), m);
  }

  lemma SumOfTail(db: seq<nat>, old_: seq<nat>, now: seq<nat>, last: int, m: (nat, nat) -> nat)
    requires |old_| == |now| == |db|
    ensures Sum(TailRun(db, old_, now, last), m) == if 0 <= last < |db| then TailSum(db[last], old_[last], now[last], m)
            else 0
  {
    SumOne(Run(0, 0), m);
    if 0 <= last < |db| && old_[last] > now[last] {
      SumOne(Run(db[last] + now[last], old_[last] - now[last]), m);
    }
  }

  /** The sizes of a file that was shortened: whole blocks before the last one, which did not grow. */
  predicate Shrunk(old_: seq<nat>, now: seq<nat>, last: int) {
    && |old_| == |now|
    && (forall i :: 0 <= i < |now| && i < last ==> now[i] == old_[i])
    && (0 <= last < |now| ==> 0 < now[last] <= old_[last])
  }

  lemma SizesShrink(g: Geometry, size: nat, osize: nat)
    requires g.Valid() && size <= osize
    ensures Shrunk(FragsOf(g, osize), FragsOf(g, size), LastBlock(g, size))
  {
    var last := LastBlock(g, size);
    forall i | 0 <= i < g.nd && i < last
      ensures FragsOf(g, size)[i] == FragsOf(g, osize)[i]
    {
      BeforeLast(g, size, osize, i);
    }
    if 0 <= last < g.nd {
      LastShrinks(g, size, osize);
    }
  }

  /** The direct blocks past the last one are freed, those before it are kept. */
  lemma {:induction false} DirectsAfter(db: seq<nat>, now: seq<nat>, last: int, lo: nat, m: (nat, nat) -> nat)
    requires |now| == |db| && -1 <= last < lo
    ensures DirectSum(ZeroFrom(db, last + 1), now, lo, m) == 0
    decreases |db| - lo
  {
    if lo < |db| {
      DirectsAfter(db, now, last, lo + 1, m);
    }
  }

  lemma {:induction false} DirectsConserve(db: seq<nat>, old_: seq<nat>, now: seq<nat>, last: int, lo: nat,
                                           m: (nat, nat) -> nat)
    requires Additive(m) && |old_| == |db| && Shrunk(old_, now, last) && lo <= last < |db|
    ensures DirectSum(ZeroFrom(db, last + 1), now, lo, m) + DirectSum(db, old_, last + 1, m)
            + TailSum(db[last], old_[last], now[last], m)
         == DirectSum(db, old_, lo, m)
    decreases |db| - lo
  {
    if lo < last {
      DirectsConserve(db, old_, now, last, lo + 1, m);
    } else {
      DirectsAfter(db, now, last, lo + 1, m);
      TailConserves(db[last], old_[last], now[last], m);
    }
  }

  lemma TailConserves(b: nat, o: nat, k: nat, m: (nat, nat) -> nat)
    requires Additive(m) && k <= o
    ensures Weight(b, o, m) == Weight(b, k, m) + TailSum(b, o, k, m)
  {
    assert SplitsAt(m, b, k, o - k);
  }

  lemma {:induction false} DirectsSame(db: seq<nat>, old_: seq<nat>, now: seq<nat>, last: int, lo: nat)
    requires |old_| == |db| && Shrunk(old_, now, last) && last >= |db|
    ensures DirectRuns(db, now, lo) == DirectRuns(db, old_, lo)
    decreases |db| - lo
  {
    if lo < |db| {
      DirectsSame(db, old_, now, last, lo + 1);
    }
  }

  // ---- the whole file

  /** The measure of the trees from l on. */
  ghost function ForestSum(trees: seq<Tree>, frag: nat, l: nat, m: (nat, nat) -> nat): nat
    decreases |trees| - l
  {
    if l >= |trees| then 0 else ForestSum(trees, frag, l + 1, m) + Sum(AllRuns(trees[l], l + 1, frag), m)
  }

  /** The measure of all that the file holds. */
  ghost function Held(g: Geometry, db: seq<nat>, trees: seq<Tree>, size: nat, m: (nat, nat) -> nat): nat
    requires g.Valid() && |db| == g.nd
  {
    Sum(DirectRuns(db, FragsOf(g, size), 0), m) + ForestSum(trees, g.frag, 0, m)
  }

  /** What shortening the file frees of its direct blocks. */
  function DirectsFreed(db: seq<nat>, old_: seq<nat>, now: seq<nat>, last: int): seq<Run>
    requires |old_| == |now| == |db| && last >= -1
  {
    if last >= |db| then [] else DirectRuns(db, old_, last + 1) + TailRun(db, old_, now, last)
  }

  lemma CutConserves(t: Tree, n: nat, l: nat, last: int, frag: nat, m: (nat, nat) -> nat)
    requires Shaped(t, n, l + 1) && n > 0
    ensures Sum(AllRuns(CutTree(t, n, l, last), l + 1, frag), m) + Sum(CutRuns(t, n, l, last, frag), m)
         == Sum(AllRuns(t, l + 1, frag), m)
  {
    if 0 <= last < Power(n, l + 1) {
      PruneConserves(t, n, l + 1, last, frag, m);
    }
  }

  lemma {:induction false} ForestConserves(trees: seq<Tree>, cut: seq<Tree>, n: nat, nd: nat, last: int, frag: nat,
                                           l: nat, m: (nat, nat) -> nat)
    requires ForestShaped(trees, n) && IsCut(trees, cut, n, nd, last, 0)
    ensures ForestSum(cut, frag, l, m) + Sum(CutLevels(trees, n, nd, last, frag, l), m) == ForestSum(trees, frag, l, m)
    decreases |trees| - l
  {
    hide CutTree, CutRuns, AllRuns;
    if l < |trees| {
      ForestConserves(trees, cut, n, nd, last, frag, l + 1, m);
      ForestStep(trees, cut, n, nd, last, frag, l, m);
    } else {
      SumOne(Run(0, 0), m);
    }
  }

  lemma ForestStep(trees: seq<Tree>, cut: seq<Tree>, n: nat, nd: nat, last: int, frag: nat, l: nat,
                   m: (nat, nat) -> nat)
    requires ForestShaped(trees, n) && IsCut(trees, cut, n, nd, last, 0) && l < |trees|
    requires ForestSum(cut, frag, l + 1, m) + Sum(CutLevels(trees, n, nd, last, frag, l + 1), m)
             == ForestSum(trees, frag, l + 1, m)
    ensures ForestSum(cut, frag, l, m) + Sum(CutLevels(trees, n, nd, last, frag, l), m) == ForestSum(trees, frag, l, m)
  {
    LevelConserves(trees, n, nd, last, frag, l, cut[l], m);
  }

  lemma LevelConserves(trees: seq<Tree>, n: nat, nd: nat, last: int, frag: nat, l: nat, kept: Tree,
                       m: (nat, nat) -> nat)
    requires ForestShaped(trees, n) && l < |trees| && kept == CutTree(trees[l], n, l, last - Base(nd, n, l))
    ensures Sum(AllRuns(kept, l + 1, frag), m)
            + Sum(CutLevels(trees, n, nd, last, frag, l), m)
         == Sum(AllRuns(trees[l], l + 1, frag), m) + Sum(CutLevels(trees, n, nd, last, frag, l + 1), m)
  {
    CutConserves(trees[l], n, l, last - Base(nd, n, l), frag, m);
    SumConcat(CutLevels(trees, n, nd, last, frag, l + 1), CutRuns(trees[l], n, l, last - Base(nd, n, l), frag), m);
  }

  lemma AllDirects(db: seq<nat>, old_: seq<nat>, now: seq<nat>, last: int, m: (nat, nat) -> nat)
    requires Additive(m) && |old_| == |db| && Shrunk(old_, now, last) && last >= -1
    ensures Sum(DirectRuns(ZeroFrom(db, last + 1), now, 0), m) + Sum(DirectsFreed(db, old_, now, last), m)
         == Sum(DirectRuns(db, old_, 0), m)
  {
    var cut := ZeroFrom(db, last + 1);
    SumOfDirects(db, old_, 0, m);
    SumOfDirects(cut, now, 0, m);
    if last >= |db| {
      assert cut == db;
      DirectsSame(db, old_, now, last, 0);
      SumOne(Run(0, 0), m);
    } else {
      FreedSum(db, old_, now, last, m);
      if last < 0 {
        DirectsAfter(db, now, last, 0, m);
      } else {
        DirectsConserve(db, old_, now, last, 0, m);
      }
    }
  }

  lemma FreedSum(db: seq<nat>, old_: seq<nat>, now: seq<nat>, last: int, m: (nat, nat) -> nat)
    requires |old_| == |now| == |db| && -1 <= last < |db|
    ensures Sum(DirectsFreed(db, old_, now, last), m) ==
            DirectSum(db, old_, last + 1, m) + if last < 0 then 0 else TailSum(db[last], old_[last], now[last], m)
  {
    SumConcat(DirectRuns(db, old_, last + 1), TailRun(db, old_, now, last), m);
    SumOfDirects(db, old_, last + 1, m);
    SumOfTail(db, old_, now, last, m);
  }

  /**
   * Truncation loses and duplicates nothing: whatever additive measure is taken of the fragments (how
   * many, or how often a given one occurs), what the file keeps and what is freed add up to what it had.
   */
  lemma TruncateConserves(db: seq<nat>, o: seq<nat>, k: seq<nat>, last: int, trees: seq<Tree>, cut: seq<Tree>, n: nat,
                          nd: nat, frag: nat, m: (nat, nat) -> nat)
    requires Additive(m) && |o| == |db| && Shrunk(o, k, last) && last >= -1
    requires ForestShaped(trees, n) && IsCut(trees, cut, n, nd, last, 0)
    ensures Sum(DirectRuns(ZeroFrom(db, last + 1), k, 0), m) + ForestSum(cut, frag, 0, m)
            + Sum(CutLevels(trees, n, nd, last, frag, 0) + DirectsFreed(db, o, k, last), m)
         == Sum(DirectRuns(db, o, 0), m) + ForestSum(trees, frag, 0, m)
  {
    ForestConserves(trees, cut, n, nd, last, frag, 0, m);
    AllDirects(db, o, k, last, m);
    Together(CutLevels(trees, n, nd, last, frag, 0), DirectsFreed(db, o, k, last),
             ForestSum(cut, frag, 0, m), ForestSum(trees, frag, 0, m),
             Sum(DirectRuns(ZeroFrom(db, last + 1), k, 0), m), Sum(DirectRuns(db, o, 0), m), m);
  }

  /** What shortening the file frees. */
  ghost function Freed(g: Geometry, db: seq<nat>, trees: seq<Tree>, size: nat, length: nat): seq<Run>
    requires g.Valid() && |db| == g.nd && ForestShaped(trees, g.n)
  {
    CutLevels(trees, g.n, g.nd, LastBlock(g, length), g.frag, 0)
    + DirectsFreed(db, FragsOf(g, size), FragsOf(g, length), LastBlock(g, length))
  }

  lemma HeldConserves(g: Geometry, db: seq<nat>, trees: seq<Tree>, cut: seq<Tree>, size: nat, length: nat,
                      m: (nat, nat) -> nat)
    requires g.Valid() && |db| == g.nd && length <= size && Additive(m)
    requires ForestShaped(trees, g.n) && IsCut(trees, cut, g.n, g.nd, LastBlock(g, length), 0)
    ensures Held(g, ZeroFrom(db, LastBlock(g, length) + 1), cut, length, m) + Sum(Freed(g, db, trees, size, length), m)
         == Held(g, db, trees, size, m)
  {
    hide DirectRuns, ForestSum, CutLevels, DirectsFreed, FragsOf, LastBlock, Sum, Additive, Shrunk;
    SizesShrink(g, length, size);
    TruncateConserves(db, FragsOf(g, size), FragsOf(g, length), LastBlock(g, length), trees, cut, g.n, g.nd, g.frag, m);
  }

  /** Every fragment is held or freed exactly as often as it was held. */
  lemma CoverConserves(g: Geometry, db: seq<nat>, trees: seq<Tree>, cut: seq<Tree>, size: nat, length: nat)
    requires g.Valid() && |db| == g.nd && length <= size
    requires ForestShaped(trees, g.n) && IsCut(trees, cut, g.n, g.nd, LastBlock(g, length), 0)
    ensures forall a :: Held(g, ZeroFrom(db, LastBlock(g, length) + 1), cut, length, CoverOf(a))
                      + Sum(Freed(g, db, trees, size, length), CoverOf(a)) == Held(g, db, trees, size, CoverOf(a))
  {
    forall a
      ensures Held(g, ZeroFrom(db, LastBlock(g, length) + 1), cut, length, CoverOf(a))
            + Sum(Freed(g, db, trees, size, length), CoverOf(a)) == Held(g, db, trees, size, CoverOf(a))
    {
      CoverAdditive(a);
      HeldConserves(g, db, trees, cut, size, length, CoverOf(a));
    }
  }

  lemma Together(a: seq<Run>, b: seq<Run>, a1: nat, a0: nat, b1: nat, b0: nat, m: (nat, nat) -> nat)
    requires a1 + Sum(a, m) == a0 && b1 + Sum(b, m) == b0
    ensures b1 + a1 + Sum(a + b, m) == b0 + a0
  {
    SumConcat(a, b, m);
  }

  /**
   * The shorter file maps exactly what it should: at every height of every tree, a pointer is kept if
   * its range starts at or before the last block, and is zero otherwise.
   */
  lemma TruncateMaps(trees: seq<Tree>, cut: seq<Tree>, n: nat, nd: nat, last: int, l: nat, k: nat, x: nat)
    requires ForestShaped(trees, n) && IsCut(trees, cut, n, nd, last, 0)
    requires l < |trees| && k <= l + 1 && x < Power(n, l + 1)
    ensures At(cut[l], n, l + 1, k, x) ==
            if Base(nd, n, l) + Start(x, n, l + 1, k) <= last then At(trees[l], n, l + 1, k, x) else 0
  {
    var rest := last - Base(nd, n, l);
    StartBefore(x, n, l + 1, k);
    if rest < 0 {
      HoleAt(n, l + 1, k, x);
    } else if rest < Power(n, l + 1) {
      PruneAt(trees[l], n, l + 1, rest, k, x);
    }
  }

  lemma {:induction false} NoDirects(db: seq<nat>, frags: seq<nat>, lo: nat)
    requires |frags| == |db| && forall i :: 0 <= i < |db| ==> db[i] == 0
    ensures DirectRuns(db, frags, lo) == []
    decreases |db| - lo
  {
    if lo < |db| {
      NoDirects(db, frags, lo + 1);
    }
  }

  lemma NothingHeld(g: Geometry, db: seq<nat>)
    requires g.Valid() && |db| == g.nd && forall i :: 0 <= i < |db| ==> db[i] == 0
    ensures Held(g, db, [Hole, Hole, Hole], 0, LengthOf) == 0
  {
    NoDirects(db, FragsOf(g, 0), 0);
    var trees := [Hole, Hole, Hole];
    SumOne(Run(0, 0), LengthOf);
    assert ForestSum(trees, g.frag, 3, LengthOf) == 0;
    assert ForestSum(trees, g.frag, 2, LengthOf) == 0;
    assert ForestSum(trees, g.frag, 1, LengthOf) == 0;
  }

  /** An inode's blocks, the indirect blocks on disk, and the space the inode is charged for. */
  class File {
    const g: Geometry
    var db: seq<nat>
    var ib: seq<nat>
    var size: nat
    var blocks: nat
    var mem: Memory
    ghost var trees: seq<Tree>

    ghost predicate Valid()
      reads this
    {
      && g.Valid() && |db| == g.nd && |trees| == 3 && ib == Ptrs(trees)
      && ForestReady(mem, trees, g.n)
      && blocks == Held(g, db, trees, size, LengthOf)
    }

    /** A file without blocks. */
    constructor (g: Geometry)
      requires g.Valid()
      ensures Valid() && this.g == g && size == 0
    {
      this.g := g;
      db, ib, size, blocks, mem := seq(g.nd, i => 0), [0, 0, 0], 0, 0, map[];
      trees := [Hole, Hole, Hole];
      new;
      assert ib == Ptrs(trees);
      NothingHeld(g, db);
    }

    /**
     * The shrinking part of ffs_truncate.  The inode is written with its new pointers first; the old
     * ones are put back to be processed, and at the end the two configurations agree.
     */
    method Truncate(length: nat) returns (freed: seq<Run>)
      requires Valid() && length <= size && Reachable(LastBlock(g, length), g.n, g.nd)
      modifies this
      ensures Valid()
      ensures IsCut(old(trees), trees, g.n, g.nd, LastBlock(g, length), 0)
      ensures db == ZeroFrom(old(db), LastBlock(g, length) + 1) && size == length
      ensures freed == Freed(g, old(db), old(trees), old(size), length)
      ensures blocks == old(blocks) - Sum(freed, LengthOf)
      ensures forall a :: Held(g, db, trees, size, CoverOf(a)) + Sum(freed, CoverOf(a))
                       == old(Held(g, db, trees, size, CoverOf(a)))
    {
      hide IsCut, ForestReady, CutLevels, FragsOf;
      var m, i, d, b;
      ghost var cut;
      SizesShrink(g, length, size);
      m, i, d, freed, b, cut := TruncPointers(mem, ib, db, FragsOf(g, size), FragsOf(g, length), LastBlock(g, length),
                                              blocks, g.n, g.frag, trees);
      ReadyShaped(mem, trees, g.n);
      CoverConserves(g, db, trees, cut, size, length);
      CutCount(trees, cut, g.n, g.nd, LastBlock(g, length));
      mem, ib, db, blocks, size, trees := m, i, d, b, length, cut;
    }
  }

  lemma ReadyShaped(mem: Memory, trees: seq<Tree>, n: nat)
    requires ForestReady(mem, trees, n)
    ensures ForestShaped(trees, n)
  {
  }

  lemma CutCount(trees: seq<Tree>, cut: seq<Tree>, n: nat, nd: nat, last: int)
    requires ForestShaped(trees, n) && IsCut(trees, cut, n, nd, last, 0)
    ensures |cut| == |trees|
  {
  }

  function Minus(a: nat, b: nat): nat { if a >= b then a - b else 0 }

  /** The pointers that the inode is written with. */
  function NewIndirs(ib: seq<nat>, n: nat, nd: nat, last: int): (r: seq<nat>)
    ensures |r| == |ib| && forall l :: 0 <= l < |ib| ==> r[l] == if last < Base(nd, n, l) then 0 else ib[l]
  {
    seq(|ib|, l requires 0 <= l < |ib| => if last < Base(nd, n, l) then 0 else ib[l])
  }

  method TruncPointers(mem: Memory, ib: seq<nat>, db: seq<nat>, o: seq<nat>, k: seq<nat>, lastblock: int, blocks: nat,
                       n: nat, frag: nat, ghost trees: seq<Tree>)
    returns (mem': Memory, ib': seq<nat>, db': seq<nat>, freed: seq<Run>, blocks': nat, ghost cut: seq<Tree>)
    requires |o| == |db| > 0 && |db| % 4 == 0 && n % 4 == 0 && |trees| == 3 && ib == Ptrs(trees)
             && ForestReady(mem, trees, n)
    requires Shrunk(o, k, lastblock) && Reachable(lastblock, n, |db|)
    requires blocks == Sum(DirectRuns(db, o, 0), LengthOf) + ForestSum(trees, frag, 0, LengthOf)
    ensures ib' == Ptrs(cut) && ForestReady(mem', cut, n) && IsCut(trees, cut, n, |db|, lastblock, 0)
    ensures db' == ZeroFrom(db, lastblock + 1)
    ensures freed == CutLevels(trees, n, |db|, lastblock, frag, 0) + DirectsFreed(db, o, k, lastblock)
    ensures blocks' == Sum(DirectRuns(db', k, 0), LengthOf) + ForestSum(cut, frag, 0, LengthOf)
    ensures blocks' == blocks - Sum(freed, LengthOf)
  {
    hide Sum, ForestSum, CutLevels, DirectsFreed, DirectRuns, Base, Power, Shrunk, Additive;
    var newdb, newib := ZeroFrom(db, lastblock + 1), NewIndirs(ib, n, |db|, lastblock);
    var released, stop, more, c;
    mem', ib', freed, released, stop, cut := TruncIndirs(mem, ib, n, |db|, lastblock, frag, trees);
    NewPointers(trees, cut, n, |db|, lastblock);
    CutReady(mem, mem', trees, cut, n, |db|, lastblock);
    assert ib' == newib; // panic: ffs_truncate1
    db', more, c := TruncDirects(db, o, k, lastblock, stop);
    assert db' == newdb; // panic: ffs_truncate2
    SumConcat(freed, more, LengthOf);
    LengthAdditive();
    TruncateConserves(db, o, k, lastblock, trees, cut, n, |db|, frag, LengthOf);
    freed, released := freed + more, released + c;
    blocks' := Minus(blocks, released);
  }

  lemma NewPointers(trees: seq<Tree>, cut: seq<Tree>, n: nat, nd: nat, last: int)
    requires ForestShaped(trees, n) && |trees| == 3 && IsCut(trees, cut, n, nd, last, 0)
    ensures forall l :: 0 <= l < 3 ==> Ptr(cut[l]) == if last < Base(nd, n, l) then 0 else Ptr(trees[l])
  {
    forall l | 0 <= l < 3
      ensures Ptr(cut[l]) == if last < Base(nd, n, l) then 0 else Ptr(trees[l])
    {
      var rest := last - Base(nd, n, l);
      if 0 <= rest < Power(n, l + 1) {
        PrunePtr(trees[l], n, l + 1, rest);
      }
    }
  }

  /** The direct blocks: free those past the last block, then the spare fragments of the last one. */
  method TruncDirects(db: seq<nat>, old_: seq<nat>, now: seq<nat>, lastblock: int, stop: bool)
    returns (db': seq<nat>, freed: seq<Run>, count: nat)
    requires |old_| == |db| && Shrunk(old_, now, lastblock) && lastblock >= -1 && (stop <==> lastblock >= |db|)
    ensures db' == ZeroFrom(db, lastblock + 1)
    ensures freed == DirectsFreed(db, old_, now, lastblock) && count == Sum(freed, LengthOf)
  {
    hide Sum, DirectRuns;
    db', freed, count := db, [], 0;
    EmptySum();
    if stop {
      return;
    }
    db', freed, count := FreeDirects(db, old_, lastblock);
    if lastblock >= 0 && db[lastblock] != 0 {
      var oldspace, newspace := old_[lastblock], now[lastblock];
      assert newspace != 0; // panic: newspace
      if oldspace - newspace > 0 {
        var r := Run(db[lastblock] + newspace, oldspace - newspace);
        SumConcat(freed, [r], LengthOf);
        SumOne(r, LengthOf);
        freed, count := freed + [r], count + (oldspace - newspace);
      }
    }
  }

  lemma EmptySum()
    ensures Sum([], LengthOf) == 0
  {
  }

  /** The loop over the direct blocks past the last one, from the end. */
  method FreeDirects(db: seq<nat>, frags: seq<nat>, lastblock: int) returns (db': seq<nat>, freed: seq<Run>, count: nat)
    requires |frags| == |db| && -1 <= lastblock < |db|
    ensures db' == ZeroFrom(db, lastblock + 1)
    ensures freed == DirectRuns(db, frags, lastblock + 1) && count == Sum(freed, LengthOf)
  {
    db', freed, count := db, [], 0;
    var i := |db| - 1;
    while i > lastblock
      invariant lastblock <= i < |db| && |db'| == |db|
      invariant db' == ZeroFrom(db, i + 1)
      invariant freed == DirectRuns(db, frags, i + 1) && count == Sum(freed, LengthOf)
    {
      DirectStep(db, frags, i, LengthOf);
      if db[i] != 0 {
        freed, count := freed + [Run(db[i], frags[i])], count + frags[i];
      }
      db' := db'[i := 0];
      i := i - 1;
    }
  }
}
