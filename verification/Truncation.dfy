// Shortening a file: ffs_indirtrunc frees what an indirect block leads to past the new end, and
// ffs_truncate does so for the three indirect blocks and the direct blocks of an inode.
module Truncation {
  import opened BlockTree

  /** The contents of the indirect blocks on disk. */
  type Memory = map<nat, seq<nat>>

  function Ptrs(kids: seq<Tree>): (r: seq<nat>)
    ensures |r| == |kids| && forall i :: 0 <= i < |r| ==> r[i] == Ptr(kids[i])
  {
    seq(|kids|, i requires 0 <= i < |kids| => Ptr(kids[i]))
  }

  /** The indirect blocks of the tree are on disk as the tree has them. */
  ghost predicate InMem(mem: Memory, t: Tree) {
    t.Node? ==>
      && t.blk in mem && mem[t.blk] == Ptrs(t.kids)
      && forall i :: 0 <= i < |t.kids| ==> InMem(mem, t.kids[i])
  }

  /** b is an indirect block of the tree. */
  ghost predicate Uses(t: Tree, b: nat) {
    t.Node? && (b == t.blk || exists i :: 0 <= i < |t.kids| && Uses(t.kids[i], b))
  }

  /** No indirect block occurs twice in the tree. */
  ghost predicate Distinct(t: Tree) {
    t.Node? ==>
      && (forall i :: 0 <= i < |t.kids| ==> Distinct(t.kids[i]) && !Uses(t.kids[i], t.blk))
      && (forall i, j, b :: 0 <= i < j < |t.kids| && Uses(t.kids[i], b) ==> !Uses(t.kids[j], b))
  }

  /** The two memories differ at most in indirect blocks of the tree. */
  ghost predicate OnlyIn(mem: Memory, mem': Memory, t: Tree) {
    forall b :: !Uses(t, b) ==> (b in mem <==> b in mem') && (b in mem ==> mem[b] == mem'[b])
  }

  /** The two memories agree on the indirect blocks of the tree. */
  ghost predicate Agree(mem: Memory, mem': Memory, t: Tree) {
    forall b :: Uses(t, b) && b in mem ==> b in mem' && mem[b] == mem'[b]
  }

  lemma {:induction false} Frame(mem: Memory, mem': Memory, t: Tree)
    requires InMem(mem, t) && Agree(mem, mem', t)
    ensures InMem(mem', t)
  {
    if t.Node? {
      assert Uses(t, t.blk);
      forall i | 0 <= i < |t.kids|
        ensures InMem(mem', t.kids[i])
      {
        assert forall b :: Uses(t.kids[i], b) ==> Uses(t, b);
        Frame(mem, mem', t.kids[i]);
      }
    }
  }

  /** lbn_level: the level of an indirect block from its negative logical number. */
  function LbnLevel(lbn: int): int {
    if lbn >= 0 then 0
    else match lbn % 4
      case 0 => 0
      case 2 => 2
      case 3 => 1
      case _ => -1
  }

  /** The number of the level-th indirect block whose first data block is base. */
  function LbnOf(base: nat, level: nat): int { 0 - base - level }

  lemma LevelDecodes(base: nat, level: nat)
    requires base > 0 && base % 4 == 0 && level <= 2
    ensures LbnLevel(LbnOf(base, level)) == level
  {
  }

  function LengthOf(start: nat, frags: nat): nat { frags }

  /** Zero the pointers from lo on. */
  function ZeroFrom(s: seq<nat>, lo: nat): (r: seq<nat>)
    ensures |r| == |s| && forall i :: 0 <= i < |s| ==> r[i] == if i < lo then s[i] else 0
  {
    seq(|s|, i requires 0 <= i < |s| => if i < lo then s[i] else 0)
  }

  lemma PrunePtr(t: Tree, n: nat, height: nat, last: nat)
    requires Shaped(t, n, height) && n > 0 && last < Power(n, height)
    ensures Ptr(Prune(t, n, height, last)) == Ptr(t)
  {
  }

  lemma Multiple(n: nat, k: nat)
    requires n % 4 == 0
    ensures (n * k) % 4 == 0
  {
    assert n * k == 4 * ((n / 4) * k);
  }

  /** How many data blocks i pointers cover. */
  function Span(i: int, f: nat): int { i * f }

  lemma Reordered(i: nat, n: nat, p: nat)
    ensures Span(i, n * p) == n * (p * i) >= 0
  {
  }

  lemma OneBack(i: int, f: nat)
    ensures Span(i - 1, f) == Span(i, f) - f
  {
  }

  /** The number of a child decodes to the next level down. */
  lemma ChildLbn(lbn: int, base: nat, level: nat, n: nat, i: nat) returns (kidBase: nat)
    requires lbn == LbnOf(base, level) && level > 0 && base % 4 == 0 && n % 4 == 0
    ensures kidBase % 4 == 0 && kidBase >= base
    ensures lbn + 1 - Span(i, Power(n, level)) == LbnOf(kidBase, level - 1)
  {
    var p := Power(n, level - 1);
    Reordered(i, n, p);
    Multiple(n, p * i);
    kidBase := base + n * (p * i);
  }

  /** The indirect block and all below it are as the tree says, and the numbers fit. */
  ghost predicate Ready(mem: Memory, t: Tree, n: nat, level: nat, lbn: int, base: nat) {
    && n > 0 && n % 4 == 0 && level <= 2
    && t.Node? && Shaped(t, n, level + 1) && InMem(mem, t) && Distinct(t)
    && base > 0 && base % 4 == 0 && lbn == LbnOf(base, level)
  }

  /** The pointers of an indirect block, each with what it leads to. */
  ghost predicate KidsReady(mem: Memory, kids: seq<Tree>, n: nat, level: nat, lbn: int, base: nat) {
    && n > 0 && n % 4 == 0 && level <= 2 && |kids| == n
    && (forall i :: 0 <= i < n ==> Shaped(kids[i], n, level) && InMem(mem, kids[i]) && Distinct(kids[i]))
    && base > 0 && base % 4 == 0 && lbn == LbnOf(base, level)
  }

  /**
   * ffs_indirtrunc: with lastbn -1 free all that the block at dbn leads to, and otherwise all past
   * data block lastbn of its range, cutting the pointers on disk.
   */
  method IndirTrunc(mem: Memory, lbn: int, dbn: nat, lastbn: int, level: nat, n: nat, frag: nat,
                    ghost base: nat, ghost t: Tree)
    returns (mem': Memory, freed: seq<Run>, count: nat)
    requires Ready(mem, t, n, level, lbn, base) && t.blk == dbn && -1 <= lastbn < Power(n, level + 1)
    ensures lastbn == -1 ==> mem' == mem && freed == RunsFrom(t.kids, level, 0, frag)
    ensures lastbn >= 0 ==> freed == PrunedRuns(t, n, level + 1, lastbn, frag)
    ensures lastbn >= 0 ==> InMem(mem', Prune(t, n, level + 1, lastbn)) && OnlyIn(mem, mem', t)
    ensures count == Sum(freed, LengthOf)
    decreases level, 3
  {
    hide Distinct, Sum, PrunedRuns, Uses, Prune, Power, LbnOf, LbnLevel, AllRuns;
    LevelDecodes(base, level);
    assert LbnLevel(lbn) == level;
    var factor := LbnOffset(n, level);
    if lastbn == -1 {
      mem' := mem;
      KidsAre(mem, mem, t, n, level, lbn, base);
      var nlbn;
      freed, count, nlbn := FreeKids(mem, lbn, mem[dbn], -1, factor, level, n, frag, base, t.kids);
    } else {
      PruneNode(t, n, level, lastbn, frag);
      ZeroPart(factor);
      mem', freed, count := CutBlock(mem, lbn, dbn, if lastbn > 0 then lastbn / factor else lastbn, lastbn % factor,
                                     factor, level, n, frag, base, t);
    }
  }

  lemma ZeroPart(f: nat)
    requires f > 0
    ensures 0 / f == 0
  {
  }

  /** Pruning an indirect block: which pointer is the last one kept, and what is freed. */
  lemma PruneNode(t: Tree, n: nat, level: nat, last: nat, frag: nat)
    requires n > 0 && t.Node? && Shaped(t, n, level + 1) && last < Power(n, level + 1)
    ensures var f := Power(n, level); var q := last / f; var r := last % f;
            && f > 0 && 0 <= q < n && 0 <= r < f
            && Prune(t, n, level + 1, last)
               == Node(t.blk, t.kids[..q] + [Prune(t.kids[q], n, level, r)] + Blank(n - q - 1))
            && PrunedRuns(t, n, level + 1, last, frag) ==
               RunsFrom(t.kids, level, q + 1, frag) + PrunedRuns(t.kids[q], n, level, r, frag)
  {
    Split(last, n, level + 1);
  }

  /** The case of a block that is kept: cut its pointers after q, and what pointer q leads to after r. */
  method CutBlock(mem: Memory, lbn: int, dbn: nat, q: nat, r: nat, factor: nat, level: nat, n: nat, frag: nat,
                  ghost base: nat, ghost t: Tree)
    returns (mem': Memory, freed: seq<Run>, count: nat)
    requires Ready(mem, t, n, level, lbn, base) && t.blk == dbn && q < n && r < Power(n, level) == factor
    ensures freed == RunsFrom(t.kids, level, q + 1, frag) + PrunedRuns(t.kids[q], n, level, r, frag)
    ensures InMem(mem', Node(t.blk, t.kids[..q] + [Prune(t.kids[q], n, level, r)] + Blank(n - q - 1)))
    ensures OnlyIn(mem, mem', t)
    ensures count == Sum(freed, LengthOf)
    decreases level, 2
  {
    var bap := mem[dbn];
    var mem1 := mem[dbn := ZeroFrom(bap, q + 1)];
    KidsAre(mem, mem1, t, n, level, lbn, base);
    var nlbn, more, c;
    freed, count, nlbn := FreeKids(mem1, lbn, bap, q, factor, level, n, frag, base, t.kids);
    mem', more, c := CutKid(mem1, nlbn, bap[q], r, level, n, frag, t.kids[q], lbn, base, q);
    SumConcat(freed, more, LengthOf);
    freed, count := freed + more, count + c;
    CutNode(mem, mem1, mem', t, n, level, q, r);
  }

  lemma KidsAre(mem: Memory, mem': Memory, t: Tree, n: nat, level: nat, lbn: int, base: nat)
    requires Ready(mem, t, n, level, lbn, base)
    requires forall b :: b in mem && b != t.blk ==> b in mem' && mem'[b] == mem[b]
    ensures KidsReady(mem', t.kids, n, level, lbn, base)
  {
    forall i | 0 <= i < n
      ensures InMem(mem', t.kids[i])
    {
      Frame(mem, mem', t.kids[i]);
    }
  }

  /** The loop that frees the pointers after last, the last one first. */
  method FreeKids(mem: Memory, lbn: int, bap: seq<nat>, last: int, factor: nat, level: nat, n: nat, frag: nat,
                  ghost base: nat, ghost kids: seq<Tree>)
    returns (freed: seq<Run>, count: nat, nlbn: int)
    requires KidsReady(mem, kids, n, level, lbn, base) && bap == Ptrs(kids) && -1 <= last < n
             && factor == Power(n, level)
    ensures freed == RunsFrom(kids, level, last + 1, frag)
    ensures count == Sum(freed, LengthOf)
    ensures nlbn == lbn + 1 - Span(last, factor)
    decreases level, 1
  {
    hide Span, Power, RunsFrom, AllRuns, Sum, Shaped, InMem, Distinct, LbnOf;
    var i := n - 1;
    nlbn := lbn + 1 - Span(i, factor);
    freed, count := [], 0;
    NoRuns(kids, level, n, frag);
    while i > last
      invariant last <= i < n && nlbn == lbn + 1 - Span(i, factor)
      invariant freed == RunsFrom(kids, level, i + 1, frag) && count == Sum(freed, LengthOf)
    {
      var nb := bap[i];
      NextRuns(mem, kids, n, level, lbn, base, i, frag);
      if nb != 0 {
        var more, c := FreeKid(mem, nlbn, nb, level, n, frag, kids[i], lbn, base, i);
        SumConcat(freed, more, LengthOf);
        freed, count := freed + more, count + c;
      }
      OneBack(i, factor);
      nlbn := nlbn + factor;
      i := i - 1;
    }
  }

  lemma NoRuns(kids: seq<Tree>, level: nat, lo: nat, frag: nat)
    ensures lo >= |kids| ==> RunsFrom(kids, level, lo, frag) == []
    ensures Sum([], LengthOf) == 0
  {
  }

  /** One pointer is what FreeKid wants, and its runs come after those of the pointers behind it. */
  lemma NextRuns(mem: Memory, kids: seq<Tree>, n: nat, level: nat, lbn: int, base: nat, i: nat, frag: nat)
    requires KidsReady(mem, kids, n, level, lbn, base) && i < n
    ensures Shaped(kids[i], n, level) && InMem(mem, kids[i]) && Distinct(kids[i])
    ensures RunsFrom(kids, level, i, frag)
            == RunsFrom(kids, level, i + 1, frag) + if Ptr(kids[i]) == 0 then [] else AllRuns(kids[i], level, frag)
  {
  }

  /** One pointer: what it leads to, then the block itself. */
  method FreeKid(mem: Memory, nlbn: int, nb: nat, level: nat, n: nat, frag: nat, ghost kid: Tree,
                 ghost lbn: int, ghost base: nat, ghost i: nat)
    returns (freed: seq<Run>, count: nat)
    requires n > 0 && n % 4 == 0 && level <= 2 && base > 0 && base % 4 == 0 && lbn == LbnOf(base, level)
    requires Shaped(kid, n, level) && InMem(mem, kid) && Distinct(kid) && nb == Ptr(kid) != 0
    requires nlbn == lbn + 1 - Span(i, Power(n, level))
    ensures freed == AllRuns(kid, level, frag) && count == Sum(freed, LengthOf)
    decreases level, 0
  {
    hide RunsFrom;
    freed, count := [], 0;
    if level > 0 {
      ghost var kidBase := ChildLbn(lbn, base, level, n, i);
      var same;
      same, freed, count := IndirTrunc(mem, nlbn, nb, -1, level - 1, n, frag, kidBase, kid);
    }
    SumConcat(freed, [Run(nb, frag)], LengthOf);
    assert Sum([Run(nb, frag)], LengthOf) == Sum([], LengthOf) + frag;
    freed, count := freed + [Run(nb, frag)], count + frag;
  }

  /** The last pointer that is kept: cut what it leads to. */
  method CutKid(mem: Memory, nlbn: int, nb: nat, last: nat, level: nat, n: nat, frag: nat, ghost kid: Tree,
                ghost lbn: int, ghost base: nat, ghost i: nat)
    returns (mem': Memory, freed: seq<Run>, count: nat)
    requires n > 0 && n % 4 == 0 && level <= 2 && base > 0 && base % 4 == 0 && lbn == LbnOf(base, level)
    requires Shaped(kid, n, level) && InMem(mem, kid) && Distinct(kid) && nb == Ptr(kid) && last < Power(n, level)
    requires nlbn == lbn + 1 - Span(i, Power(n, level))
    ensures freed == PrunedRuns(kid, n, level, last, frag) && count == Sum(freed, LengthOf)
    ensures InMem(mem', Prune(kid, n, level, last)) && OnlyIn(mem, mem', kid)
    decreases level, 0
  {
    mem', freed, count := mem, [], 0;
    if level > 0 && nb != 0 {
      ghost var kidBase := ChildLbn(lbn, base, level, n, i);
      mem', freed, count := IndirTrunc(mem, nlbn, nb, last, level - 1, n, frag, kidBase, kid);
    }
  }

  /** The cut block and its cut last pointer make up the pruned tree. */
  lemma CutNode(mem: Memory, mem1: Memory, mem2: Memory, t: Tree, n: nat, level: nat, q: nat, r: nat)
    requires n > 0 && t.Node? && Shaped(t, n, level + 1) && InMem(mem, t) && Distinct(t)
    requires q < n && r < Power(n, level)
    requires mem1 == mem[t.blk := ZeroFrom(mem[t.blk], q + 1)]
    requires OnlyIn(mem1, mem2, t.kids[q]) && InMem(mem2, Prune(t.kids[q], n, level, r))
    ensures OnlyIn(mem, mem2, t)
    ensures InMem(mem2, Node(t.blk, t.kids[..q] + [Prune(t.kids[q], n, level, r)] + Blank(n - q - 1)))
  {
    var kid := Prune(t.kids[q], n, level, r);
    var kids := t.kids[..q] + [kid] + Blank(n - q - 1);
    PrunePtr(t.kids[q], n, level, r);
    assert mem2[t.blk] == mem1[t.blk];
    assert Ptrs(kids) == ZeroFrom(Ptrs(t.kids), q + 1);
    forall i | 0 <= i < n
      ensures InMem(mem2, kids[i])
    {
      if i < q {
        Frame(mem, mem2, t.kids[i]);
      }
    }
    assert forall b :: Uses(t.kids[q], b) ==> Uses(t, b);
  }

  // ---- the three indirect blocks of an inode

  /** The first data block that indirect block l of the inode leads to. */
  function Base(nd: nat, n: nat, l: nat): nat { if l == 0 then nd else Base(nd, n, l - 1) + Power(n, l) }

  /** The tree that is kept when last is the last data block to keep, counted from the tree's first. */
  function CutTree(t: Tree, n: nat, l: nat, last: int): (r: Tree)
    requires Shaped(t, n, l + 1) && n > 0
    ensures Shaped(r, n, l + 1)
  {
    if last < 0 then Hole else if last < Power(n, l + 1) then Prune(t, n, l + 1, last) else t
  }

  function CutRuns(t: Tree, n: nat, l: nat, last: int, frag: nat): seq<Run>
    requires Shaped(t, n, l + 1) && n > 0
  {
    if last < 0 then AllRuns(t, l + 1, frag) else if last < Power(n, l + 1) then PrunedRuns(t, n, l + 1, last, frag)
        else []
  }

  ghost predicate ForestShaped(trees: seq<Tree>, n: nat) {
    n > 0 && forall l :: 0 <= l < |trees| ==> Shaped(trees[l], n, l + 1)
  }

  /** What is freed of the trees from l on, the highest tree first. */
  ghost function CutLevels(trees: seq<Tree>, n: nat, nd: nat, lastblock: int, frag: nat, l: nat): seq<Run>
    requires ForestShaped(trees, n)
    decreases |trees| - l
  {
    if l >= |trees| then []
    else CutLevels(trees, n, nd, lastblock, frag, l + 1) + CutRuns(trees[l], n, l, lastblock - Base(nd, n, l), frag)
  }

  /** The trees that are kept from l on. */
  ghost predicate IsCut(trees: seq<Tree>, cut: seq<Tree>, n: nat, nd: nat, lastblock: int, l: nat)
    requires ForestShaped(trees, n)
  {
    && |cut| == |trees|
    && (forall k :: l <= k < |trees| ==> cut[k] == CutTree(trees[k], n, k, lastblock - Base(nd, n, k)))
    && (forall k :: 0 <= k < l && k < |trees| ==> cut[k] == trees[k])
  }

  /** Indirect blocks are as the trees say and occur once. */
  ghost predicate ForestReady(mem: Memory, trees: seq<Tree>, n: nat) {
    && ForestShaped(trees, n)
    && (forall l :: 0 <= l < |trees| ==> InMem(mem, trees[l]) && Distinct(trees[l]))
    && (forall k, l, b :: 0 <= k < l < |trees| && Uses(trees[k], b) ==> !Uses(trees[l], b))
  }

  lemma {:induction false} LowerKept(trees: seq<Tree>, n: nat, nd: nat, lastblock: int, frag: nat, l: nat, k: nat)
    requires ForestShaped(trees, n) && k <= l < |trees| && lastblock >= Base(nd, n, l)
    ensures CutLevels(trees, n, nd, lastblock, frag, k) == CutLevels(trees, n, nd, lastblock, frag, l)
    decreases l - k
  {
    hide CutLevels, Power, Base;
    if k < l {
      LowerKept(trees, n, nd, lastblock, frag, l, k + 1);
      BasePast(nd, n, lastblock, k, l);
      NothingCut(trees, n, nd, lastblock, frag, k);
    }
  }

  /** A block that a higher tree leads to is past all that a lower one can lead to. */
  lemma BasePast(nd: nat, n: nat, lastblock: int, k: nat, l: nat)
    requires k < l && lastblock >= Base(nd, n, l)
    ensures lastblock - Base(nd, n, k) >= Power(n, k + 1)
  {
    BaseRises(nd, n, k + 1, l);
  }

  lemma NothingCut(trees: seq<Tree>, n: nat, nd: nat, lastblock: int, frag: nat, k: nat)
    requires ForestShaped(trees, n) && k < |trees| && lastblock - Base(nd, n, k) >= Power(n, k + 1)
    ensures CutLevels(trees, n, nd, lastblock, frag, k) == CutLevels(trees, n, nd, lastblock, frag, k + 1)
  {
    hide Base;
  }

  lemma {:induction false} BaseRises(nd: nat, n: nat, k: nat, l: nat)
    requires k <= l
    ensures Base(nd, n, k) <= Base(nd, n, l)
    decreases l
  {
    if k < l {
      BaseRises(nd, n, k, l - 1);
    }
  }

  lemma {:induction false} BaseAligned(nd: nat, n: nat, l: nat)
    requires nd % 4 == 0 && n % 4 == 0
    ensures Base(nd, n, l) % 4 == 0 && Base(nd, n, l) >= nd
  {
    if l > 0 {
      BaseAligned(nd, n, l - 1);
      Multiple(n, Power(n, l - 1));
      SumAligned(Base(nd, n, l - 1), Power(n, l));
    }
  }

  lemma SumAligned(a: nat, b: nat)
    requires a % 4 == 0 && b % 4 == 0
    ensures (a + b) % 4 == 0
  {
  }

  /** One indirect block of the inode: cut it or free it with all it leads to. */
  method TruncLevel(mem: Memory, bn: nat, lbn: int, last: int, l: nat, n: nat, frag: nat, ghost base: nat,
                    ghost t: Tree)
    returns (mem': Memory, bn': nat, freed: seq<Run>, count: nat)
    requires n > 0 && n % 4 == 0 && l <= 2 && base > 0 && base % 4 == 0 && lbn == LbnOf(base, l)
    requires Shaped(t, n, l + 1) && InMem(mem, t) && Distinct(t) && bn == Ptr(t) && -1 <= last < Power(n, l + 1)
    ensures freed == CutRuns(t, n, l, last, frag) && count == Sum(freed, LengthOf)
    ensures bn' == Ptr(CutTree(t, n, l, last)) && InMem(mem', CutTree(t, n, l, last)) && OnlyIn(mem, mem', t)
    ensures last < 0 ==> mem' == mem
  {
    hide Power;
    mem', bn', freed, count := mem, bn, [], 0;
    if bn != 0 {
      mem', freed, count := IndirTrunc(mem, lbn, bn, last, l, n, frag, base, t);
      if last < 0 {
        bn' := 0;
        SumConcat(freed, [Run(bn, frag)], LengthOf);
        assert Sum([Run(bn, frag)], LengthOf) == Sum([], LengthOf) + frag;
        freed, count := freed + [Run(bn, frag)], count + frag;
      } else {
        PrunePtr(t, n, l + 1, last);
      }
    }
  }

  /** The block is not past what three levels of indirect blocks reach. */
  predicate Reachable(lastblock: int, n: nat, nd: nat) { -1 <= lastblock < Base(nd, n, 2) + Power(n, 3) }

  /** Every tree above this one is past the end of the file. */
  predicate AbovePast(lastblock: int, n: nat, nd: nat, level: nat) {
    if level >= 3 then Reachable(lastblock, n, nd) else lastblock < Base(nd, n, level)
  }

  lemma LevelFits(n: nat, nd: nat, lastblock: int, level: nat)
    requires level < 3 && AbovePast(lastblock, n, nd, level + 1)
    ensures lastblock - Base(nd, n, level) < Power(n, level + 1)
  {
  }

  method OneLevel(mem: Memory, bn: nat, lastblock: int, level: nat, n: nat, nd: nat, frag: nat, ghost t: Tree)
    returns (mem': Memory, bn': nat, freed: seq<Run>, count: nat, stop: bool)
    requires n > 0 && n % 4 == 0 && nd % 4 == 0 && nd > 0 && level < 3 && AbovePast(lastblock, n, nd, level + 1)
    requires Shaped(t, n, level + 1) && InMem(mem, t) && Distinct(t) && bn == Ptr(t)
    ensures freed == CutRuns(t, n, level, lastblock - Base(nd, n, level), frag) && count == Sum(freed, LengthOf)
    ensures bn' == Ptr(CutTree(t, n, level, lastblock - Base(nd, n, level)))
    ensures InMem(mem', CutTree(t, n, level, lastblock - Base(nd, n, level))) && OnlyIn(mem, mem', t)
    ensures stop <==> lastblock >= Base(nd, n, level)
    ensures !stop ==> mem' == mem && AbovePast(lastblock, n, nd, level)
  {
    var last := lastblock - Base(nd, n, level);
    LevelFits(n, nd, lastblock, level);
    BaseAligned(nd, n, level);
    mem', bn', freed, count := TruncLevel(mem, bn, LbnOf(Base(nd, n, level), level), if last < 0 then -1 else last,
                                          level, n, frag, Base(nd, n, level), t);
    stop := last >= 0;
  }

  /** The loop over the indirect blocks of the inode, highest level first, until one of them is kept. */
  method TruncIndirs(mem: Memory, ib: seq<nat>, n: nat, nd: nat, lastblock: int, frag: nat, ghost trees: seq<Tree>)
    returns (mem': Memory, ib': seq<nat>, freed: seq<Run>, count: nat, stop: bool, ghost cut: seq<Tree>)
    requires n % 4 == 0 && nd % 4 == 0 && nd > 0 && |trees| == 3 && ForestReady(mem, trees, n) && ib == Ptrs(trees)
    requires Reachable(lastblock, n, nd)
    ensures IsCut(trees, cut, n, nd, lastblock, 0) && ib' == Ptrs(cut)
    ensures freed == CutLevels(trees, n, nd, lastblock, frag, 0) && count == Sum(freed, LengthOf)
    ensures ForestInMem(mem', cut)
    ensures stop <==> lastblock >= nd
  {
    hide Reachable;
    mem', ib', freed, count, stop, cut := mem, ib, [], 0, false, trees;
    var level := 3;
    while level > 0 && !stop
      invariant 0 <= level <= 3 && IsCut(trees, cut, n, nd, lastblock, level) && ib' == Ptrs(cut)
                && ForestInMem(mem', cut)
      invariant freed == CutLevels(trees, n, nd, lastblock, frag, level) && count == Sum(freed, LengthOf)
      invariant !stop ==> mem' == mem && AbovePast(lastblock, n, nd, level)
      invariant stop ==> level < 3 && lastblock >= Base(nd, n, level)
    {
      level := level - 1;
      var more, c;
      mem', ib', more, c, stop, cut := NextLevel(mem, ib', lastblock, level, n, nd, frag, trees, cut);
      SumConcat(freed, more, LengthOf);
      freed, count := freed + more, count + c;
    }
    Stopped(trees, cut, n, nd, lastblock, frag, level, stop);
  }

  ghost predicate ForestInMem(mem: Memory, trees: seq<Tree>) {
    forall l :: 0 <= l < |trees| ==> InMem(mem, trees[l])
  }

  method NextLevel(mem: Memory, ib: seq<nat>, lastblock: int, level: nat, n: nat, nd: nat, frag: nat,
                   ghost trees: seq<Tree>, ghost cut: seq<Tree>)
    returns (mem': Memory, ib': seq<nat>, freed: seq<Run>, count: nat, stop: bool, ghost cut': seq<Tree>)
    requires n % 4 == 0 && nd % 4 == 0 && nd > 0 && |trees| == 3 && ForestReady(mem, trees, n) && level < 3
    requires IsCut(trees, cut, n, nd, lastblock, level + 1) && ib == Ptrs(cut) && AbovePast(lastblock, n, nd, level + 1)
    ensures IsCut(trees, cut', n, nd, lastblock, level) && ib' == Ptrs(cut') && ForestInMem(mem', cut')
    ensures freed == CutRuns(trees[level], n, level, lastblock - Base(nd, n, level), frag)
            && count == Sum(freed, LengthOf)
    ensures stop <==> lastblock >= Base(nd, n, level)
    ensures !stop ==> mem' == mem && AbovePast(lastblock, n, nd, level)
  {
    var bn;
    mem', bn, freed, count, stop := OneLevel(mem, ib[level], lastblock, level, n, nd, frag, trees[level]);
    ib' := ib[level := bn];
    cut' := cut[level := CutTree(trees[level], n, level, lastblock - Base(nd, n, level))];
    NextCut(trees, cut, n, nd, lastblock, level);
    NextInMem(mem, mem', trees, cut, cut', n, nd, lastblock, level);
  }

  lemma NextCut(trees: seq<Tree>, cut: seq<Tree>, n: nat, nd: nat, lastblock: int, level: nat)
    requires ForestShaped(trees, n) && level < |trees| && IsCut(trees, cut, n, nd, lastblock, level + 1)
    ensures IsCut(trees, cut[level := CutTree(trees[level], n, level, lastblock - Base(nd, n, level))], n, nd,
                  lastblock, level)
  {
  }

  lemma NextInMem(mem: Memory, mem': Memory, trees: seq<Tree>, cut: seq<Tree>, cut': seq<Tree>, n: nat, nd: nat,
                  lastblock: int, level: nat)
    requires |trees| == 3 && ForestReady(mem, trees, n) && level < 3 && IsCut(trees, cut, n, nd, lastblock, level + 1)
    requires AbovePast(lastblock, n, nd, level + 1) && OnlyIn(mem, mem', trees[level])
    requires cut' == cut[level := CutTree(trees[level], n, level, lastblock - Base(nd, n, level))]
    requires InMem(mem', cut'[level])
    ensures ForestInMem(mem', cut')
  {
    OthersKept(mem, mem', trees, n, level);
    forall l | level < l < 3
      ensures cut[l] == Hole
    {
      BaseRises(nd, n, level + 1, l);
    }
  }

  lemma Stopped(trees: seq<Tree>, cut: seq<Tree>, n: nat, nd: nat, lastblock: int, frag: nat, level: nat, stop: bool)
    requires ForestShaped(trees, n) && |trees| == 3 && level < 3 && IsCut(trees, cut, n, nd, lastblock, level)
    requires if stop then lastblock >= Base(nd, n, level) else level == 0 && AbovePast(lastblock, n, nd, 0)
    ensures IsCut(trees, cut, n, nd, lastblock, 0)
    ensures CutLevels(trees, n, nd, lastblock, frag, 0) == CutLevels(trees, n, nd, lastblock, frag, level)
    ensures stop <==> lastblock >= nd
  {
    hide CutLevels;
    if stop {
      LowerKept(trees, n, nd, lastblock, frag, level, 0);
      BaseRises(nd, n, 0, level);
      forall j | 0 <= j < level
        ensures lastblock - Base(nd, n, j) >= Power(n, j + 1)
      {
        BasePast(nd, n, lastblock, j, level);
      }
      assert forall j :: 0 <= j < level ==> CutTree(trees[j], n, j, lastblock - Base(nd, n, j)) == trees[j];
    }
  }

  lemma OthersKept(mem: Memory, mem': Memory, trees: seq<Tree>, n: nat, level: nat)
    requires ForestReady(mem, trees, n) && level < |trees| && OnlyIn(mem, mem', trees[level])
    ensures forall l :: 0 <= l < level ==> InMem(mem', trees[l])
  {
    forall l | 0 <= l < level
      ensures InMem(mem', trees[l])
    {
      Frame(mem, mem', trees[l]);
    }
  }

  // ---- a cut tree is again a proper one

  lemma {:induction false} PruneUses(t: Tree, n: nat, height: nat, last: nat, b: nat)
    requires Shaped(t, n, height) && n > 0 && last < Power(n, height) && Uses(Prune(t, n, height, last), b)
    ensures Uses(t, b)
    decreases height
  {
    if height > 0 && t.Node? && b != t.blk {
      Split(last, n, height);
      var f := Power(n, height - 1);
      var q := last / f;
      var r := Prune(t, n, height, last);
      var i :| 0 <= i < |r.kids| && Uses(r.kids[i], b);
      if i == q {
        PruneUses(t.kids[q], n, height - 1, last % f, b);
      }
      assert Uses(t.kids[i], b);
    }
  }

  lemma {:induction false} PruneDistinct(t: Tree, n: nat, height: nat, last: nat)
    requires Shaped(t, n, height) && n > 0 && last < Power(n, height) && Distinct(t)
    ensures Distinct(Prune(t, n, height, last))
    decreases height
  {
    if height > 0 && t.Node? {
      Split(last, n, height);
      var f := Power(n, height - 1);
      var q := last / f;
      var r := Prune(t, n, height, last);
      PruneDistinct(t.kids[q], n, height - 1, last % f);
      forall i, b | 0 <= i < n && Uses(r.kids[i], b)
        ensures Uses(t.kids[i], b)
      {
        if i == q {
          PruneUses(t.kids[q], n, height - 1, last % f, b);
        }
      }
    }
  }

  lemma CutReady(mem: Memory, mem': Memory, trees: seq<Tree>, cut: seq<Tree>, n: nat, nd: nat, last: int)
    requires ForestReady(mem, trees, n) && IsCut(trees, cut, n, nd, last, 0) && ForestInMem(mem', cut)
    ensures ForestReady(mem', cut, n)
  {
    forall l | 0 <= l < |trees|
      ensures Shaped(cut[l], n, l + 1) && Distinct(cut[l]) && forall b :: Uses(cut[l], b) ==> Uses(trees[l], b)
    {
      CutProper(trees[l], n, l, last - Base(nd, n, l));
    }
  }

  lemma CutProper(t: Tree, n: nat, l: nat, last: int)
    requires Shaped(t, n, l + 1) && n > 0 && Distinct(t)
    ensures Distinct(CutTree(t, n, l, last)) && forall b :: Uses(CutTree(t, n, l, last), b) ==> Uses(t, b)
  {
    if 0 <= last < Power(n, l + 1) {
      PruneDistinct(t, n, l + 1, last);
      forall b | Uses(Prune(t, n, l + 1, last), b)
        ensures Uses(t, b)
      {
        PruneUses(t, n, l + 1, last, b);
      }
    }
  }
}
