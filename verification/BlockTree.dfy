// The block tree of a file: indirect blocks of n pointers, and what a shortened file keeps of it.
module BlockTree {

  /** A pointer and all it leads to: nothing, a data block, or an indirect block. */
  datatype Tree = Hole | Leaf(blk: nat) | Node(blk: nat, kids: seq<Tree>)

  /** A run of fragments on disk. */
  datatype Run = Run(start: nat, frags: nat)

  /** lbn_offset: how many data blocks a pointer of a block at that level covers. */
  function Power(n: nat, level: nat): (r: nat)
    ensures n > 0 ==> r > 0
  {
    if level == 0 then 1 else n * Power(n, level - 1)
  }

  method LbnOffset(n: nat, level: nat) returns (res: nat)
    ensures res == Power(n, level)
  {
    res := 1;
    var l := level;
    while l > 0
      invariant res * Power(n, l) == Power(n, level)
    {
      PowerStep(res, n, l);
      res := res * n;
      l := l - 1;
    }
  }

  lemma PowerStep(res: nat, n: nat, l: nat)
    requires l > 0
    ensures res * n * Power(n, l - 1) == res * Power(n, l)
  {
  }

  /** A tree of the given height: data blocks at height 0, n pointers in every indirect block. */
  predicate Shaped(t: Tree, n: nat, height: nat) {
    match t
    case Hole => true
    case Leaf(b) => b != 0 && height == 0
    case Node(b, kids) => b != 0 && height > 0 && |kids| == n && forall i :: 0 <= i < n ==>
                                                                   Shaped(kids[i], n, height - 1)
  }

  function Ptr(t: Tree): nat { if t.Hole? then 0 else t.blk }

  function Blank(n: nat): (r: seq<Tree>)
    ensures |r| == n && forall i :: 0 <= i < n ==> r[i] == Hole
  {
    seq(n, i => Hole)
  }

  /** The pointer of height k on the way to data block x. */
  function At(t: Tree, n: nat, height: nat, k: nat, x: nat): nat
    requires Shaped(t, n, height) && n > 0 && k <= height && x < Power(n, height)
  {
    if k == height || t.Hole? then Ptr(t)
    else
      Split(x, n, height);
      At(t.kids[x / Power(n, height - 1)], n, height - 1, k, x % Power(n, height - 1))
  }

  lemma DivPart(x: nat, f: nat, n: nat)
    requires f > 0 && x < n * f
    ensures 0 <= x / f < n && 0 <= x % f < f && x == (x / f) * f + x % f
  {
    var q := x / f;
    if q >= n {
      Times(n, q, f);
    }
  }

  lemma Times(a: nat, b: nat, f: nat)
    requires a <= b
    ensures a * f <= b * f
  {
    assert b * f - a * f == (b - a) * f;
  }

  lemma Split(x: nat, n: nat, height: nat)
    requires n > 0 && height > 0 && x < Power(n, height)
    ensures Power(n, height - 1) > 0
    ensures 0 <= x / Power(n, height - 1) < n && 0 <= x % Power(n, height - 1) < Power(n, height - 1)
  {
    DivPart(x, Power(n, height - 1), n);
  }

  /** What is kept of a tree when last is the last data block to keep. */
  function Prune(t: Tree, n: nat, height: nat, last: nat): (r: Tree)
    requires Shaped(t, n, height) && n > 0 && last < Power(n, height)
    ensures Shaped(r, n, height)
    decreases height
  {
    if height == 0 || t.Hole? then t
    else
      Split(last, n, height);
      var f := Power(n, height - 1);
      var kid := Prune(t.kids[last / f], n, height - 1, last % f);
      Node(t.blk, t.kids[..last / f] + [kid] + Blank(n - last / f - 1))
  }

  /** The first data block that the pointer of height k on the way to x leads to. */
  function Start(x: nat, n: nat, height: nat, k: nat): nat
    requires n > 0 && k <= height && x < Power(n, height)
  {
    if k == height then 0
    else
      Split(x, n, height);
      (x / Power(n, height - 1)) * Power(n, height - 1) + Start(x % Power(n, height - 1), n, height - 1, k)
  }

  /** All blocks of a tree, in the order in which they are freed: an indirect block after what it points to. */
  function AllRuns(t: Tree, height: nat, frag: nat): seq<Run>
    decreases 2 * height
  {
    match t
    case Hole => []
    case Leaf(b) => [Run(b, frag)]
    case Node(b, kids) => (if height == 0 then [] else RunsFrom(kids, height - 1, 0, frag)) + [Run(b, frag)]
  }

  /** All blocks of the pointers from lo on, the last pointer first. */
  function RunsFrom(kids: seq<Tree>, height: nat, lo: nat, frag: nat): seq<Run>
    decreases 2 * height + 1, |kids| - lo
  {
    if lo >= |kids| then [] else RunsFrom(kids, height, lo + 1, frag) + AllRuns(kids[lo], height, frag)
  }

  /** What pruning a tree frees. */
  function PrunedRuns(t: Tree, n: nat, height: nat, last: nat, frag: nat): seq<Run>
    requires Shaped(t, n, height) && n > 0 && last < Power(n, height)
    decreases height
  {
    if height == 0 || t.Hole? then []
    else
      Split(last, n, height);
      var f := Power(n, height - 1);
      RunsFrom(t.kids, height - 1, last / f + 1, frag) + PrunedRuns(t.kids[last / f], n, height - 1, last % f, frag)
  }

  // ---- conservation

  /** A measure of a list of runs: of their lengths, or of the times they cover one fragment. */
  function Sum(runs: seq<Run>, m: (nat, nat) -> nat): nat {
    if runs == [] then 0 else Sum(runs[..|runs| - 1], m) + m(runs[|runs| - 1].start, runs[|runs| - 1].frags)
  }

  lemma {:induction false} SumConcat(a: seq<Run>, b: seq<Run>, m: (nat, nat) -> nat)
    ensures Sum(a + b, m) == Sum(a, m) + Sum(b, m)
    decreases |b|
  {
    if b == [] {
      assert a + b == a;
    } else {
      var k := |b| - 1;
      SumConcat(a, b[..k], m);
      assert (a + b)[..|a| + k] == a + b[..k];
    }
  }

  lemma {:induction false} RunsSplit(a: seq<Tree>, b: seq<Tree>, height: nat, lo: nat, frag: nat, m: (nat, nat) -> nat)
    requires lo <= |a|
    ensures Sum(RunsFrom(a + b, height, lo, frag), m)
            == Sum(RunsFrom(a, height, lo, frag), m) + Sum(RunsFrom(b, height, 0, frag), m)
    decreases |a| - lo
  {
    if lo == |a| {
      RunsShift(a, b, height, 0, frag);
    } else {
      RunsSplit(a, b, height, lo + 1, frag, m);
      SumConcat(RunsFrom(a + b, height, lo + 1, frag), AllRuns(a[lo], height, frag), m);
      SumConcat(RunsFrom(a, height, lo + 1, frag), AllRuns(a[lo], height, frag), m);
    }
  }

  lemma {:induction false} RunsShift(a: seq<Tree>, b: seq<Tree>, height: nat, lo: nat, frag: nat)
    requires lo <= |b|
    ensures RunsFrom(a + b, height, |a| + lo, frag) == RunsFrom(b, height, lo, frag)
    decreases |b| - lo
  {
    if lo < |b| {
      RunsShift(a, b, height, lo + 1, frag);
    }
  }

  lemma {:induction false} BlankRuns(k: nat, height: nat, lo: nat, frag: nat)
    requires lo <= k
    ensures RunsFrom(Blank(k), height, lo, frag) == []
    decreases k - lo
  {
    if lo < k {
      BlankRuns(k, height, lo + 1, frag);
    }
  }

  /** Every fragment of the tree is kept or freed, exactly as often as before. */
  lemma {:induction false} PruneConserves(t: Tree, n: nat, height: nat, last: nat, frag: nat, m: (nat, nat) -> nat)
    requires Shaped(t, n, height) && n > 0 && last < Power(n, height)
    ensures Sum(AllRuns(Prune(t, n, height, last), height, frag), m) + Sum(PrunedRuns(t, n, height, last, frag), m)
         == Sum(AllRuns(t, height, frag), m)
    decreases height
  {
    if height > 0 && t.Node? {
      Split(last, n, height);
      var f := Power(n, height - 1);
      var q := last / f;
      PruneConserves(t.kids[q], n, height - 1, last % f, frag, m);
      NodeConserves(t, q, Prune(t.kids[q], n, height - 1, last % f), n - q - 1,
                    PrunedRuns(t.kids[q], n, height - 1, last % f, frag), height, frag, m);
    }
  }

  lemma NodeConserves(t: Tree, q: nat, kid: Tree, rest: nat, more: seq<Run>, height: nat, frag: nat,
                      m: (nat, nat) -> nat)
    requires t.Node? && height > 0 && q < |t.kids|
    requires Sum(AllRuns(kid, height - 1, frag), m) + Sum(more, m) == Sum(AllRuns(t.kids[q], height - 1, frag), m)
    ensures Sum(AllRuns(Node(t.blk, t.kids[..q] + [kid] + Blank(rest)), height, frag), m)
            + Sum(RunsFrom(t.kids, height - 1, q + 1, frag) + more, m)
         == Sum(AllRuns(t, height, frag), m)
  {
    hide Sum;
    SumConcat(RunsFrom(t.kids, height - 1, q + 1, frag), more, m);
    NodeRuns(t, height, frag, m);
    NodeRuns(Node(t.blk, t.kids[..q] + [kid] + Blank(rest)), height, frag, m);
    KidsConserve(t.kids, q, kid, rest, Sum(more, m), height - 1, frag, m);
  }

  lemma KidsConserve(kids: seq<Tree>, q: nat, kid: Tree, rest: nat, more: nat, height: nat, frag: nat,
                     m: (nat, nat) -> nat)
    requires q < |kids| && Sum(AllRuns(kid, height, frag), m) + more == Sum(AllRuns(kids[q], height, frag), m)
    ensures Sum(RunsFrom(kids[..q] + [kid] + Blank(rest), height, 0, frag), m)
            + Sum(RunsFrom(kids, height, q + 1, frag), m) + more
         == Sum(RunsFrom(kids, height, 0, frag), m)
  {
    KidsSplit(kids, q, height, frag, m);
    PrunedKids(kids[..q], kid, rest, height, frag, m);
  }

  lemma NodeRuns(t: Tree, height: nat, frag: nat, m: (nat, nat) -> nat)
    requires t.Node? && height > 0
    ensures Sum(AllRuns(t, height, frag), m)
            == Sum(RunsFrom(t.kids, height - 1, 0, frag), m) + Sum([Run(t.blk, frag)], m)
  {
    SumConcat(RunsFrom(t.kids, height - 1, 0, frag), [Run(t.blk, frag)], m);
  }

  lemma OneRun(t: Tree, height: nat, frag: nat, m: (nat, nat) -> nat)
    ensures Sum(RunsFrom([t], height, 0, frag), m) == Sum(AllRuns(t, height, frag), m)
  {
    assert RunsFrom([t], height, 1, frag) == [];
    SumConcat([], AllRuns(t, height, frag), m);
  }

  lemma KidsSplit(kids: seq<Tree>, q: nat, height: nat, frag: nat, m: (nat, nat) -> nat)
    requires q < |kids|
    ensures Sum(RunsFrom(kids, height, 0, frag), m) == Sum(RunsFrom(kids[..q], height, 0, frag), m)
            + Sum(AllRuns(kids[q], height, frag), m) + Sum(RunsFrom(kids, height, q + 1, frag), m)
  {
    RunsSplit(kids[..q], kids[q..], height, 0, frag, m);
    RunsShift(kids[..q], kids[q..], height, 1, frag);
    assert kids[..q] + kids[q..] == kids;
    SumConcat(RunsFrom(kids[q..], height, 1, frag), AllRuns(kids[q], height, frag), m);
  }

  lemma PrunedKids(before: seq<Tree>, kid: Tree, rest: nat, height: nat, frag: nat, m: (nat, nat) -> nat)
    ensures Sum(RunsFrom(before + [kid] + Blank(rest), height, 0, frag), m) ==
            Sum(RunsFrom(before, height, 0, frag), m) + Sum(AllRuns(kid, height, frag), m)
  {
    RunsSplit(before + [kid], Blank(rest), height, 0, frag, m);
    BlankRuns(rest, height, 0, frag);
    RunsSplit(before, [kid], height, 0, frag, m);
    OneRun(kid, height, frag, m);
  }

  // ---- what the kept tree maps

  lemma {:induction false} StartBefore(x: nat, n: nat, height: nat, k: nat)
    requires n > 0 && k <= height && x < Power(n, height)
    ensures Start(x, n, height, k) <= x && (k == 0 ==> Start(x, n, height, k) == x)
    decreases height
  {
    if k < height {
      var f := Power(n, height - 1);
      DivPart(x, f, n);
      StartBefore(x % f, n, height - 1, k);
    }
  }

  lemma StartOrder(x: nat, s: nat, last: nat, f: nat)
    requires f > 0 && s <= x % f
    ensures (x / f) * f + s <= last <==> x / f < last / f || (x / f == last / f && s <= last % f)
  {
    assert last == (last / f) * f + last % f;
    if x / f < last / f {
      Times(x / f + 1, last / f, f);
      assert (x / f + 1) * f == (x / f) * f + f;
    }
    if x / f > last / f {
      Times(last / f + 1, x / f, f);
      assert (last / f + 1) * f == (last / f) * f + f;
    }
  }

  lemma {:induction false} HoleAt(n: nat, height: nat, k: nat, x: nat)
    requires n > 0 && k <= height && x < Power(n, height)
    ensures At(Hole, n, height, k, x) == 0
  {
  }

  /**
   * The kept tree has, at every height, exactly the pointers whose range starts at or before last;
   * the others are zero.
   */
  lemma {:induction false} PruneAt(t: Tree, n: nat, height: nat, last: nat, k: nat, x: nat)
    requires Shaped(t, n, height) && n > 0 && last < Power(n, height) && k <= height && x < Power(n, height)
    ensures At(Prune(t, n, height, last), n, height, k, x) ==
            if Start(x, n, height, k) <= last then At(t, n, height, k, x) else 0
    decreases height
  {
    if k < height && t.Node? {
      Split(last, n, height);
      Split(x, n, height);
      var f := Power(n, height - 1);
      StartBefore(x % f, n, height - 1, k);
      StartOrder(x, Start(x % f, n, height - 1, k), last, f);
      if x / f == last / f {
        PruneAt(t.kids[last / f], n, height - 1, last % f, k, x % f);
      } else if x / f > last / f {
        HoleAt(n, height - 1, k, x % f);
      }
    }
  }
}
