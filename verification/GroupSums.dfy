// What the summaries of a cylinder group stand for, as functions of its free map, and how each
// responds when one block's row changes.
module GroupSums {
  import opened Runs
  import opened FragTables
  import opened FragMap

  type Row = seq<bool>

  /** The totals kept per group: cs_nbfree, cs_nffree and cg_frsum[k]. */
  datatype Tally = FreeBlocks | FreeFrags | FragRuns(k: nat)

  predicate IsFree(row: Row) { row == AllSet(|row|) }

  /** One block's share of a total: fragments of wholly free blocks are not counted as fragments. */
  function Weigh(row: Row, t: Tally): nat {
    match t
    case FreeBlocks => One(IsFree(row))
    case FreeFrags => if IsFree(row) then 0 else Count(row)
    case FragRuns(k) => RunCount(row, k)
  }

  function Total(m: seq<Row>, t: Tally): nat {
    if m == [] then 0 else Total(m[..|m| - 1], t) + Weigh(m[|m| - 1], t)
  }

  lemma {:induction false} TotalUpdate(m: seq<Row>, h: nat, row: Row, t: Tally)
    requires h < |m|
    ensures Total(m[h := row], t) == Total(m, t) - Weigh(m[h], t) + Weigh(row, t)
    ensures Weigh(m[h], t) <= Total(m, t)
  {
    var n := |m| - 1;
    if h < n {
      assert m[h := row][..n] == m[..n][h := row];
      TotalUpdate(m[..n], h, row, t);
    } else {
      assert m[h := row][..n] == m[..n];
    }
  }

  lemma {:induction false} TotalPositive(m: seq<Row>, t: Tally) returns (h: nat)
    requires Total(m, t) > 0
    ensures h < |m| && Weigh(m[h], t) > 0
  {
    if Weigh(m[|m| - 1], t) > 0 { h := |m| - 1; } else { h := TotalPositive(m[..|m| - 1], t); }
  }

  /** The cluster map: which blocks are wholly free. */
  function FreeRow(m: seq<Row>, n: nat): (c: Row)
    requires n <= |m|
    ensures |c| == n
  {
    seq(n, h requires 0 <= h < n => IsFree(m[h]))
  }

  /** Positions lo .. hi - 1 of a row given the value v. */
  function Fill(row: Row, lo: nat, hi: nat, v: bool): (r: Row)
    requires hi <= |row|
    ensures |r| == |row|
  {
    seq(|row|, i requires 0 <= i < |row| => if lo <= i < hi then v else row[i])
  }

  /** The totals of a block before and after its fragments lo .. hi - 1 are released. */
  lemma ReleaseWeights(row: Row, lo: nat, hi: nat)
    requires lo < hi <= |row| && forall i :: lo <= i < hi ==> !row[i]
    ensures !IsFree(row)
    ensures Count(Fill(row, lo, hi, true)) == Count(row) + (hi - lo)
    ensures IsFree(Fill(row, lo, hi, true)) ==> Count(row) + (hi - lo) == |row|
  {
    assert !row[lo] && AllSet(|row|)[lo];
    CountSetRange(row, Fill(row, lo, hi, true), lo, hi);
    if IsFree(Fill(row, lo, hi, true)) { CountAll(Fill(row, lo, hi, true)); }
  }

  lemma FullWeights(frag: nat)
    requires frag > 0
    ensures IsFree(AllSet(frag)) && !IsFree(AllClear(frag))
    ensures Count(AllClear(frag)) == 0 && Count(AllSet(frag)) == frag
    ensures forall k :: 1 <= k ==> RunCount(AllClear(frag), k) == 0
    ensures forall k :: 1 <= k < frag ==> RunCount(AllSet(frag), k) == 0
  {
    assert AllSet(frag)[0] && !AllClear(frag)[0];
    CountNone(AllClear(frag));
    CountAll(AllSet(frag));
    forall k | 1 <= k
      ensures RunCount(AllClear(frag), k) == 0
    {
      NoRuns(AllClear(frag), k);
    }
    forall k | 1 <= k < frag
      ensures RunCount(AllSet(frag), k) == 0
    {
      FullRuns(AllSet(frag), k);
    }
  }

  /** A block whose first size fragments are taken has the single run [size, frag). */
  lemma TailWeights(frag: nat, size: nat, k: nat)
    requires 1 <= size < frag && 1 <= k < frag
    ensures var r := Fill(AllClear(frag), size, frag, true);
      !IsFree(r) && Count(r) == frag - size && RunCount(r, k) == One(k == frag - size)
  {
    var r := Fill(AllClear(frag), size, frag, true);
    assert !r[0] && AllSet(frag)[0];
    FullWeights(frag);
    CountSetRange(AllClear(frag), r, size, frag);
    TakeFromRun(AllSet(frag), r, 0, frag, size, k);
  }

  /** How releasing fragments lo .. hi - 1 of block h moves every total. */
  lemma ReleaseTotals(m: seq<Row>, h: nat, lo: nat, hi: nat)
    requires h < |m| && lo < hi <= |m[h]| && forall i :: lo <= i < hi ==> !m[h][i]
    ensures var r := Fill(m[h], lo, hi, true);
      && Total(m[h := r], FreeBlocks) == Total(m, FreeBlocks) + One(IsFree(r))
      && Total(m[h := r], FreeFrags) == Total(m, FreeFrags) + (hi - lo) - (if IsFree(r) then |r| else 0)
      && forall k :: 1 <= k ==>
           Total(m[h := r], FragRuns(k)) == Total(m, FragRuns(k)) - RunCount(m[h], k) + RunCount(r, k)
  {
    var r := Fill(m[h], lo, hi, true);
    ReleaseWeights(m[h], lo, hi);
    TotalUpdate(m, h, r, FreeBlocks);
    TotalUpdate(m, h, r, FreeFrags);
    forall k | 1 <= k
      ensures Total(m[h := r], FragRuns(k)) == Total(m, FragRuns(k)) - RunCount(m[h], k) + RunCount(r, k)
    {
      TotalUpdate(m, h, r, FragRuns(k));
    }
  }

  /** A whole block moves cs_nbfree only. */
  lemma BlockTotals(m: seq<Row>, h: nat, frag: nat)
    requires h < |m| && m[h] == AllClear(frag) && 0 < frag
    ensures var n := m[h := AllSet(frag)];
      && Total(n, FreeBlocks) == Total(m, FreeBlocks) + 1
      && Total(n, FreeFrags) == Total(m, FreeFrags)
      && forall k :: 1 <= k < frag ==> Total(n, FragRuns(k)) == Total(m, FragRuns(k))
  {
    assert Fill(m[h], 0, frag, true) == AllSet(frag);
    ReleaseTotals(m, h, 0, frag);
    FullWeights(frag);
  }

  /** Taking fragments that are all free is the reverse of releasing them. */
  lemma TakeIsReverse(m: seq<Row>, h: nat, lo: nat, hi: nat)
    requires h < |m| && lo < hi <= |m[h]| && forall i :: lo <= i < hi ==> m[h][i]
    ensures var n := m[h := Fill(m[h], lo, hi, false)];
      && n[h := Fill(n[h], lo, hi, true)] == m
      && forall i :: lo <= i < hi ==> !n[h][i]
  {
    assert Fill(Fill(m[h], lo, hi, false), lo, hi, true) == m[h];
  }

  /** Taking fragments [a, c) of block h turns one run of length from into one of length to. */
  ghost predicate TakesRun(m: seq<Row>, h: nat, a: nat, c: nat, from: nat, to: nat) {
    && h < |m| && a < c <= |m[h]| && RoomAt(m, h, a, c)
    && var r := Fill(m[h], a, c, false);
    && !IsFree(m[h]) && !IsFree(r) && to < from < |m[h]|
    && Total(m[h := r], FreeBlocks) == Total(m, FreeBlocks)
    && Total(m[h := r], FreeFrags) == Total(m, FreeFrags) - (c - a)
    && forall k :: 1 <= k ==>
         Total(m[h := r], FragRuns(k)) == Total(m, FragRuns(k)) - One(k == from) + One(k == to)
  }

  /** Taking [a, c) from the front of the maximal run [a, b), shorter than a block. */
  lemma TakeRunTotals(m: seq<Row>, h: nat, a: nat, b: nat, c: nat)
    requires h < |m| && a < c <= b <= |m[h]| && b - a < |m[h]| && RunAt(m[h], a, b - a)
    ensures TakesRun(m, h, a, c, b - a, b - c)
  {
    var row := m[h];
    var n := m[h := Fill(row, a, c, false)];
    TakeIsReverse(m, h, a, c);
    ReleaseTotals(n, h, a, c);
    assert !IsFree(row) by {
      var i := if a > 0 then a - 1 else b;
      assert !row[i] && AllSet(|row|)[i];
    }
    assert !IsFree(n[h]) by { assert !n[h][a] && AllSet(|row|)[a]; }
    forall k | 1 <= k
      ensures RunCount(n[h], k) == RunCount(row, k) - One(k == b - a) + One(k == b - c)
    {
      TakeFromRun(row, n[h], a, b, c, k);
    }
  }

  /** Freeing the tail of a taken block adds the single run [size, frag). */
  lemma TailTotals(m: seq<Row>, h: nat, size: nat, frag: nat)
    requires h < |m| && m[h] == AllClear(frag) && 1 <= size < frag
    ensures var n := m[h := Fill(AllClear(frag), size, frag, true)];
      && !IsFree(m[h]) && !IsFree(n[h])
      && Total(n, FreeBlocks) == Total(m, FreeBlocks)
      && Total(n, FreeFrags) == Total(m, FreeFrags) + (frag - size)
      && forall k :: 1 <= k < frag ==> Total(n, FragRuns(k)) == Total(m, FragRuns(k)) + One(k == frag - size)
  {
    ReleaseTotals(m, h, size, frag);
    FullWeights(frag);
    TailWeights(frag, size, 1);
    forall k | 1 <= k < frag
      ensures RunCount(Fill(AllClear(frag), size, frag, true), k) == One(k == frag - size)
    {
      TailWeights(frag, size, k);
    }
  }

  lemma FreeRowUpdate(m: seq<Row>, h: nat, row: Row, n: nat)
    requires h < |m| && n <= |m|
    ensures FreeRow(m[h := row], n) == if h < n then FreeRow(m, n)[h := IsFree(row)] else FreeRow(m, n)
  {}

  /** Some block has n adjacent free fragments. */
  ghost predicate Room(m: seq<Row>, n: nat) { exists h: nat, lo: nat, hi: nat :: hi - lo == n && RoomAt(m, h, lo, hi) }

  /** Fragments lo .. hi - 1 of block h are free. */
  predicate RoomAt(m: seq<Row>, h: nat, lo: nat, hi: nat) {
    h < |m| && lo <= hi <= |m[h]| && forall i :: lo <= i < hi ==> m[h][i]
  }
}
