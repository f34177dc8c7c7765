// Counting the maximal runs of `true` in a bit row.  Both the fragment histogram cg_frsum
// and the cluster histogram cg_clustersum are counts of this kind.
module Runs {

  /** The number of `true` entries. */
  function Count(s: seq<bool>): nat {
    if s == [] then 0 else Count(s[..|s| - 1]) + if s[|s| - 1] then 1 else 0
  }

  /** Positions p .. p + k - 1 are all set and the run cannot be extended on either side. */
  predicate RunAt(s: seq<bool>, p: nat, k: nat) {
    && p + k <= |s|
    && (forall i :: p <= i < p + k ==> s[i])
    && (p > 0 ==> !s[p - 1])
    && (p + k < |s| ==> !s[p + k])
  }

  /** A run starts at p and is at least k long. */
  predicate LongRunAt(s: seq<bool>, p: nat, k: nat) {
    && p + k <= |s|
    && (forall i :: p <= i < p + k ==> s[i])
    && (p > 0 ==> !s[p - 1])
  }

  /** Where maximal runs of exactly k start. */
  function RunStarts(s: seq<bool>, k: nat): (r: seq<bool>)
    ensures |r| == |s|
  {
    seq(|s|, p requires 0 <= p < |s| => RunAt(s, p, k))
  }

  /** The number of maximal runs of exactly k. */
  function RunCount(s: seq<bool>, k: nat): nat { Count(RunStarts(s, k)) }

  /** Where runs of class k start: exactly k, or at least k for the last class. */
  function ClassStarts(s: seq<bool>, k: nat, last: nat): (r: seq<bool>)
    ensures |r| == |s|
  {
    seq(|s|, p requires 0 <= p < |s| => if k < last then RunAt(s, p, k) else LongRunAt(s, p, last))
  }

  /** The number of runs of class k. */
  function ClassCount(s: seq<bool>, k: nat, last: nat): nat { Count(ClassStarts(s, k, last)) }

  function One(b: bool): nat { if b then 1 else 0 }

  lemma {:induction false} CountUpdate(s: seq<bool>, i: nat, v: bool)
    requires i < |s|
    ensures Count(s[i := v]) == Count(s) - One(s[i]) + One(v)
    ensures s[i] ==> Count(s) > 0
  {
    var n := |s| - 1;
    if i < n {
      assert s[i := v][..n] == s[..n][i := v];
      CountUpdate(s[..n], i, v);
    } else {
      assert s[i := v][..n] == s[..n];
    }
  }

  predicate At(s: seq<bool>, i: nat) { i < |s| && s[i] }

  /** Rows that agree except possibly at i and j have counts that differ by those two entries. */
  lemma CountDiffer(x: seq<bool>, y: seq<bool>, i: nat, j: nat)
    requires |x| == |y| && i != j
    requires forall p :: 0 <= p < |x| && p != i && p != j ==> x[p] == y[p]
    ensures Count(y) + One(At(x, i)) + One(At(x, j)) == Count(x) + One(At(y, i)) + One(At(y, j))
  {
    var z := if i < |x| then x[i := y[i]] else x;
    if i < |x| { CountUpdate(x, i, y[i]); }
    if j < |x| { CountUpdate(z, j, y[j]); }
    assert y == if j < |x| then z[j := y[j]] else z;
  }

  lemma {:induction false} CountNone(s: seq<bool>)
    requires forall i :: 0 <= i < |s| ==> !s[i]
    ensures Count(s) == 0
  {
    if s != [] { CountNone(s[..|s| - 1]); }
  }

  lemma {:induction false} CountAll(s: seq<bool>)
    requires forall i :: 0 <= i < |s| ==> s[i]
    ensures Count(s) == |s|
  {
    if s != [] { CountAll(s[..|s| - 1]); }
  }

  lemma {:induction false} CountPositive(s: seq<bool>) returns (i: nat)
    requires Count(s) > 0
    ensures i < |s| && s[i]
  {
    if s[|s| - 1] { i := |s| - 1; } else { i := CountPositive(s[..|s| - 1]); }
  }

  lemma {:induction false} CountSetRange(s: seq<bool>, t: seq<bool>, lo: nat, hi: nat)
    requires |s| == |t| && lo <= hi <= |s|
    requires forall i :: 0 <= i < |s| ==> t[i] == (s[i] || lo <= i < hi)
    requires forall i :: lo <= i < hi ==> !s[i]
    ensures Count(t) == Count(s) + (hi - lo)
    decreases hi
  {
    if lo == hi {
      assert s == t;
    } else {
      CountSetRange(s, t[hi - 1 := false], lo, hi - 1);
      CountUpdate(t, hi - 1, false);
    }
  }

  /** Taking the first c - a positions of the maximal run [a, b) leaves the run [c, b). */
  lemma TakeFromRun(s: seq<bool>, t: seq<bool>, a: nat, b: nat, c: nat, k: nat)
    requires |s| == |t| && a < c <= b && 1 <= k
    requires RunAt(s, a, b - a)
    requires forall i :: 0 <= i < |s| ==> t[i] == (s[i] && !(a <= i < c))
    ensures RunCount(t, k) == RunCount(s, k) - One(k == b - a) + One(k == b - c)
    ensures k == b - a ==> RunCount(s, k) > 0
  {
    var x, y := RunStarts(s, k), RunStarts(t, k);
    forall p | 0 <= p < |s| && p != a && p != c
      ensures x[p] == y[p]
    {
      TakeElsewhere(s, t, a, b, c, k, p);
    }
    TakeAt(s, t, a, b, c, k);
    CountDiffer(x, y, a, c);
    if k == b - a { CountUpdate(x, a, true); }
  }

  lemma TakeAt(s: seq<bool>, t: seq<bool>, a: nat, b: nat, c: nat, k: nat)
    requires |s| == |t| && a < c <= b && 1 <= k
    requires RunAt(s, a, b - a)
    requires forall i :: 0 <= i < |s| ==> t[i] == (s[i] && !(a <= i < c))
    ensures RunAt(s, a, k) == (k == b - a) && !RunAt(t, a, k)
    ensures c < |s| ==> !RunAt(s, c, k) && (RunAt(t, c, k) == (k == b - c))
    ensures k == b - c ==> c < |s|
  {
    if k < b - a { assert s[a + k]; }
    if k > b - a && a + k <= |s| { assert !s[b]; }
    assert !t[a];
    if c < b {
      assert s[c - 1];
      if k < b - c { assert t[c + k]; }
      if k > b - c && c + k <= |s| { assert !t[b]; }
    } else if c < |s| {
      assert !s[c];
    }
  }

  lemma TakeElsewhere(s: seq<bool>, t: seq<bool>, a: nat, b: nat, c: nat, k: nat, p: nat)
    requires |s| == |t| && a < c <= b && 1 <= k
    requires RunAt(s, a, b - a)
    requires forall i :: 0 <= i < |s| ==> t[i] == (s[i] && !(a <= i < c))
    requires p < |s| && p != a && p != c
    ensures RunAt(t, p, k) == RunAt(s, p, k)
  {
    if a < p < b {
      assert s[p - 1];
      if p < c { assert !t[p]; } else { assert t[p - 1]; }
    } else if p < a {
      if p + k > a && p + k <= |s| { assert !s[a - 1] && !t[a - 1]; }
      if p + k == a { assert s[a - 1] ==> false; assert !s[p + k - 1]; assert !t[p + k - 1]; }
    }
  }

  /** An all-clear row has no runs. */
  lemma NoRuns(s: seq<bool>, k: nat)
    requires 1 <= k && forall i :: 0 <= i < |s| ==> !s[i]
    ensures RunCount(s, k) == 0
  {
    forall p | 0 <= p < |s|
      ensures !RunAt(s, p, k)
    {
      assert !s[p];
    }
    CountNone(RunStarts(s, k));
  }

  /** An all-set row is one run, so it has none that is shorter. */
  lemma FullRuns(s: seq<bool>, k: nat)
    requires 1 <= k < |s| && forall i :: 0 <= i < |s| ==> s[i]
    ensures RunCount(s, k) == 0
  {
    forall p | 0 <= p < |s|
      ensures !RunAt(s, p, k)
    {
      if p == 0 { assert s[k]; } else { assert s[p - 1]; }
    }
    CountNone(RunStarts(s, k));
  }

  /** Positions p .. p + n - 1 exist and are all set. */
  predicate AllIn(s: seq<bool>, p: nat, n: nat) { p + n <= |s| && forall i :: p <= i < p + n ==> s[i] }

  /** A stretch of set positions lies in a maximal run at least as long. */
  lemma {:induction false} MaximalRun(s: seq<bool>, p: nat, k: nat) returns (a: nat, n: nat)
    requires 1 <= k && AllIn(s, p, k)
    ensures n >= k && RunAt(s, a, n)
    decreases |s| - k
  {
    if p > 0 && s[p - 1] {
      a, n := MaximalRun(s, p - 1, k + 1);
    } else if p + k < |s| && s[p + k] {
      a, n := MaximalRun(s, p, k + 1);
    } else {
      a, n := p, k;
    }
  }

  function Min(a: nat, b: nat): nat { if a < b then a else b }

  /** back and forw are the lengths of the runs on either side of position b, cut off at last. */
  ghost predicate Neighbours(c: seq<bool>, b: nat, back: nat, forw: nat, last: nat) {
    && b < |c| && back <= last && forw <= last && back <= b && b + 1 + forw <= |c|
    && (forall i :: b - back <= i < b ==> c[i])
    && (forall i :: b < i < b + 1 + forw ==> c[i])
    && (back < last && back < b ==> !c[b - back - 1])
    && (forw < last && b + 1 + forw < |c| ==> !c[b + 1 + forw])
  }

  /** Setting position b joins its neighbour runs into one; the histogram moves accordingly. */
  lemma JoinRuns(c: seq<bool>, d: seq<bool>, b: nat, back: nat, forw: nat, last: nat, k: nat)
    requires Neighbours(c, b, back, forw, last) && !c[b] && d == c[b := true]
    requires 1 <= k <= last
    ensures ClassCount(d, k, last) + One(back > 0 && k == back) + One(forw > 0 && k == forw)
         == ClassCount(c, k, last) + One(k == Min(back + forw + 1, last))
  {
    var x, y := ClassStarts(c, k, last), ClassStarts(d, k, last);
    forall p | 0 <= p < |c| && p != b + 1 && (back < last ==> p != b - back)
      ensures x[p] == y[p]
    {
      JoinElsewhere(c, d, b, back, forw, last, k, p);
    }
    if b + 1 < |c| { JoinForward(c, d, b, back, forw, last, k); }
    if back < last {
      JoinBack(c, d, b, back, forw, last, k);
      CountDiffer(x, y, b - back, b + 1);
    } else {
      CountDiffer(x, y, |c| + b + 2, b + 1);
    }
  }

  lemma JoinForward(c: seq<bool>, d: seq<bool>, b: nat, back: nat, forw: nat, last: nat, k: nat)
    requires Neighbours(c, b, back, forw, last) && !c[b] && d == c[b := true]
    requires 1 <= k <= last && b + 1 < |c|
    ensures ClassStarts(c, k, last)[b + 1] == (forw > 0 && k == forw)
    ensures !ClassStarts(d, k, last)[b + 1]
  {
    assert d[b] && !c[b];
    if k < forw { assert c[b + 1 + k]; }
    if forw < k { if b + 1 + forw < |c| { assert !c[b + 1 + forw]; } }
  }

  lemma JoinBack(c: seq<bool>, d: seq<bool>, b: nat, back: nat, forw: nat, last: nat, k: nat)
    requires Neighbours(c, b, back, forw, last) && !c[b] && d == c[b := true]
    requires 1 <= k <= last && back < last
    ensures ClassStarts(c, k, last)[b - back] == (back > 0 && k == back)
    ensures ClassStarts(d, k, last)[b - back] == (k == Min(back + forw + 1, last))
  {
    var st := b - back;
    if k < back { assert c[st + k]; }
    if k > back { assert !c[b]; }
    assert forall i :: st <= i < b + 1 + forw ==> d[i];
    if k < back + forw + 1 { assert d[st + k] || st + k == b + 1 + forw; }
    if k > back + forw + 1 && b + 1 + forw < |c| { assert !d[b + 1 + forw]; }
  }

  lemma JoinElsewhere(c: seq<bool>, d: seq<bool>, b: nat, back: nat, forw: nat, last: nat, k: nat, p: nat)
    requires Neighbours(c, b, back, forw, last) && !c[b] && d == c[b := true]
    requires 1 <= k <= last
    requires p < |c| && p != b + 1 && (back < last ==> p != b - back)
    ensures ClassStarts(c, k, last)[p] == ClassStarts(d, k, last)[p]
  {
    assert forall i :: 0 <= i < |c| && i != b ==> c[i] == d[i];
    if b - back < p <= b {
      assert c[p - 1] && d[p - 1];
    } else if p < b - back {
      if back < last {
        var q := b - back - 1;
        assert !c[q] && !d[q];
        assert p + k > q ==> !RunAt(c, p, k) && !RunAt(d, p, k);
        assert p + last > q ==> !LongRunAt(c, p, last) && !LongRunAt(d, p, last);
      }
    } else if p == b - back {
      assert back == last;
    }
  }
}
