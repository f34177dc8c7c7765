// ffs_fragacct and ffs_mapsearch: reading the free map through the pattern tables.
module BlockSearch {
  import opened Runs
  import opened FragTables
  import opened FragMap

  /** A block's bits as the table index they form: the high bits are zero. */
  function Pad(v: seq<bool>): Byte
    requires |v| <= 8
  {
    seq(8, i requires 0 <= i < 8 => i < |v| && v[i])
  }

  lemma PadHas(v: seq<bool>, siz: nat)
    requires FragSize(|v|) && 1 <= siz <= |v|
    ensures ByteHasRun(Pad(v), |v|, siz) == HasRun(v, siz)
  {
    var frag := |v|;
    assert SubRow(Pad(v), frag, 0) == v;
    forall j | 0 < j < PerByte(frag)
      ensures !HasRun(SubRow(Pad(v), frag, j), siz)
    {
      var s := SubRow(Pad(v), frag, j);
      forall p | 0 <= p < |s|
        ensures !RunAt(s, p, siz)
      {
        assert !s[p];
      }
    }
  }

  lemma {:induction false} CountSkip(s: seq<bool>, a: nat, b: nat)
    requires a <= b <= |s| && forall i :: a <= i < b ==> !s[i]
    ensures Count(s[..a]) == Count(s[..b])
  {
    if a < b {
      CountSkip(s, a, b - 1);
      assert s[..b][..b - 1] == s[..b - 1];
    }
  }

  /** After a run of siz at p the next one cannot start before p + siz + 1. */
  lemma RunSkip(v: seq<bool>, siz: nat, p: nat)
    requires 1 <= siz && RunAt(v, p, siz)
    ensures Count(RunStarts(v, siz)[..p]) + 1 == Count(RunStarts(v, siz)[..Min(p + siz + 1, |v|)])
  {
    var s, n := RunStarts(v, siz), Min(p + siz + 1, |v|);
    assert s[p];
    assert s[..p + 1][..p] == s[..p];
    forall i | p < i < n
      ensures !s[i]
    {
      if i < p + siz { assert v[i - 1]; } else { assert !v[i]; }
    }
    CountSkip(s, p + 1, n);
  }

  /** fragtbl[frag][b] & bit. */
  method TableHas(frag: nat, b: Byte, siz: nat) returns (r: bool)
    requires FragSize(frag) && 1 <= siz <= frag
    ensures r == ByteHasRun(b, frag, siz)
  {
    TableIsRun(b, frag, siz);
    r := TableBit(frag, b, siz);
  }

  /** (blk & field) == subfield. */
  method PatternTest(v: seq<bool>, siz: nat, p: nat) returns (r: bool)
    requires |v| <= 8 && 1 <= siz && p + siz <= |v|
    ensures r == RunAt(v, p, siz)
  {
    MatchIsRun(v, siz, p);
    r := Match(v, siz, p);
  }

  /** The runs of one size, found by stepping the pattern along the block. */
  method CountRuns(v: seq<bool>, siz: nat) returns (n: nat)
    requires FragSize(|v|) && 1 <= siz < |v|
    ensures n == RunCount(v, siz)
  {
    var frag := |v|;
    ghost var starts := RunStarts(v, siz);
    var pos := siz;
    n := 0;
    assert starts[..0] == [];
    while pos <= frag
      invariant siz <= pos
      invariant n == Count(starts[..Min(pos - siz, frag)])
    {
      var hit := PatternTest(v, siz, pos - siz);
      if hit {
        RunSkip(v, siz, pos - siz);
        n := n + 1;
        pos := pos + siz;
      } else {
        CountSkip(starts, pos - siz, pos - siz + 1);
      }
      pos := pos + 1;
    }
    CountSkip(starts, Min(pos - siz, frag), frag);
    assert starts[..frag] == starts;
  }

  /** ffs_fragacct: credit or debit the histogram with every run of a block. */
  method FragAcct(v: seq<bool>, fraglist: array<int>, cnt: int)
    requires FragSize(|v|) && |v| <= fraglist.Length
    requires cnt == 1 || cnt == -1
    modifies fraglist
    ensures forall k :: 0 <= k < fraglist.Length ==>
      fraglist[k] == old(fraglist[k]) + if 1 <= k < |v| then cnt * RunCount(v, k) else 0
  {
    for siz := 1 to |v|
      invariant forall k :: 0 <= k < fraglist.Length ==>
        fraglist[k] == old(fraglist[k]) + if 1 <= k < siz then cnt * RunCount(v, k) else 0
    {
      PadHas(v, siz);
      var any := TableHas(|v|, Pad(v), siz);
      if !any {
        CountNone(RunStarts(v, siz));
        continue;
      }
      var n := CountRuns(v, siz);
      fraglist[siz] := fraglist[siz] + cnt * n;
    }
  }

  /** scanc(): how far the first byte whose table entry has the bit is from the end, or 0 for none. */
  method Scanc(frag: nat, cp: array<Byte>, start: nat, len: nat, siz: nat) returns (loc: nat)
    requires FragSize(frag) && 1 <= siz <= frag && start + len <= cp.Length
    ensures loc <= len
    ensures forall i :: start <= i < start + len - loc ==> !ByteHasRun(cp[i], frag, siz)
    ensures loc > 0 ==> ByteHasRun(cp[start + len - loc], frag, siz)
  {
    loc := len;
    while loc > 0
      invariant loc <= len
      invariant forall i :: start <= i < start + len - loc ==> !ByteHasRun(cp[i], frag, siz)
    {
      var hit := TableHas(frag, cp[start + len - loc], siz);
      if hit { return; }
      loc := loc - 1;
    }
  }

  /** Some block has a maximal free run of exactly siz. */
  ghost predicate Available(m: seq<seq<bool>>, siz: nat) { exists h :: 0 <= h < |m| && HasRun(m[h], siz) }

  /** The blocks of byte x are rows FirstOf(x) .. of the map. */
  function FirstOf(frag: nat, x: nat): (h: nat)
    requires FragSize(frag)
  {
    BlockCount(frag, x)
  }

  /** Position p of block j of byte x is fragment 8 * x + SubStart(j) + p. */
  lemma ByteFragNo(frag: nat, x: nat, j: nat, p: nat)
    requires FragSize(frag) && j < PerByte(frag) && p < frag
    ensures var h, bno := FirstOf(frag, x) + j, 8 * x + SubStart(frag, j) + p;
      && ByteOf(frag, h) == x && SubOf(frag, h) == j && h < BlockCount(frag, x + 1)
      && BlkOf(frag, bno) == h && PosOf(frag, bno) == p
  {}

  /** A run in a block of byte x is a run of the map. */
  lemma ByteRun(bytes: seq<Byte>, frag: nat, x: nat, j: nat, p: nat, siz: nat)
    requires FragSize(frag) && x < |bytes| && j < PerByte(frag) && p < frag
    requires RunAt(SubRow(bytes[x], frag, j), p, siz)
    ensures var bno := 8 * x + SubStart(frag, j) + p;
      && BlkOf(frag, bno) < BlockCount(frag, |bytes|)
      && RunAt(Blocks(bytes, frag)[BlkOf(frag, bno)], PosOf(frag, bno), siz)
  {
    ByteFragNo(frag, x, j, p);
    assert BlockCount(frag, x + 1) <= BlockCount(frag, |bytes|);
    BlocksAt(bytes, frag, FirstOf(frag, x) + j);
  }

  lemma AvailableByte(bytes: seq<Byte>, frag: nat, siz: nat) returns (x: nat)
    requires FragSize(frag) && 1 <= siz <= frag && Available(Blocks(bytes, frag), siz)
    ensures x < |bytes| && ByteHasRun(bytes[x], frag, siz)
  {
    var h :| 0 <= h < BlockCount(frag, |bytes|) && HasRun(Blocks(bytes, frag)[h], siz);
    x := ByteOf(frag, h);
    BlocksAt(bytes, frag, h);
    assert HasRun(SubRow(bytes[x], frag, SubOf(frag, h)), siz);
  }

  /** The second half of ffs_mapsearch: the selected run within the byte found. */
  method Sift(frag: nat, b: Byte, siz: nat) returns (j: nat, pos: nat)
    requires FragSize(frag) && 1 <= siz <= frag && ByteHasRun(b, frag, siz)
    ensures j < PerByte(frag) && pos < frag && RunAt(SubRow(b, frag, j), pos, siz)
    ensures forall i, p :: 0 <= i < PerByte(frag) && RunAt(SubRow(b, frag, i), p, siz) ==> j < i || (j == i && pos <= p)
  {
    j, pos := 0, 0;
    while j < PerByte(frag)
      invariant j <= PerByte(frag)
      invariant forall i :: 0 <= i < j ==> !HasRun(SubRow(b, frag, i), siz)
    {
      var blk := SubRow(b, frag, j);
      pos := 0;
      while pos <= frag - siz
        invariant pos <= frag - siz + 1
        invariant forall p :: 0 <= p < pos ==> !RunAt(blk, p, siz)
      {
        var hit := PatternTest(blk, siz, pos);
        if hit { return; }
        pos := pos + 1;
      }
      j := j + 1;
    }
    assert false;  // panic: block not in map
  }

  /** Byte x is the first one with a run of that size, going round the map from byte start. */
  ghost predicate FirstFrom(bytes: seq<Byte>, frag: nat, start: nat, siz: nat, x: nat)
    requires FragSize(frag) && 1 <= siz <= frag
  {
    && x < |bytes| && ByteHasRun(bytes[x], frag, siz)
    && if start <= x then forall i :: start <= i < x ==> !ByteHasRun(bytes[i], frag, siz)
       else forall i :: 0 <= i < x || start <= i < |bytes| ==> !ByteHasRun(bytes[i], frag, siz)
  }

  lemma FirstHas(bytes: seq<Byte>, frag: nat, start: nat, siz: nat, x: nat)
    requires FragSize(frag) && 1 <= siz <= frag && FirstFrom(bytes, frag, start, siz, x)
    ensures x < |bytes| && ByteHasRun(bytes[x], frag, siz)
  {
  }

  /** The first half of ffs_mapsearch: scan from byte start, then from the beginning. */
  method FindByte(frag: nat, cp: array<Byte>, start: nat, siz: nat) returns (x: nat)
    requires FragSize(frag) && 1 <= siz <= frag && start < cp.Length
    requires Available(Blocks(cp[..], frag), siz)
    ensures FirstFrom(cp[..], frag, start, siz, x)
  {
    var len := cp.Length - start;
    var loc := Scanc(frag, cp, start, len, siz);
    if loc > 0 { return start + len - loc; }
    len := start + 1;
    loc := Scanc(frag, cp, 0, len, siz);
    if loc > 0 { return len - loc; }
    x := 0;
    ghost var y := AvailableByte(cp[..], frag, siz);
    assert false;  // panic: map corrupted
  }

  /** A maximal free run of exactly siz starts at fragment x. */
  ghost predicate RunNo(m: seq<seq<bool>>, frag: nat, siz: nat, x: nat)
    requires FragSize(frag)
  {
    BlkOf(frag, x) < |m| && RunAt(m[BlkOf(frag, x)], PosOf(frag, x), siz)
  }

  /** Going up from fragment `from`, and round the map, x comes before y. */
  predicate Before(from: nat, x: nat, y: nat) { if from <= x then y < from || x <= y else x <= y < from }

  /** Fragment x starts the first such run, going round the map from fragment `from`. */
  ghost predicate NextRun(m: seq<seq<bool>>, frag: nat, siz: nat, from: nat, x: nat)
    requires FragSize(frag)
  {
    RunNo(m, frag, siz, x) && forall y: nat :: RunNo(m, frag, siz, y) ==> Before(from, x, y)
  }

  /** A run of the map is a run in a block of its byte. */
  lemma RunInByte(bytes: seq<Byte>, frag: nat, siz: nat, y: nat)
    requires FragSize(frag) && 1 <= siz <= frag && RunNo(Blocks(bytes, frag), frag, siz, y)
    ensures y / 8 < |bytes| && ByteHasRun(bytes[y / 8], frag, siz)
    ensures var j := SubOf(frag, BlkOf(frag, y));
      RunAt(SubRow(bytes[y / 8], frag, j), PosOf(frag, y), siz) && y % 8 == SubStart(frag, j) + PosOf(frag, y)
  {
    BlocksAt(bytes, frag, BlkOf(frag, y));
    FragNoParts(frag, BlkOf(frag, y), PosOf(frag, y));
    assert HasRun(SubRow(bytes[y / 8], frag, SubOf(frag, BlkOf(frag, y))), siz);
  }

  lemma InByteOrder(frag: nat, j: nat, pos: nat, i: nat, p: nat)
    requires FragSize(frag) && j < PerByte(frag) && i < PerByte(frag) && pos < frag && p < frag
    requires j < i || (j == i && pos <= p)
    ensures SubStart(frag, j) + pos <= SubStart(frag, i) + p < 8
  {}

  /** What is first in the first byte is first. */
  lemma FirstInByte(bytes: seq<Byte>, frag: nat, start: nat, siz: nat, x: nat, j: nat, pos: nat, y: nat)
    requires FragSize(frag) && 1 <= siz <= frag && FirstFrom(bytes, frag, start, siz, x)
    requires j < PerByte(frag) && pos < frag
    requires forall i, p :: 0 <= i < PerByte(frag) && RunAt(SubRow(bytes[x], frag, i), p, siz) ==>
                              j < i || (j == i && pos <= p)
    requires RunNo(Blocks(bytes, frag), frag, siz, y)
    ensures Before(8 * start, 8 * x + SubStart(frag, j) + pos, y)
  {
    hide ByteHasRun, Blocks, BlkOf, PosOf, SubOf, SubStart, PerByte, RunAt, SubRow;
    RunInByte(bytes, frag, siz, y);
    InByteOrder(frag, j, pos, j, pos);
    if y / 8 == x {
      InByteOrder(frag, j, pos, SubOf(frag, BlkOf(frag, y)), PosOf(frag, y));
    }
  }

  /**
   * ffs_mapsearch: find the first maximal free run of exactly siz, searching from byte start and
   * wrapping round.  rotor is the new cg_frotor, the byte of the run.  Both panics are unreachable.
   */
  method MapSearch(frag: nat, cp: array<Byte>, start: nat, siz: nat) returns (bno: nat, rotor: nat)
    requires FragSize(frag) && 1 <= siz <= frag && start < cp.Length
    requires Available(Blocks(cp[..], frag), siz)
    ensures NextRun(Blocks(cp[..], frag), frag, siz, 8 * start, bno)
    ensures bno < 8 * cp.Length && rotor == bno - bno % 8
  {
    hide FirstFrom, ByteHasRun, Blocks, BlockCount, BlkOf, PosOf, RunAt, SubRow, FragNo;
    var x := FindByte(frag, cp, start, siz);
    FirstHas(cp[..], frag, start, siz, x);
    rotor := 8 * x;
    var j, pos := Sift(frag, cp[x], siz);
    bno := rotor + SubStart(frag, j) + pos;
    ByteRun(cp[..], frag, x, j, pos, siz);
    forall y: nat | RunNo(Blocks(cp[..], frag), frag, siz, y)
      ensures Before(8 * start, bno, y)
    {
      FirstInByte(cp[..], frag, start, siz, x, j, pos, y);
    }
  }

  /** The cluster search of ffs_clusteralloc: the first run of len set bits from start on. */
  method FindRun(c: array<bool>, start: nat, len: nat) returns (found: bool, g: nat)
    requires 1 <= len
    ensures found ==> start <= g && AllIn(c[..], g, len) && forall x: nat :: start <= x < g ==> !AllIn(c[..], x, len)
    ensures !found ==> forall x: nat :: start <= x ==> !AllIn(c[..], x, len)
  {
    var run, got := 0, start;
    while got < c.Length
      invariant start <= got && run <= got - start && run < len
      invariant got <= c.Length || got == start
      invariant forall i :: got - run <= i < got ==> i < c.Length && c[i]
      invariant got - run == start || (got - run - 1 < c.Length && !c[got - run - 1])
      invariant forall x: nat :: start <= x && x + len <= got ==> !AllIn(c[..], x, len)
    {
      if !c[got] {
        run := 0;
      } else {
        run := run + 1;
        if run == len { return true, got + 1 - run; }
      }
      got := got + 1;
      forall x: nat | start <= x && x + len == got
        ensures !AllIn(c[..], x, len)
      {
        assert !c[..][got - run - 1];
      }
    }
    found, g := false, 0;
  }
}
