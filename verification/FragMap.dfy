// The free map cg_blksfree as bytes, and as what it stands for: one row of fs_frag bits for
// each block.  The operations are the byte-mask forms of ffs_isblock and its companions and of
// setbit, clrbit and isset.
module FragMap {
  import opened FragTables

  /** A u_char as its eight bits, low bit first. */
  type Byte = b: seq<bool> | |b| == 8
    witness [false, false, false, false, false, false, false, false]

  function And(a: Byte, b: Byte): Byte { seq(8, i requires 0 <= i < 8 => a[i] && b[i]) }
  function AndNot(a: Byte, b: Byte): Byte { seq(8, i requires 0 <= i < 8 => a[i] && !b[i]) }
  function Or(a: Byte, b: Byte): Byte { seq(8, i requires 0 <= i < 8 => a[i] || b[i]) }

  /** The bits lo .. hi - 1: ((1 << (hi - lo)) - 1) << lo. */
  function RangeMask(lo: nat, hi: nat): Byte { seq(8, i requires 0 <= i < 8 => lo <= i < hi) }

  /** The byte that holds block h: h, h >> 1, h >> 2 or h >> 3. */
  function ByteOf(frag: nat, h: nat): nat
    requires FragSize(frag)
  {
    if frag == 8 then h else if frag == 4 then h / 2 else if frag == 2 then h / 4 else h / 8
  }

  /** Which block of its byte h is: h & 0, 1, 3 or 7. */
  function SubOf(frag: nat, h: nat): (j: nat)
    requires FragSize(frag)
    ensures j < PerByte(frag)
  {
    if frag == 8 then 0 else if frag == 4 then h % 2 else if frag == 2 then h % 4 else h % 8
  }

  /** 0xff, 0x0f, 0x03 or 0x01 shifted to the block's place in its byte. */
  function BlockMask(frag: nat, h: nat): Byte
    requires FragSize(frag)
  {
    RangeMask(SubStart(frag, SubOf(frag, h)), SubStart(frag, SubOf(frag, h)) + frag)
  }

  function BlockCount(frag: nat, bytes: nat): nat
    requires FragSize(frag)
  {
    if frag == 8 then bytes else if frag == 4 then 2 * bytes else if frag == 2 then 4 * bytes else 8 * bytes
  }

  /** The blocks of one byte. */
  function ByteBlocks(b: Byte, frag: nat): (m: seq<seq<bool>>)
    requires FragSize(frag)
    ensures |m| == PerByte(frag) && forall j :: 0 <= j < |m| ==> |m[j]| == frag
  {
    seq(PerByte(frag), j requires 0 <= j < PerByte(frag) => SubRow(b, frag, j))
  }

  /** The map: bit p of row h says that fragment p of block h is free. */
  function Blocks(bytes: seq<Byte>, frag: nat): (m: seq<seq<bool>>)
    requires FragSize(frag)
    ensures |m| == BlockCount(frag, |bytes|)
    ensures forall h :: 0 <= h < |m| ==> |m[h]| == frag
  {
    if bytes == [] then [] else Blocks(bytes[..|bytes| - 1], frag) + ByteBlocks(bytes[|bytes| - 1], frag)
  }

  /** Row h is the block's part of the byte that the masks address. */
  lemma {:induction false} BlocksAt(bytes: seq<Byte>, frag: nat, h: nat)
    requires FragSize(frag) && h < BlockCount(frag, |bytes|)
    ensures Blocks(bytes, frag)[h] == SubRow(bytes[ByteOf(frag, h)], frag, SubOf(frag, h))
  {
    var n := |bytes| - 1;
    if h < BlockCount(frag, n) {
      BlocksAt(bytes[..n], frag, h);
    } else {
      assert ByteOf(frag, h) == n && h - BlockCount(frag, n) == SubOf(frag, h);
    }
  }

  /** The fragment number h * frag + p, and back: fragstoblks() and fragnum(). */
  function FragNo(frag: nat, h: nat, p: nat): nat
    requires FragSize(frag)
  {
    (if frag == 8 then 8 * h else if frag == 4 then 4 * h else if frag == 2 then 2 * h else h) + p
  }

  function BlkOf(frag: nat, bno: nat): nat
    requires FragSize(frag)
  {
    if frag == 8 then bno / 8 else if frag == 4 then bno / 4 else if frag == 2 then bno / 2 else bno
  }

  function PosOf(frag: nat, bno: nat): (p: nat)
    requires FragSize(frag)
    ensures p < frag && FragNo(frag, BlkOf(frag, bno), p) == bno
  {
    if frag == 8 then bno % 8 else if frag == 4 then bno % 4 else if frag == 2 then bno % 2 else 0
  }

  lemma FragNoParts(frag: nat, h: nat, p: nat)
    requires FragSize(frag) && p < frag
    ensures BlkOf(frag, FragNo(frag, h, p)) == h && PosOf(frag, FragNo(frag, h, p)) == p
    ensures FragNo(frag, h, p) / 8 == ByteOf(frag, h)
    ensures FragNo(frag, h, p) % 8 == SubStart(frag, SubOf(frag, h)) + p
  {}

  function AllSet(frag: nat): (s: seq<bool>)
    ensures |s| == frag && forall i :: 0 <= i < frag ==> s[i]
  {
    seq(frag, i => true)
  }

  function AllClear(frag: nat): (s: seq<bool>)
    ensures |s| == frag && forall i :: 0 <= i < frag ==> !s[i]
  {
    seq(frag, i => false)
  }

  /** Two blocks that share a byte have different places in it. */
  lemma SameByte(frag: nat, h: nat, g: nat)
    requires FragSize(frag) && ByteOf(frag, h) == ByteOf(frag, g) && h != g
    ensures SubStart(frag, SubOf(frag, h)) + frag <= SubStart(frag, SubOf(frag, g))
         || SubStart(frag, SubOf(frag, g)) + frag <= SubStart(frag, SubOf(frag, h))
  {}

  /** Byte b is byte c with the bits k .. k + frag - 1 replaced by row. */
  predicate Overlay(b: Byte, c: Byte, k: nat, row: seq<bool>) {
    forall i :: 0 <= i < 8 ==> b[i] == if k <= i < k + |row| then row[i - k] else c[i]
  }

  lemma OverlaySlice(b: Byte, c: Byte, k: nat, row: seq<bool>, q: nat)
    requires Overlay(b, c, k, row) && q + |row| <= 8
    requires q == k || q + |row| <= k || k + |row| <= q
    ensures b[q..q + |row|] == if q == k then row else c[q..q + |row|]
  {}

  lemma OverlayRow(b: Byte, c: Byte, frag: nat, h: nat, row: seq<bool>, g: nat)
    requires FragSize(frag) && |row| == frag && ByteOf(frag, g) == ByteOf(frag, h)
    requires Overlay(b, c, SubStart(frag, SubOf(frag, h)), row)
    ensures SubRow(b, frag, SubOf(frag, g)) == if g == h then row else SubRow(c, frag, SubOf(frag, g))
  {
    if g != h { SameByte(frag, h, g); }
    assert SubStart(frag, SubOf(frag, g)) + frag <= 8;
    OverlaySlice(b, c, SubStart(frag, SubOf(frag, h)), row, SubStart(frag, SubOf(frag, g)));
  }

  /** Replacing the byte of block h by one that agrees with it outside h changes only row h. */
  lemma BlockUpdate(bytes: seq<Byte>, frag: nat, h: nat, b: Byte, row: seq<bool>)
    requires FragSize(frag) && h < BlockCount(frag, |bytes|) && |row| == frag
    requires Overlay(b, bytes[ByteOf(frag, h)], SubStart(frag, SubOf(frag, h)), row)
    ensures Blocks(bytes[ByteOf(frag, h) := b], frag) == Blocks(bytes, frag)[h := row]
  {
    var n := Blocks(bytes[ByteOf(frag, h) := b], frag);
    var m := Blocks(bytes, frag)[h := row];
    forall g | 0 <= g < |m|
      ensures n[g] == m[g]
    {
      BlocksAt(bytes, frag, g);
      BlocksAt(bytes[ByteOf(frag, h) := b], frag, g);
      if ByteOf(frag, g) == ByteOf(frag, h) { OverlayRow(b, bytes[ByteOf(frag, h)], frag, h, row, g); }
    }
  }

  lemma ZeroBytes(bytes: seq<Byte>, frag: nat)
    requires FragSize(frag) && forall i :: 0 <= i < |bytes| ==> bytes[i] == RangeMask(0, 0)
    ensures forall h :: 0 <= h < BlockCount(frag, |bytes|) ==> Blocks(bytes, frag)[h] == AllClear(frag)
  {
    forall h | 0 <= h < BlockCount(frag, |bytes|)
      ensures Blocks(bytes, frag)[h] == AllClear(frag)
    {
      BlocksAt(bytes, frag, h);
    }
  }

  /** What a mask test says about the bits under the mask. */
  lemma MaskTest(b: Byte, lo: nat, hi: nat)
    requires lo <= hi <= 8
    ensures (And(b, RangeMask(lo, hi)) == RangeMask(lo, hi)) == (b[lo..hi] == AllSet(hi - lo))
    ensures (And(b, RangeMask(lo, hi)) == RangeMask(0, 0)) == (b[lo..hi] == AllClear(hi - lo))
  {
    var x := And(b, RangeMask(lo, hi));
    assert forall i :: 0 <= i < hi - lo ==> b[lo..hi][i] == b[lo + i] == x[lo + i];
    assert forall i :: lo <= i < hi ==> x[i] == b[lo..hi][i - lo];
    if b[lo..hi] == AllSet(hi - lo) {
      assert forall i :: lo <= i < hi ==> x[i] == AllSet(hi - lo)[i - lo];
    }
    if b[lo..hi] == AllClear(hi - lo) {
      assert forall i :: lo <= i < hi ==> x[i] == AllClear(hi - lo)[i - lo];
    }
  }

  // ffs_isblock, ffs_isfreeblock, ffs_setblock, ffs_clrblock

  method IsBlock(frag: nat, cp: array<Byte>, h: nat) returns (r: bool)
    requires FragSize(frag) && h < BlockCount(frag, cp.Length)
    ensures r == (Blocks(cp[..], frag)[h] == AllSet(frag))
  {
    hide Blocks;
    var k := SubStart(frag, SubOf(frag, h));
    BlocksAt(cp[..], frag, h);
    MaskTest(cp[ByteOf(frag, h)], k, k + frag);
    var mask := BlockMask(frag, h);
    r := And(cp[ByteOf(frag, h)], mask) == mask;
  }

  method IsFreeBlock(frag: nat, cp: array<Byte>, h: nat) returns (r: bool)
    requires FragSize(frag) && h < BlockCount(frag, cp.Length)
    ensures r == (Blocks(cp[..], frag)[h] == AllClear(frag))
  {
    var k := SubStart(frag, SubOf(frag, h));
    BlocksAt(cp[..], frag, h);
    MaskTest(cp[ByteOf(frag, h)], k, k + frag);
    r := And(cp[ByteOf(frag, h)], BlockMask(frag, h)) == RangeMask(0, 0);
  }

  /** blkmap(): the bits of block h. */
  method BlkMap(frag: nat, cp: array<Byte>, h: nat) returns (row: seq<bool>)
    requires FragSize(frag) && h < BlockCount(frag, cp.Length)
    ensures row == Blocks(cp[..], frag)[h]
  {
    BlocksAt(cp[..], frag, h);
    row := SubRow(cp[ByteOf(frag, h)], frag, SubOf(frag, h));
  }

  method SetBlock(frag: nat, cp: array<Byte>, h: nat)
    requires FragSize(frag) && h < BlockCount(frag, cp.Length)
    modifies cp
    ensures Blocks(cp[..], frag) == old(Blocks(cp[..], frag))[h := AllSet(frag)]
  {
    var x := ByteOf(frag, h);
    ghost var was := cp[..];
    BlockUpdate(was, frag, h, Or(cp[x], BlockMask(frag, h)), AllSet(frag));
    cp[x] := Or(cp[x], BlockMask(frag, h));
    assert cp[..] == was[x := cp[x]];
  }

  method ClrBlock(frag: nat, cp: array<Byte>, h: nat)
    requires FragSize(frag) && h < BlockCount(frag, cp.Length)
    modifies cp
    ensures Blocks(cp[..], frag) == old(Blocks(cp[..], frag))[h := AllClear(frag)]
  {
    var x := ByteOf(frag, h);
    ghost var was := cp[..];
    BlockUpdate(was, frag, h, AndNot(cp[x], BlockMask(frag, h)), AllClear(frag));
    cp[x] := AndNot(cp[x], BlockMask(frag, h));
    assert cp[..] == was[x := cp[x]];
  }

  // isset, setbit, clrbit on fragment bno, which is position p of block h

  method IsSet(frag: nat, cp: array<Byte>, bno: nat) returns (r: bool)
    requires FragSize(frag) && BlkOf(frag, bno) < BlockCount(frag, cp.Length)
    ensures r == Blocks(cp[..], frag)[BlkOf(frag, bno)][PosOf(frag, bno)]
  {
    FragNoParts(frag, BlkOf(frag, bno), PosOf(frag, bno));
    BlocksAt(cp[..], frag, BlkOf(frag, bno));
    r := And(cp[bno / 8], RangeMask(bno % 8, bno % 8 + 1)) != RangeMask(0, 0);
    MaskTest(cp[bno / 8], bno % 8, bno % 8 + 1);
    assert r == (cp[bno / 8][bno % 8..bno % 8 + 1][0] != AllClear(1)[0]);
  }

  method SetBit(frag: nat, cp: array<Byte>, bno: nat)
    requires FragSize(frag) && BlkOf(frag, bno) < BlockCount(frag, cp.Length)
    modifies cp
    ensures Blocks(cp[..], frag) == Assign(old(Blocks(cp[..], frag)), BlkOf(frag, bno), PosOf(frag, bno), true)
  {
    var h, p := BlkOf(frag, bno), PosOf(frag, bno);
    FragNoParts(frag, h, p);
    ghost var was := cp[..];
    BlocksAt(was, frag, h);
    BlockUpdate(was, frag, h, Or(cp[bno / 8], RangeMask(bno % 8, bno % 8 + 1)), Blocks(was, frag)[h][p := true]);
    cp[bno / 8] := Or(cp[bno / 8], RangeMask(bno % 8, bno % 8 + 1));
    assert cp[..] == was[bno / 8 := cp[bno / 8]];
  }

  method ClrBit(frag: nat, cp: array<Byte>, bno: nat)
    requires FragSize(frag) && BlkOf(frag, bno) < BlockCount(frag, cp.Length)
    modifies cp
    ensures Blocks(cp[..], frag) == Assign(old(Blocks(cp[..], frag)), BlkOf(frag, bno), PosOf(frag, bno), false)
  {
    var h, p := BlkOf(frag, bno), PosOf(frag, bno);
    FragNoParts(frag, h, p);
    ghost var was := cp[..];
    BlocksAt(was, frag, h);
    BlockUpdate(was, frag, h, AndNot(cp[bno / 8], RangeMask(bno % 8, bno % 8 + 1)), Blocks(was, frag)[h][p := false]);
    cp[bno / 8] := AndNot(cp[bno / 8], RangeMask(bno % 8, bno % 8 + 1));
    assert cp[..] == was[bno / 8 := cp[bno / 8]];
  }

  function Assign(m: seq<seq<bool>>, h: nat, p: nat, v: bool): seq<seq<bool>>
    requires h < |m| && p < |m[h]|
  {
    m[h := m[h][p := v]]
  }
}
