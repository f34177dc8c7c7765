// The bit-pattern tables of the block allocator, and what a table entry and a pattern test
// say about the maximal free runs of a block.  A map byte is looked at as a row of eight bits,
// low bit first; a block is the row of its fs_frag bits.
module FragTables {
  import opened Runs

  predicate FragSize(frag: nat) { frag == 1 || frag == 2 || frag == 4 || frag == 8 }

  /** The blocks described by one byte of the map. */
  function PerByte(frag: nat): nat
    requires FragSize(frag)
  {
    if frag == 8 then 1 else if frag == 4 then 2 else if frag == 2 then 4 else 8
  }

  /** Where the j-th block of a byte starts. */
  function SubStart(frag: nat, j: nat): nat
    requires FragSize(frag)
  {
    if frag == 8 then 8 * j else if frag == 4 then 4 * j else if frag == 2 then 2 * j else j
  }

  /** blkmap(): the bits of the j-th block of a byte. */
  function SubRow(b: seq<bool>, frag: nat, j: nat): (s: seq<bool>)
    requires |b| == 8 && FragSize(frag) && j < PerByte(frag)
    ensures |s| == frag
  {
    b[SubStart(frag, j)..SubStart(frag, j) + frag]
  }

  /** 1 << k in a byte. */
  function Mask(k: nat): bv8
    requires k < 8
  {
    if k == 0 then 0x01 else if k == 1 then 0x02 else if k == 2 then 0x04 else if k == 3 then 0x08
    else if k == 4 then 0x10 else if k == 5 then 0x20 else if k == 6 then 0x40 else 0x80
  }

  /** One line of eight table entries, selected by the low three bits. */
  function Line(b: seq<bool>, a0: bv8, a1: bv8, a2: bv8, a3: bv8, a4: bv8, a5: bv8, a6: bv8, a7: bv8): bv8
    requires |b| == 8
  {
    if !b[2] then
      if !b[1] then (if !b[0] then a0 else a1) else (if !b[0] then a2 else a3)
    else
      if !b[1] then (if !b[0] then a4 else a5) else (if !b[0] then a6 else a7)
  }

  /** fragtbl124, its 32 lines selected by the high five bits. */
  function FragTbl124(b: seq<bool>): bv8
    requires |b| == 8
  {
    if !b[7] then
      if !b[6] then
        if !b[5] then
          if !b[4] then
            if !b[3] then
              Line(b, 0x00, 0x16, 0x16, 0x2a, 0x16, 0x16, 0x26, 0x4e)
            else
              Line(b, 0x16, 0x16, 0x16, 0x3e, 0x2a, 0x3e, 0x4e, 0x8a)
          else
            if !b[3] then
              Line(b, 0x16, 0x16, 0x16, 0x3e, 0x16, 0x16, 0x36, 0x5e)
            else
              Line(b, 0x16, 0x16, 0x16, 0x3e, 0x3e, 0x3e, 0x5e, 0x9e)
        else
          if !b[4] then
            if !b[3] then
              Line(b, 0x16, 0x16, 0x16, 0x3e, 0x16, 0x16, 0x36, 0x5e)
            else
              Line(b, 0x16, 0x16, 0x16, 0x3e, 0x3e, 0x3e, 0x5e, 0x9e)
          else
            if !b[3] then
              Line(b, 0x2a, 0x3e, 0x3e, 0x2a, 0x3e, 0x3e, 0x2e, 0x6e)
            else
              Line(b, 0x3e, 0x3e, 0x3e, 0x3e, 0x2a, 0x3e, 0x6e, 0xaa)
      else
        if !b[5] then
          if !b[4] then
            if !b[3] then
              Line(b, 0x16, 0x16, 0x16, 0x3e, 0x16, 0x16, 0x36, 0x5e)
            else
              Line(b, 0x16, 0x16, 0x16, 0x3e, 0x3e, 0x3e, 0x5e, 0x9e)
          else
            if !b[3] then
              Line(b, 0x16, 0x16, 0x16, 0x3e, 0x16, 0x16, 0x36, 0x5e)
            else
              Line(b, 0x16, 0x16, 0x16, 0x3e, 0x3e, 0x3e, 0x5e, 0x9e)
        else
          if !b[4] then
            if !b[3] then
              Line(b, 0x26, 0x36, 0x36, 0x2e, 0x36, 0x36, 0x26, 0x6e)
            else
              Line(b, 0x36, 0x36, 0x36, 0x3e, 0x2e, 0x3e, 0x6e, 0xae)
          else
            if !b[3] then
              Line(b, 0x4e, 0x5e, 0x5e, 0x6e, 0x5e, 0x5e, 0x6e, 0x4e)
            else
              Line(b, 0x5e, 0x5e, 0x5e, 0x7e, 0x6e, 0x7e, 0x4e, 0xce)
    else
      if !b[6] then
        if !b[5] then
          if !b[4] then
            if !b[3] then
              Line(b, 0x16, 0x16, 0x16, 0x3e, 0x16, 0x16, 0x36, 0x5e)
            else
              Line(b, 0x16, 0x16, 0x16, 0x3e, 0x3e, 0x3e, 0x5e, 0x9e)
          else
            if !b[3] then
              Line(b, 0x16, 0x16, 0x16, 0x3e, 0x16, 0x16, 0x36, 0x5e)
            else
              Line(b, 0x16, 0x16, 0x16, 0x3e, 0x3e, 0x3e, 0x5e, 0x9e)
        else
          if !b[4] then
            if !b[3] then
              Line(b, 0x16, 0x16, 0x16, 0x3e, 0x16, 0x16, 0x36, 0x5e)
            else
              Line(b, 0x16, 0x16, 0x16, 0x3e, 0x3e, 0x3e, 0x5e, 0x9e)
          else
            if !b[3] then
              Line(b, 0x3e, 0x3e, 0x3e, 0x3e, 0x3e, 0x3e, 0x3e, 0x7e)
            else
              Line(b, 0x3e, 0x3e, 0x3e, 0x3e, 0x3e, 0x3e, 0x7e, 0xbe)
      else
        if !b[5] then
          if !b[4] then
            if !b[3] then
              Line(b, 0x2a, 0x3e, 0x3e, 0x2a, 0x3e, 0x3e, 0x2e, 0x6e)
            else
              Line(b, 0x3e, 0x3e, 0x3e, 0x3e, 0x2a, 0x3e, 0x6e, 0xaa)
          else
            if !b[3] then
              Line(b, 0x3e, 0x3e, 0x3e, 0x3e, 0x3e, 0x3e, 0x3e, 0x7e)
            else
              Line(b, 0x3e, 0x3e, 0x3e, 0x3e, 0x3e, 0x3e, 0x7e, 0xbe)
        else
          if !b[4] then
            if !b[3] then
              Line(b, 0x4e, 0x5e, 0x5e, 0x6e, 0x5e, 0x5e, 0x6e, 0x4e)
            else
              Line(b, 0x5e, 0x5e, 0x5e, 0x7e, 0x6e, 0x7e, 0x4e, 0xce)
          else
            if !b[3] then
              Line(b, 0x8a, 0x9e, 0x9e, 0xaa, 0x9e, 0x9e, 0xae, 0xce)
            else
              Line(b, 0x9e, 0x9e, 0x9e, 0xbe, 0xaa, 0xbe, 0xce, 0x8a)
  }

  /** fragtbl8. */
  function FragTbl8(b: seq<bool>): bv8
    requires |b| == 8
  {
    if !b[7] then
      if !b[6] then
        if !b[5] then
          if !b[4] then
            if !b[3] then
              Line(b, 0x00, 0x01, 0x01, 0x02, 0x01, 0x01, 0x02, 0x04)
            else
              Line(b, 0x01, 0x01, 0x01, 0x03, 0x02, 0x03, 0x04, 0x08)
          else
            if !b[3] then
              Line(b, 0x01, 0x01, 0x01, 0x03, 0x01, 0x01, 0x03, 0x05)
            else
              Line(b, 0x02, 0x03, 0x03, 0x02, 0x04, 0x05, 0x08, 0x10)
        else
          if !b[4] then
            if !b[3] then
              Line(b, 0x01, 0x01, 0x01, 0x03, 0x01, 0x01, 0x03, 0x05)
            else
              Line(b, 0x01, 0x01, 0x01, 0x03, 0x03, 0x03, 0x05, 0x09)
          else
            if !b[3] then
              Line(b, 0x02, 0x03, 0x03, 0x02, 0x03, 0x03, 0x02, 0x06)
            else
              Line(b, 0x04, 0x05, 0x05, 0x06, 0x08, 0x09, 0x10, 0x20)
      else
        if !b[5] then
          if !b[4] then
            if !b[3] then
              Line(b, 0x01, 0x01, 0x01, 0x03, 0x01, 0x01, 0x03, 0x05)
            else
              Line(b, 0x01, 0x01, 0x01, 0x03, 0x03, 0x03, 0x05, 0x09)
          else
            if !b[3] then
              Line(b, 0x01, 0x01, 0x01, 0x03, 0x01, 0x01, 0x03, 0x05)
            else
              Line(b, 0x03, 0x03, 0x03, 0x03, 0x05, 0x05, 0x09, 0x11)
        else
          if !b[4] then
            if !b[3] then
              Line(b, 0x02, 0x03, 0x03, 0x02, 0x03, 0x03, 0x02, 0x06)
            else
              Line(b, 0x03, 0x03, 0x03, 0x03, 0x02, 0x03, 0x06, 0x0a)
          else
            if !b[3] then
              Line(b, 0x04, 0x05, 0x05, 0x06, 0x05, 0x05, 0x06, 0x04)
            else
              Line(b, 0x08, 0x09, 0x09, 0x0a, 0x10, 0x11, 0x20, 0x40)
    else
      if !b[6] then
        if !b[5] then
          if !b[4] then
            if !b[3] then
              Line(b, 0x01, 0x01, 0x01, 0x03, 0x01, 0x01, 0x03, 0x05)
            else
              Line(b, 0x01, 0x01, 0x01, 0x03, 0x03, 0x03, 0x05, 0x09)
          else
            if !b[3] then
              Line(b, 0x01, 0x01, 0x01, 0x03, 0x01, 0x01, 0x03, 0x05)
            else
              Line(b, 0x03, 0x03, 0x03, 0x03, 0x05, 0x05, 0x09, 0x11)
        else
          if !b[4] then
            if !b[3] then
              Line(b, 0x01, 0x01, 0x01, 0x03, 0x01, 0x01, 0x03, 0x05)
            else
              Line(b, 0x01, 0x01, 0x01, 0x03, 0x03, 0x03, 0x05, 0x09)
          else
            if !b[3] then
              Line(b, 0x03, 0x03, 0x03, 0x03, 0x03, 0x03, 0x03, 0x07)
            else
              Line(b, 0x05, 0x05, 0x05, 0x07, 0x09, 0x09, 0x11, 0x21)
      else
        if !b[5] then
          if !b[4] then
            if !b[3] then
              Line(b, 0x02, 0x03, 0x03, 0x02, 0x03, 0x03, 0x02, 0x06)
            else
              Line(b, 0x03, 0x03, 0x03, 0x03, 0x02, 0x03, 0x06, 0x0a)
          else
            if !b[3] then
              Line(b, 0x03, 0x03, 0x03, 0x03, 0x03, 0x03, 0x03, 0x07)
            else
              Line(b, 0x02, 0x03, 0x03, 0x02, 0x06, 0x07, 0x0a, 0x12)
        else
          if !b[4] then
            if !b[3] then
              Line(b, 0x04, 0x05, 0x05, 0x06, 0x05, 0x05, 0x06, 0x04)
            else
              Line(b, 0x05, 0x05, 0x05, 0x07, 0x06, 0x07, 0x04, 0x0c)
          else
            if !b[3] then
              Line(b, 0x08, 0x09, 0x09, 0x0a, 0x09, 0x09, 0x0a, 0x0c)
            else
              Line(b, 0x10, 0x11, 0x11, 0x12, 0x20, 0x21, 0x40, 0x80)
  }

  /** fragtbl[frag]. */
  function FragTbl(frag: nat, b: seq<bool>): bv8
    requires FragSize(frag) && |b| == 8
  {
    if frag == 8 then FragTbl8(b) else FragTbl124(b)
  }

  /** Entry b of fragtbl[frag] has the bit (u_char)(1 << (siz - 1 + frag % NBBY)). */
  predicate TableBit(frag: nat, b: seq<bool>, siz: nat)
    requires FragSize(frag) && |b| == 8 && 1 <= siz <= frag
  {
    FragTbl(frag, b) & Mask(siz - 1 + frag % 8) != 0
  }

  /** The block has a maximal free run of exactly siz. */
  ghost predicate HasRun(s: seq<bool>, siz: nat) { exists p :: 0 <= p < |s| && RunAt(s, p, siz) }

  lemma Run1Of1(s: seq<bool>)
    requires |s| == 1
    ensures HasRun(s, 1) ==
            ((s[0]))
  {
    assert RunAt(s, 0, 1) == (s[0]);
  }

  lemma Run1Of2(s: seq<bool>)
    requires |s| == 2
    ensures HasRun(s, 1) ==
            ((s[0] && !s[1])
         || (s[1] && !s[0]))
  {
    assert RunAt(s, 0, 1) == (s[0] && !s[1]);
    assert RunAt(s, 1, 1) == (s[1] && !s[0]);
  }

  lemma Run2Of2(s: seq<bool>)
    requires |s| == 2
    ensures HasRun(s, 2) ==
            ((s[0] && s[1]))
  {
    assert RunAt(s, 0, 2) == (s[0] && s[1]);
  }

  lemma Run1Of4(s: seq<bool>)
    requires |s| == 4
    ensures HasRun(s, 1) ==
            ((s[0] && !s[1])
         || (s[1] && !s[0] && !s[2])
         || (s[2] && !s[1] && !s[3])
         || (s[3] && !s[2]))
  {
    assert RunAt(s, 0, 1) == (s[0] && !s[1]);
    assert RunAt(s, 1, 1) == (s[1] && !s[0] && !s[2]);
    assert RunAt(s, 2, 1) == (s[2] && !s[1] && !s[3]);
    assert RunAt(s, 3, 1) == (s[3] && !s[2]);
  }

  lemma Run2Of4(s: seq<bool>)
    requires |s| == 4
    ensures HasRun(s, 2) ==
            ((s[0] && s[1] && !s[2])
         || (s[1] && s[2] && !s[0] && !s[3])
         || (s[2] && s[3] && !s[1]))
  {
    assert RunAt(s, 0, 2) == (s[0] && s[1] && !s[2]);
    assert RunAt(s, 1, 2) == (s[1] && s[2] && !s[0] && !s[3]);
    assert RunAt(s, 2, 2) == (s[2] && s[3] && !s[1]);
  }

  lemma Run3Of4(s: seq<bool>)
    requires |s| == 4
    ensures HasRun(s, 3) ==
            ((s[0] && s[1] && s[2] && !s[3])
         || (s[1] && s[2] && s[3] && !s[0]))
  {
    assert RunAt(s, 0, 3) == (s[0] && s[1] && s[2] && !s[3]);
    assert RunAt(s, 1, 3) == (s[1] && s[2] && s[3] && !s[0]);
  }

  lemma Run4Of4(s: seq<bool>)
    requires |s| == 4
    ensures HasRun(s, 4) ==
            ((s[0] && s[1] && s[2] && s[3]))
  {
    assert RunAt(s, 0, 4) == (s[0] && s[1] && s[2] && s[3]);
  }

  lemma Run1Of8(s: seq<bool>)
    requires |s| == 8
    ensures HasRun(s, 1) ==
            ((s[0] && !s[1])
         || (s[1] && !s[0] && !s[2])
         || (s[2] && !s[1] && !s[3])
         || (s[3] && !s[2] && !s[4])
         || (s[4] && !s[3] && !s[5])
         || (s[5] && !s[4] && !s[6])
         || (s[6] && !s[5] && !s[7])
         || (s[7] && !s[6]))
  {
    assert RunAt(s, 0, 1) == (s[0] && !s[1]);
    assert RunAt(s, 1, 1) == (s[1] && !s[0] && !s[2]);
    assert RunAt(s, 2, 1) == (s[2] && !s[1] && !s[3]);
    assert RunAt(s, 3, 1) == (s[3] && !s[2] && !s[4]);
    assert RunAt(s, 4, 1) == (s[4] && !s[3] && !s[5]);
    assert RunAt(s, 5, 1) == (s[5] && !s[4] && !s[6]);
    assert RunAt(s, 6, 1) == (s[6] && !s[5] && !s[7]);
    assert RunAt(s, 7, 1) == (s[7] && !s[6]);
  }

  lemma Run2Of8(s: seq<bool>)
    requires |s| == 8
    ensures HasRun(s, 2) ==
            ((s[0] && s[1] && !s[2])
         || (s[1] && s[2] && !s[0] && !s[3])
         || (s[2] && s[3] && !s[1] && !s[4])
         || (s[3] && s[4] && !s[2] && !s[5])
         || (s[4] && s[5] && !s[3] && !s[6])
         || (s[5] && s[6] && !s[4] && !s[7])
         || (s[6] && s[7] && !s[5]))
  {
    assert RunAt(s, 0, 2) == (s[0] && s[1] && !s[2]);
    assert RunAt(s, 1, 2) == (s[1] && s[2] && !s[0] && !s[3]);
    assert RunAt(s, 2, 2) == (s[2] && s[3] && !s[1] && !s[4]);
    assert RunAt(s, 3, 2) == (s[3] && s[4] && !s[2] && !s[5]);
    assert RunAt(s, 4, 2) == (s[4] && s[5] && !s[3] && !s[6]);
    assert RunAt(s, 5, 2) == (s[5] && s[6] && !s[4] && !s[7]);
    assert RunAt(s, 6, 2) == (s[6] && s[7] && !s[5]);
  }

  lemma Run3Of8(s: seq<bool>)
    requires |s| == 8
    ensures HasRun(s, 3) ==
            ((s[0] && s[1] && s[2] && !s[3])
         || (s[1] && s[2] && s[3] && !s[0] && !s[4])
         || (s[2] && s[3] && s[4] && !s[1] && !s[5])
         || (s[3] && s[4] && s[5] && !s[2] && !s[6])
         || (s[4] && s[5] && s[6] && !s[3] && !s[7])
         || (s[5] && s[6] && s[7] && !s[4]))
  {
    assert RunAt(s, 0, 3) == (s[0] && s[1] && s[2] && !s[3]);
    assert RunAt(s, 1, 3) == (s[1] && s[2] && s[3] && !s[0] && !s[4]);
    assert RunAt(s, 2, 3) == (s[2] && s[3] && s[4] && !s[1] && !s[5]);
    assert RunAt(s, 3, 3) == (s[3] && s[4] && s[5] && !s[2] && !s[6]);
    assert RunAt(s, 4, 3) == (s[4] && s[5] && s[6] && !s[3] && !s[7]);
    assert RunAt(s, 5, 3) == (s[5] && s[6] && s[7] && !s[4]);
  }

  lemma Run4Of8(s: seq<bool>)
    requires |s| == 8
    ensures HasRun(s, 4) ==
            ((s[0] && s[1] && s[2] && s[3] && !s[4])
         || (s[1] && s[2] && s[3] && s[4] && !s[0] && !s[5])
         || (s[2] && s[3] && s[4] && s[5] && !s[1] && !s[6])
         || (s[3] && s[4] && s[5] && s[6] && !s[2] && !s[7])
         || (s[4] && s[5] && s[6] && s[7] && !s[3]))
  {
    assert RunAt(s, 0, 4) == (s[0] && s[1] && s[2] && s[3] && !s[4]);
    assert RunAt(s, 1, 4) == (s[1] && s[2] && s[3] && s[4] && !s[0] && !s[5]);
    assert RunAt(s, 2, 4) == (s[2] && s[3] && s[4] && s[5] && !s[1] && !s[6]);
    assert RunAt(s, 3, 4) == (s[3] && s[4] && s[5] && s[6] && !s[2] && !s[7]);
    assert RunAt(s, 4, 4) == (s[4] && s[5] && s[6] && s[7] && !s[3]);
  }

  lemma Run5Of8(s: seq<bool>)
    requires |s| == 8
    ensures HasRun(s, 5) ==
            ((s[0] && s[1] && s[2] && s[3] && s[4] && !s[5])
         || (s[1] && s[2] && s[3] && s[4] && s[5] && !s[0] && !s[6])
         || (s[2] && s[3] && s[4] && s[5] && s[6] && !s[1] && !s[7])
         || (s[3] && s[4] && s[5] && s[6] && s[7] && !s[2]))
  {
    assert RunAt(s, 0, 5) == (s[0] && s[1] && s[2] && s[3] && s[4] && !s[5]);
    assert RunAt(s, 1, 5) == (s[1] && s[2] && s[3] && s[4] && s[5] && !s[0] && !s[6]);
    assert RunAt(s, 2, 5) == (s[2] && s[3] && s[4] && s[5] && s[6] && !s[1] && !s[7]);
    assert RunAt(s, 3, 5) == (s[3] && s[4] && s[5] && s[6] && s[7] && !s[2]);
  }

  lemma Run6Of8(s: seq<bool>)
    requires |s| == 8
    ensures HasRun(s, 6) ==
            ((s[0] && s[1] && s[2] && s[3] && s[4] && s[5] && !s[6])
         || (s[1] && s[2] && s[3] && s[4] && s[5] && s[6] && !s[0] && !s[7])
         || (s[2] && s[3] && s[4] && s[5] && s[6] && s[7] && !s[1]))
  {
    assert RunAt(s, 0, 6) == (s[0] && s[1] && s[2] && s[3] && s[4] && s[5] && !s[6]);
    assert RunAt(s, 1, 6) == (s[1] && s[2] && s[3] && s[4] && s[5] && s[6] && !s[0] && !s[7]);
    assert RunAt(s, 2, 6) == (s[2] && s[3] && s[4] && s[5] && s[6] && s[7] && !s[1]);
  }

  lemma Run7Of8(s: seq<bool>)
    requires |s| == 8
    ensures HasRun(s, 7) ==
            ((s[0] && s[1] && s[2] && s[3] && s[4] && s[5] && s[6] && !s[7])
         || (s[1] && s[2] && s[3] && s[4] && s[5] && s[6] && s[7] && !s[0]))
  {
    assert RunAt(s, 0, 7) == (s[0] && s[1] && s[2] && s[3] && s[4] && s[5] && s[6] && !s[7]);
    assert RunAt(s, 1, 7) == (s[1] && s[2] && s[3] && s[4] && s[5] && s[6] && s[7] && !s[0]);
  }

  lemma Run8Of8(s: seq<bool>)
    requires |s| == 8
    ensures HasRun(s, 8) ==
            ((s[0] && s[1] && s[2] && s[3] && s[4] && s[5] && s[6] && s[7]))
  {
    assert RunAt(s, 0, 8) == (s[0] && s[1] && s[2] && s[3] && s[4] && s[5] && s[6] && s[7]);
  }

  lemma Table1Size1(b: seq<bool>)
    requires |b| == 8
    ensures (FragTbl124(b) & 0x02 != 0) ==
            (HasRun(b[0..1], 1) || HasRun(b[1..2], 1) || HasRun(b[2..3], 1) || HasRun(b[3..4], 1) || HasRun(b[4..5], 1)
             || HasRun(b[5..6], 1) || HasRun(b[6..7], 1) || HasRun(b[7..8], 1))
  {
    Run1Of1(b[0..1]);
    Run1Of1(b[1..2]);
    Run1Of1(b[2..3]);
    Run1Of1(b[3..4]);
    Run1Of1(b[4..5]);
    Run1Of1(b[5..6]);
    Run1Of1(b[6..7]);
    Run1Of1(b[7..8]);
  }

  lemma Table2Size1(b: seq<bool>)
    requires |b| == 8
    ensures (FragTbl124(b) & 0x04 != 0) ==
            (HasRun(b[0..2], 1) || HasRun(b[2..4], 1) || HasRun(b[4..6], 1) || HasRun(b[6..8], 1))
  {
    Run1Of2(b[0..2]);
    Run1Of2(b[2..4]);
    Run1Of2(b[4..6]);
    Run1Of2(b[6..8]);
  }

  lemma Table2Size2(b: seq<bool>)
    requires |b| == 8
    ensures (FragTbl124(b) & 0x08 != 0) ==
            (HasRun(b[0..2], 2) || HasRun(b[2..4], 2) || HasRun(b[4..6], 2) || HasRun(b[6..8], 2))
  {
    Run2Of2(b[0..2]);
    Run2Of2(b[2..4]);
    Run2Of2(b[4..6]);
    Run2Of2(b[6..8]);
  }

  lemma Table4Size1(b: seq<bool>)
    requires |b| == 8
    ensures (FragTbl124(b) & 0x10 != 0) ==
            (HasRun(b[0..4], 1) || HasRun(b[4..8], 1))
  {
    Run1Of4(b[0..4]);
    Run1Of4(b[4..8]);
  }

  lemma Table4Size2(b: seq<bool>)
    requires |b| == 8
    ensures (FragTbl124(b) & 0x20 != 0) ==
            (HasRun(b[0..4], 2) || HasRun(b[4..8], 2))
  {
    Run2Of4(b[0..4]);
    Run2Of4(b[4..8]);
  }

  lemma Table4Size3(b: seq<bool>)
    requires |b| == 8
    ensures (FragTbl124(b) & 0x40 != 0) ==
            (HasRun(b[0..4], 3) || HasRun(b[4..8], 3))
  {
    Run3Of4(b[0..4]);
    Run3Of4(b[4..8]);
    assert (FragTbl124(b) & 0x40 != 0) == ((b[0] && b[1] && b[2] && !b[3]) || (b[1] && b[2] && b[3] && !b[0])
                                           || (b[4] && b[5] && b[6] && !b[7]) || (b[5] && b[6] && b[7] && !b[4]));
  }

  lemma Table4Size4(b: seq<bool>)
    requires |b| == 8
    ensures (FragTbl124(b) & 0x80 != 0) ==
            (HasRun(b[0..4], 4) || HasRun(b[4..8], 4))
  {
    Run4Of4(b[0..4]);
    Run4Of4(b[4..8]);
    assert (FragTbl124(b) & 0x80 != 0) == ((b[0] && b[1] && b[2] && b[3]) || (b[4] && b[5] && b[6] && b[7]));
  }

  lemma Table8Size1(b: seq<bool>)
    requires |b| == 8
    ensures (FragTbl8(b) & 0x01 != 0) ==
            (HasRun(b, 1))
  {
    Run1Of8(b);
  }

  lemma Table8Size2(b: seq<bool>)
    requires |b| == 8
    ensures (FragTbl8(b) & 0x02 != 0) ==
            (HasRun(b, 2))
  {
    Run2Of8(b);
  }

  lemma Table8Size3(b: seq<bool>)
    requires |b| == 8
    ensures (FragTbl8(b) & 0x04 != 0) ==
            (HasRun(b, 3))
  {
    Run3Of8(b);
  }

  lemma Table8Size4(b: seq<bool>)
    requires |b| == 8
    ensures (FragTbl8(b) & 0x08 != 0) ==
            (HasRun(b, 4))
  {
    Run4Of8(b);
  }

  lemma Table8Size5(b: seq<bool>)
    requires |b| == 8
    ensures (FragTbl8(b) & 0x10 != 0) ==
            (HasRun(b, 5))
  {
    Run5Of8(b);
  }

  lemma Table8Size6(b: seq<bool>)
    requires |b| == 8
    ensures (FragTbl8(b) & 0x20 != 0) ==
            (HasRun(b, 6))
  {
    Run6Of8(b);
  }

  lemma Table8Size7(b: seq<bool>)
    requires |b| == 8
    ensures (FragTbl8(b) & 0x40 != 0) ==
            (HasRun(b, 7))
  {
    Run7Of8(b);
  }

  lemma Table8Size8(b: seq<bool>)
    requires |b| == 8
    ensures (FragTbl8(b) & 0x80 != 0) ==
            (HasRun(b, 8))
  {
    Run8Of8(b);
  }

  /** Some block of the byte has a maximal free run of exactly siz. */
  ghost predicate ByteHasRun(b: seq<bool>, frag: nat, siz: nat)
    requires |b| == 8 && FragSize(frag)
  {
    exists j :: 0 <= j < PerByte(frag) && HasRun(SubRow(b, frag, j), siz)
  }

  lemma Table1(b: seq<bool>)
    requires |b| == 8
    ensures TableBit(1, b, 1) == ByteHasRun(b, 1, 1)
  {
    Table1Size1(b);
    assert SubRow(b, 1, 0) == b[0..1] && SubRow(b, 1, 1) == b[1..2] && SubRow(b, 1, 2) == b[2..3];
    assert SubRow(b, 1, 3) == b[3..4] && SubRow(b, 1, 4) == b[4..5] && SubRow(b, 1, 5) == b[5..6];
    assert SubRow(b, 1, 6) == b[6..7] && SubRow(b, 1, 7) == b[7..8];
  }

  lemma Table2(b: seq<bool>, siz: nat)
    requires |b| == 8 && 1 <= siz <= 2
    ensures TableBit(2, b, siz) == ByteHasRun(b, 2, siz)
  {
    assert SubRow(b, 2, 0) == b[0..2] && SubRow(b, 2, 1) == b[2..4];
    assert SubRow(b, 2, 2) == b[4..6] && SubRow(b, 2, 3) == b[6..8];
    if siz == 1 { Table2Size1(b); } else { Table2Size2(b); }
  }

  lemma Table4(b: seq<bool>, siz: nat)
    requires |b| == 8 && 1 <= siz <= 4
    ensures TableBit(4, b, siz) == ByteHasRun(b, 4, siz)
  {
    assert SubRow(b, 4, 0) == b[0..4] && SubRow(b, 4, 1) == b[4..8];
    match siz
    case 1 => Table4Size1(b);
    case 2 => Table4Size2(b);
    case 3 => Table4Size3(b);
    case _ => Table4Size4(b);
  }

  lemma Table8(b: seq<bool>, siz: nat)
    requires |b| == 8 && 1 <= siz <= 8
    ensures TableBit(8, b, siz) == HasRun(b, siz)
  {
    match siz
    case 1 => Table8Size1(b);
    case 2 => Table8Size2(b);
    case 3 => Table8Size3(b);
    case 4 => Table8Size4(b);
    case 5 => Table8Size5(b);
    case 6 => Table8Size6(b);
    case 7 => Table8Size7(b);
    case _ => Table8Size8(b);
  }

  /** The table bit for siz is set exactly for the bytes that hold such a run. */
  lemma TableIsRun(b: seq<bool>, frag: nat, siz: nat)
    requires |b| == 8 && FragSize(frag) && 1 <= siz <= frag
    ensures TableBit(frag, b, siz) == ByteHasRun(b, frag, siz)
  {
    match frag
    case 1 => Table1(b);
    case 2 => Table2(b, siz);
    case 4 => Table4(b, siz);
    case _ =>
      Table8(b, siz);
      assert SubRow(b, 8, 0) == b;
  }

  function Around(k: nat): bv16
    requires k <= 8
  {
    if k == 0 then 0x3 else if k == 1 then 0x7 else if k == 2 then 0xf else if k == 3 then 0x1f
    else if k == 4 then 0x3f else if k == 5 then 0x7f else if k == 6 then 0xff else if k == 7 then 0x1ff else 0x3ff
  }

  function Inside(k: nat): bv16
    requires k <= 8
  {
    if k == 0 then 0x0 else if k == 1 then 0x2 else if k == 2 then 0x6 else if k == 3 then 0xe
    else if k == 4 then 0x1e else if k == 5 then 0x3e else if k == 6 then 0x7e else if k == 7 then 0xfe else 0x1fe
  }

  /** Bit i of a table constant. */
  predicate PatternBit(x: bv16, i: int) {
    && 0 <= i < 16
    && x & (if i == 0 then 0x1 else if i == 1 then 0x2 else if i == 2 then 0x4 else if i == 3 then 0x8
            else if i == 4 then 0x10 else if i == 5 then 0x20 else if i == 6 then 0x40 else if i == 7 then 0x80
            else if i == 8 then 0x100 else if i == 9 then 0x200 else if i == 10 then 0x400 else if i == 11 then 0x800
            else if i == 12 then 0x1000 else if i == 13 then 0x2000 else if i == 14 then 0x4000 else 0x8000) != 0
  }

  lemma PatternBits(k: nat, i: int)
    requires k <= 8
    ensures PatternBit(Around(k), i) == (0 <= i < k + 2)
    ensures PatternBit(Inside(k), i) == (1 <= i < k + 1)
  {}

  /** Bit i of fragmap << 1. */
  predicate ShiftedBit(v: seq<bool>, i: int) { 1 <= i <= |v| && v[i - 1] }

  /** Bit i of (fragmap << 1) & (around[siz] << p) equals bit i of inside[siz] << p. */
  predicate BitAgrees(v: seq<bool>, siz: nat, p: nat, i: nat)
    requires siz <= 8
  {
    (ShiftedBit(v, i) && PatternBit(Around(siz), i - p)) == PatternBit(Inside(siz), i - p)
  }

  /** ((fragmap << 1) & (around[siz] << p)) == (inside[siz] << p), compared bit by bit. */
  predicate Match(v: seq<bool>, siz: nat, p: nat)
    requires siz <= 8
  {
    forall i :: 0 <= i < 32 ==> BitAgrees(v, siz, p, i)
  }

  /** The pattern test finds exactly the maximal runs. */
  lemma MatchIsRun(v: seq<bool>, siz: nat, p: nat)
    requires |v| <= 8 && 1 <= siz && p + siz <= |v|
    ensures Match(v, siz, p) == RunAt(v, p, siz)
  {
    forall i | 0 <= i < 32
      ensures BitAgrees(v, siz, p, i) ==
              ((ShiftedBit(v, i) && p <= i < p + siz + 2) == (p + 1 <= i < p + siz + 1))
    {
      PatternBits(siz, i - p);
    }
    if Match(v, siz, p) {
      forall i | p <= i < p + siz
        ensures v[i]
      {
        assert BitAgrees(v, siz, p, i + 1);
      }
      if p > 0 { assert BitAgrees(v, siz, p, p); }
      if p + siz < |v| { assert BitAgrees(v, siz, p, p + siz + 1); }
    }
  }
}
