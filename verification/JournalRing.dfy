// The space of the journal: a ring of disk blocks made of extents, handed out in order and taken back
// in the same order.
module JournalRing {

  /** struct jextent: a run of disk blocks that belongs to the journal. */
  datatype Jextent = Jextent(daddr: nat, blocks: nat)

  function Total(ext: seq<Jextent>): nat {
    if ext == [] then 0 else Total(ext[..|ext| - 1]) + ext[|ext| - 1].blocks
  }

  /** The disk address of ring position p. */
  function Addr(ext: seq<Jextent>, p: nat): nat
    requires p < Total(ext)
  {
    var n := |ext| - 1;
    if p < Total(ext[..n]) then Addr(ext[..n], p) else ext[n].daddr + (p - Total(ext[..n]))
  }

  predicate Inside(e: Jextent, a: nat) { e.daddr <= a < e.daddr + e.blocks }

  /** The extents are not empty and do not overlap. */
  ghost predicate Apart(ext: seq<Jextent>) {
    && (forall i :: 0 <= i < |ext| ==> ext[i].blocks > 0)
    && (forall i, j, a :: 0 <= i < j < |ext| && Inside(ext[i], a) ==> !Inside(ext[j], a))
  }

  lemma {:induction false} TotalPrefix(ext: seq<Jextent>, h: nat)
    requires h < |ext|
    ensures Total(ext[..h]) + ext[h].blocks == Total(ext[..h + 1]) <= Total(ext)
    decreases |ext|
  {
    var n := |ext| - 1;
    assert ext[..h + 1][..h] == ext[..h];
    if h == n {
      assert ext[..h + 1] == ext;
    } else {
      TotalPrefix(ext[..n], h);
      assert ext[..n][..h] == ext[..h] && ext[..n][..h + 1] == ext[..h + 1];
    }
  }

  /** Position off of extent h is where the ring has it. */
  lemma {:induction false} AddrIn(ext: seq<Jextent>, h: nat, off: nat)
    requires h < |ext| && off < ext[h].blocks
    ensures Total(ext[..h]) + off < Total(ext) && Addr(ext, Total(ext[..h]) + off) == ext[h].daddr + off
    decreases |ext|
  {
    var n := |ext| - 1;
    TotalPrefix(ext, h);
    if h < n {
      AddrIn(ext[..n], h, off);
      assert ext[..n][..h] == ext[..h];
    }
  }

  lemma {:induction false} AddrInside(ext: seq<Jextent>, p: nat) returns (h: nat)
    requires p < Total(ext)
    ensures h < |ext| && Inside(ext[h], Addr(ext, p))
    decreases |ext|
  {
    var n := |ext| - 1;
    if p < Total(ext[..n]) {
      h := AddrInside(ext[..n], p);
    } else {
      h := n;
    }
  }

  /** Different ring positions are different disk blocks. */
  lemma {:induction false} AddrInjective(ext: seq<Jextent>, p: nat, q: nat)
    requires Apart(ext) && p < q < Total(ext)
    ensures Addr(ext, p) != Addr(ext, q)
    decreases |ext|
  {
    var n := |ext| - 1;
    if q < Total(ext[..n]) {
      AddrInjective(ext[..n], p, q);
    } else if p < Total(ext[..n]) {
      var h := AddrInside(ext[..n], p);
      assert Inside(ext[h], Addr(ext, p)) && Inside(ext[n], Addr(ext, q));
    }
  }

  /** The ring position of journal block v: v modulo the size of the ring. */
  function Position(v: nat, t: nat): (p: nat)
    requires t > 0
    ensures p < t
  {
    if v < t then v else Position(v - t, t)
  }

  lemma {:induction false} PositionsApart(v: nat, w: nat, t: nat)
    requires v < w < v + t
    ensures Position(v, t) != Position(w, t)
    decreases v
  {
    if v >= t {
      PositionsApart(v - t, w - t, t);
    }
  }

  /** The journal block at which round r of a ring of t blocks starts. */
  function RoundStart(t: nat, r: nat): nat { if r == 0 then 0 else RoundStart(t, r - 1) + t }

  lemma {:induction false} PositionInRound(t: nat, r: nat, p: nat)
    requires p < t
    ensures Position(RoundStart(t, r) + p, t) == p
    decreases r
  {
    if r > 0 {
      PositionInRound(t, r - 1, p);
    }
  }

  /** The disk block of journal block v, counting from the start of the first round. */
  function Block(ext: seq<Jextent>, v: nat): nat
    requires Total(ext) > 0
  {
    Addr(ext, Position(v, Total(ext)))
  }

  /** Within one round of the ring no disk block comes twice. */
  lemma BlocksApart(ext: seq<Jextent>, v: nat, w: nat)
    requires Apart(ext) && v < w < v + Total(ext)
    ensures Block(ext, v) != Block(ext, w)
  {
    var p, q := Position(v, Total(ext)), Position(w, Total(ext));
    PositionsApart(v, w, Total(ext));
    if p < q {
      AddrInjective(ext, p, q);
    } else {
      AddrInjective(ext, q, p);
    }
  }

  /** The cursor of the ring: extent head, offset off, in round r, stands at journal block v. */
  ghost predicate Cursor(ext: seq<Jextent>, head: nat, off: nat, r: nat, v: nat) {
    head < |ext| && off <= ext[head].blocks && v == RoundStart(Total(ext), r) + Total(ext[..head]) + off
  }

  /** A run of journal blocks, from v on, stored at consecutive disk blocks from daddr on. */
  ghost predicate Stored(ext: seq<Jextent>, v: nat, daddr: nat, size: nat)
    requires Total(ext) > 0
  {
    forall w :: v <= w < v + size ==> Block(ext, w) == daddr + (w - v)
  }

  lemma CursorBlocks(ext: seq<Jextent>, head: nat, off: nat, r: nat, v: nat, size: nat)
    requires Cursor(ext, head, off, r, v) && off + size <= ext[head].blocks && Total(ext) > 0
    ensures Stored(ext, v, ext[head].daddr + off, size)
  {
    forall w | v <= w < v + size
      ensures Block(ext, w) == ext[head].daddr + off + (w - v)
    {
      CursorBlock(ext, head, off, r, v, w);
    }
  }

  lemma CursorBlock(ext: seq<Jextent>, head: nat, off: nat, r: nat, v: nat, w: nat)
    requires Cursor(ext, head, off, r, v) && v <= w < v + (ext[head].blocks - off)
    ensures Total(ext) > 0 && Block(ext, w) == ext[head].daddr + off + (w - v)
  {
    var p := off + (w - v);
    AddrIn(ext, head, p);
    PositionInRound(Total(ext), r, Total(ext[..head]) + p);
    assert w == RoundStart(Total(ext), r) + (Total(ext[..head]) + p);
  }

  lemma CursorNext(ext: seq<Jextent>, head: nat, r: nat, v: nat)
    requires Apart(ext) && head < |ext| && Cursor(ext, head, ext[head].blocks, r, v)
    ensures if head + 1 < |ext| then Cursor(ext, head + 1, 0, r, v) else Cursor(ext, 0, 0, r + 1, v)
  {
    TotalPrefix(ext, head);
    if head + 1 == |ext| {
      assert ext[..|ext|] == ext && Total(ext[..0]) == 0;
    }
  }

  /** The blocks left in the extent of the cursor, or in the next one when it is used up. */
  function Contiguous(ext: seq<Jextent>, head: nat, off: nat): nat {
    if head < |ext| && off < ext[head].blocks then ext[head].blocks - off
    else if head + 1 < |ext| then ext[head + 1].blocks
    else if ext != [] then ext[0].blocks
    else 0
  }

  /** The size of the run that is granted for a request. */
  function Granted(ext: seq<Jextent>, head: nat, off: nat, request: nat): nat {
    if Contiguous(ext, head, off) < request then Contiguous(ext, head, off) else request
  }

  /** jblocks_alloc: at most the requested number of blocks, from one extent. */
  method AllocBlocks(ext: seq<Jextent>, head: nat, off: nat, blocks: nat, ghost r: nat, ghost v: nat)
    returns (daddr: nat, actual: nat, head': nat, off': nat, ghost r': nat)
    requires Apart(ext) && Cursor(ext, head, off, r, v)
    ensures Total(ext) > 0 && Stored(ext, v, daddr, actual)
    ensures Cursor(ext, head', off', r', v + actual)
    ensures actual == Granted(ext, head, off, blocks) && (blocks > 0 ==> actual > 0)
    ensures exists h :: 0 <= h < |ext| && ext[h].daddr <= daddr && daddr + actual <= ext[h].daddr + ext[h].blocks
  {
    head', off', r' := head, off, r;
    TotalPrefix(ext, head);
    var freecnt := ext[head'].blocks - off';
    if freecnt == 0 {
      CursorNext(ext, head, r, v);
      off' := 0;
      head' := head' + 1;
      if head' > |ext| - 1 {
        head', r' := 0, r + 1;
      }
      freecnt := ext[head'].blocks;
    }
    if freecnt > blocks {
      freecnt := blocks;
    }
    CursorBlocks(ext, head', off', r', v, freecnt);
    actual := freecnt;
    daddr := ext[head'].daddr + off';
    off' := off' + freecnt;
  }

  /** jblocks_add: the extents with another run of blocks, joined to the last one if it continues it. */
  function Joined(ext: seq<Jextent>, e: Jextent): (r: seq<Jextent>)
    requires ext != []
  {
    var n := |ext| - 1;
    if ext[n].daddr + ext[n].blocks == e.daddr then ext[n := Jextent(ext[n].daddr, ext[n].blocks + e.blocks)]
    else ext + [e]
  }

  ghost predicate Has(ext: seq<Jextent>, a: nat) { exists i :: 0 <= i < |ext| && Inside(ext[i], a) }

  lemma JoinedTotal(ext: seq<Jextent>, e: Jextent)
    requires ext != []
    ensures Total(Joined(ext, e)) == Total(ext) + e.blocks
  {
    var n := |ext| - 1;
    var r := Joined(ext, e);
    if ext[n].daddr + ext[n].blocks == e.daddr {
      assert r[..n] == ext[..n];
    } else {
      assert r[..n + 1] == ext;
    }
  }

  lemma JoinedApart(ext: seq<Jextent>, e: Jextent)
    requires ext != [] && Apart(ext) && e.blocks > 0 && forall a :: Inside(e, a) ==> !Has(ext, a)
    ensures Apart(Joined(ext, e))
  {
    var n := |ext| - 1;
    var r := Joined(ext, e);
    assert forall i :: 0 <= i < n ==> r[i] == ext[i];
    forall i, j, a | 0 <= i < j < |r| && Inside(r[i], a)
      ensures !Inside(r[j], a)
    {
      assert i < |ext|;
      if Inside(ext[i], a) {
        assert Has(ext, a);
      }
    }
  }

  lemma JoinedHas(ext: seq<Jextent>, e: Jextent, a: nat)
    requires ext != []
    ensures Has(Joined(ext, e), a) <==> Has(ext, a) || Inside(e, a)
  {
    var n := |ext| - 1;
    var r := Joined(ext, e);
    if Has(ext, a) {
      var i :| 0 <= i < |ext| && Inside(ext[i], a);
      assert Inside(r[i], a);
    }
    if Inside(e, a) {
      assert Inside(r[|r| - 1], a);
    }
    if Has(r, a) {
      var i :| 0 <= i < |r| && Inside(r[i], a);
      assert i < n ==> r[i] == ext[i];
      assert i >= n ==> Inside(ext[n], a) || Inside(e, a);
    }
  }

  // ---- the runs of blocks in use

  /** The runs in use lie one behind the other in the ring, from journal block lo on. */
  ghost predicate Laid(ext: seq<Jextent>, live: seq<Jextent>, lo: nat) {
    var n := |live| - 1;
    && Total(ext) > 0
    && (live == [] || (Laid(ext, live[..n], lo) && Stored(ext, lo + Total(live[..n]), live[n].daddr, live[n].blocks)))
  }

  lemma {:induction false} LaidAt(ext: seq<Jextent>, live: seq<Jextent>, lo: nat, i: nat)
    requires Laid(ext, live, lo) && i < |live|
    ensures Stored(ext, lo + Total(live[..i]), live[i].daddr, live[i].blocks)
    decreases |live|
  {
    var n := |live| - 1;
    if i < n {
      LaidAt(ext, live[..n], lo, i);
      assert live[..n][..i] == live[..i];
    }
  }

  lemma {:induction false} TotalBefore(live: seq<Jextent>, i: nat, j: nat)
    requires i < j <= |live|
    ensures Total(live[..i]) + live[i].blocks <= Total(live[..j])
    decreases j
  {
    assert live[..j][..j - 1] == live[..j - 1];
    if i < j - 1 {
      TotalBefore(live, i, j - 1);
    }
  }

  lemma {:induction false} TotalTail(live: seq<Jextent>)
    requires live != []
    ensures Total(live) == live[0].blocks + Total(live[1..])
    decreases |live|
  {
    var n := |live| - 1;
    if n > 0 {
      TotalTail(live[..n]);
      assert live[..n][1..] == live[1..][..n - 1];
    } else {
      assert live[..0] == [] && live[1..] == [];
    }
  }

  lemma {:induction false} LaidDrop(ext: seq<Jextent>, live: seq<Jextent>, lo: nat)
    requires Laid(ext, live, lo) && live != []
    ensures Laid(ext, live[1..], lo + live[0].blocks)
    decreases |live|
  {
    var n := |live| - 1;
    if n > 0 {
      LaidDrop(ext, live[..n], lo);
      TotalTail(live[..n]);
      assert live[1..][..n - 1] == live[..n][1..];
    }
  }

  /** The ring's books: what is in use, how much is free, where the next run goes. */
  ghost predicate Kept(ext: seq<Jextent>, live: seq<Jextent>, lo: nat, head: nat, off: nat, round: nat,
                       blocks: nat, free: nat)
  {
    && Apart(ext) && Laid(ext, live, lo)
    && Cursor(ext, head, off, round, lo + Total(live))
    && blocks == Total(ext) && free + Total(live) == blocks
  }

  lemma KeptAppend(ext: seq<Jextent>, live: seq<Jextent>, lo: nat, blocks: nat, free: nat, e: Jextent,
                   head: nat, off: nat, round: nat)
    requires Apart(ext) && Laid(ext, live, lo) && blocks == Total(ext) && free + Total(live) == blocks
    requires e.blocks <= free && Stored(ext, lo + Total(live), e.daddr, e.blocks)
    requires Cursor(ext, head, off, round, lo + Total(live) + e.blocks)
    ensures Kept(ext, live + [e], lo, head, off, round, blocks, free - e.blocks)
  {
    assert (live + [e])[..|live|] == live;
  }

  lemma KeptDrop(ext: seq<Jextent>, live: seq<Jextent>, lo: nat, head: nat, off: nat, round: nat, blocks: nat,
                 free: nat)
    requires Kept(ext, live, lo, head, off, round, blocks, free) && live != []
    ensures Kept(ext, live[1..], lo + live[0].blocks, head, off, round, blocks, free + live[0].blocks)
  {
    LaidDrop(ext, live, lo);
    TotalTail(live);
  }

  /** Runs in use never share a disk block. */
  lemma LiveDisjoint(ext: seq<Jextent>, live: seq<Jextent>, lo: nat, i: nat, j: nat, a: nat)
    requires Apart(ext) && Laid(ext, live, lo) && Total(live) <= Total(ext)
    requires i < j < |live| && Inside(live[i], a)
    ensures !Inside(live[j], a)
  {
    if Inside(live[j], a) {
      LaidAt(ext, live, lo, i);
      LaidAt(ext, live, lo, j);
      var v := lo + Total(live[..i]) + (a - live[i].daddr);
      var w := lo + Total(live[..j]) + (a - live[j].daddr);
      TotalBefore(live, i, j);
      TotalBefore(live, j, |live|);
      assert live[..|live|] == live;
      BlocksApart(ext, v, w);
    }
  }

  /**
   * That what is granted fits into the free space is needed: jblocks_alloc itself does not look at
   * jb_free, and a run of more blocks than are free starts over on the oldest one in use.
   */
  lemma Overrun(ext: seq<Jextent>, live: seq<Jextent>, lo: nat, free: nat, e: Jextent)
    requires Laid(ext, live, lo) && live != [] && live[0].blocks > 0
    requires free + Total(live) == Total(ext)
    requires Stored(ext, lo + Total(live), e.daddr, e.blocks) && free < e.blocks
    ensures Inside(e, live[0].daddr)
  {
    LaidAt(ext, live, lo, 0);
    assert Total(live[..0]) == 0;
    assert Block(ext, lo) == live[0].daddr;
    assert Block(ext, lo + Total(ext)) == e.daddr + free;
  }

  ghost predicate NoneShared(live: seq<Jextent>) {
    forall i, j, a :: 0 <= i < j < |live| && Inside(live[i], a) ==> !Inside(live[j], a)
  }

  /** The runs in use and the next one share no disk block if and only if the next one fits into what is free. */
  lemma FitsExact(ext: seq<Jextent>, live: seq<Jextent>, lo: nat, free: nat, e: Jextent)
    requires Apart(ext) && Laid(ext, live, lo) && free + Total(live) == Total(ext)
    requires forall i :: 0 <= i < |live| ==> live[i].blocks > 0
    requires Stored(ext, lo + Total(live), e.daddr, e.blocks) && e.blocks <= Total(ext)
    ensures NoneShared(live + [e]) <==> e.blocks <= free
  {
    var all := live + [e];
    assert all[..|live|] == live;
    if e.blocks <= free {
      forall i, j, a | 0 <= i < j < |all| && Inside(all[i], a)
        ensures !Inside(all[j], a)
      {
        LiveDisjoint(ext, all, lo, i, j, a);
      }
    } else {
      Overrun(ext, live, lo, free, e);
      assert Inside(all[0], live[0].daddr) && Inside(all[|live|], live[0].daddr);
    }
  }
}
