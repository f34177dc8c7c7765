// The journal: segments are numbered, written in any order, completed in order, and their space is
// reclaimed once nothing in memory needs them and a later segment on disk no longer counts on them.
module Journals {
  import opened Basics
  import opened JournalRing

  /**
   * struct jseg.  seq and oldseq are js_seq and js_oldseq, size is in disk blocks, cnt the number of
   * records, plain those of them that no other structure refers to, refs js_refs; synced and written
   * are the state bits COMPLETE and DEPCOMPLETE.
   */
  datatype Jseg = Jseg(daddr: nat, size: nat, seqno: nat, oldseq: nat, cnt: nat, plain: nat, refs: nat,
                       synced: bool, written: bool)
  {
    predicate AllComplete() { synced && written }
  }

  /**
   * The segments in memory, in order.  oldestseg and writeseg are the numbers of the segments that
   * jb_oldestseg and jb_writeseg point to, or nextseq for a null pointer.  counts has the number of
   * records of every segment ever made.
   */
  datatype Log = Log(segs: seq<Jseg>, nextseq: nat, oldestseg: nat, writeseg: nat, oldestwrseq: nat, counts: seq<nat>)
  {
    /** The number of the first segment that is not reclaimed. */
    function First(): int { nextseq - |segs| }
  }

  /**
   * Segment i carries its number and its count.  Nothing refers to it if it is before oldestseg; it
   * keeps its own reference until it is completed.  The oldest-valid numbers only grow.
   */
  ghost predicate InPlace(l: Log, i: nat)
    requires i < |l.segs|
  {
    var s := l.segs[i];
    && s.seqno == l.First() + i < |l.counts| && s.cnt == l.counts[s.seqno]
    && s.oldseq <= s.seqno && s.oldseq <= l.oldestseg
    && (s.seqno < l.oldestseg ==> s.refs == 0)
    && if s.seqno >= l.writeseg then s.refs > s.plain && l.oldestwrseq <= s.oldseq else s.AllComplete()
  }

  function OldOf(segs: seq<Jseg>, i: nat): nat
    requires i < |segs|
  {
    segs[i].oldseq
  }

  /** The oldest-valid numbers grow from segment to segment. */
  ghost predicate Rising(segs: seq<Jseg>) {
    forall i, j :: 0 <= i <= j < |segs| ==> OldOf(segs, i) <= OldOf(segs, j)
  }

  ghost predicate Bounded(l: Log) {
    && 0 <= l.First() <= l.oldestseg <= l.nextseq && l.First() <= l.writeseg <= l.nextseq
    && |l.counts| == l.nextseq && l.oldestwrseq <= l.oldestseg
  }

  /** Segment q is before the oldest valid one on disk, or is that one and has no records. */
  predicate Outdated(q: nat, oldestwrseq: nat, cnt: nat) { q < oldestwrseq || (q == oldestwrseq && cnt == 0) }

  /** Only such segments have been reclaimed. */
  ghost predicate Reclaimed(l: Log) {
    forall q :: 0 <= q < l.First() && q < |l.counts| ==> Outdated(q, l.oldestwrseq, l.counts[q])
  }

  ghost predicate Sane(l: Log) {
    && Bounded(l) && Rising(l.segs) && Reclaimed(l)
    && forall i :: 0 <= i < |l.segs| ==> InPlace(l, i)
  }

  /** oldestseg is exactly the first segment that something refers to. */
  ghost predicate Exact(l: Log) {
    Bounded(l) && (l.oldestseg < l.nextseq ==> l.segs[l.oldestseg - l.First()].refs != 0)
  }

  /** The next segment to complete is not ready, so no completion is overdue. */
  ghost predicate Settled(l: Log) {
    Bounded(l) && (l.writeseg < l.nextseq ==> !l.segs[l.writeseg - l.First()].AllComplete())
  }

  /**
   * Journal safety: the latest completed segment tells recovery to start at oldestwrseq.  From there
   * on every segment that has records is intact, every segment that memory still depends on is
   * included, and the same holds for any later segment recovery may find instead.
   */
  lemma RecoveryWindow(l: Log, q: nat)
    requires Sane(l) && q < l.nextseq
    ensures l.oldestwrseq <= q && l.counts[q] != 0 ==> l.First() <= q
    ensures l.First() <= q && l.segs[q - l.First()].refs != 0 ==> l.oldestwrseq <= q
    ensures forall i :: 0 <= i < |l.segs| && l.writeseg <= l.segs[i].seqno && l.segs[i].oldseq <= q && l.counts[q] != 0
              ==>
              l.First() <= q
  {
    if l.First() <= q {
      assert InPlace(l, q - l.First());
    } else {
      assert Outdated(q, l.oldestwrseq, l.counts[q]);
    }
    forall i | 0 <= i < |l.segs| && l.writeseg <= l.segs[i].seqno && l.segs[i].oldseq <= q && l.counts[q] != 0
      ensures l.First() <= q
    {
      assert InPlace(l, i);
    }
  }

  lemma RisingTail(segs: seq<Jseg>)
    requires Rising(segs) && segs != []
    ensures Rising(segs[1..])
  {
    forall i, j | 0 <= i <= j < |segs[1..]|
      ensures OldOf(segs[1..], i) <= OldOf(segs[1..], j)
    {
      assert OldOf(segs, i + 1) <= OldOf(segs, j + 1);
    }
  }

  lemma RisingSame(a: seq<Jseg>, b: seq<Jseg>)
    requires Rising(a) && |a| == |b| && forall i :: 0 <= i < |a| ==> a[i].oldseq == b[i].oldseq
    ensures Rising(b)
  {
    forall i, j | 0 <= i <= j < |b|
      ensures OldOf(b, i) <= OldOf(b, j)
    {
      assert OldOf(a, i) <= OldOf(a, j);
    }
  }

  // ---- steps on the log

  function WithSeg(l: Log, i: nat, s: Jseg): Log
    requires i < |l.segs|
  {
    l.(segs := l.segs[i := s])
  }

  function Appended(l: Log, s: Jseg): Log {
    l.(segs := l.segs + [s], nextseq := l.nextseq + 1, counts := l.counts + [s.cnt])
  }

  lemma AppendSane(l: Log, s: Jseg)
    requires Sane(l) && s.seqno == l.nextseq && s.oldseq == l.oldestseg && s.refs > s.plain
    ensures Sane(Appended(l, s))
  {
    var t := Appended(l, s);
    forall i | 0 <= i < |t.segs|
      ensures InPlace(t, i)
    {
      if i < |l.segs| {
        assert InPlace(l, i) && t.segs[i] == l.segs[i];
      }
    }
    AppendRising(l, s);
    SameReclaimed(l, t);
  }

  lemma AppendSettled(l: Log, s: Jseg)
    requires Exact(l) && Settled(l) && s.refs > 0 && !s.written
    ensures Exact(Appended(l, s)) && Settled(Appended(l, s))
  {
    var t := Appended(l, s);
    assert t.First() == l.First();
    assert forall i :: 0 <= i < |l.segs| ==> t.segs[i] == l.segs[i];
  }

  lemma AppendRising(l: Log, s: Jseg)
    requires Sane(l) && s.oldseq == l.oldestseg
    ensures Rising(l.segs + [s])
  {
    var t := l.segs + [s];
    forall i, j | 0 <= i <= j < |t|
      ensures OldOf(t, i) <= OldOf(t, j)
    {
      if j < |l.segs| {
        assert OldOf(l.segs, i) <= OldOf(l.segs, j);
      } else if i < |l.segs| {
        assert InPlace(l, i);
      }
    }
  }

  lemma SameReclaimed(l: Log, t: Log)
    requires Reclaimed(l) && t.First() == l.First() <= |l.counts| && l.oldestwrseq <= t.oldestwrseq
    requires l.counts <= t.counts
    ensures Reclaimed(t)
  {
    forall q | 0 <= q < t.First() && q < |t.counts|
      ensures Outdated(q, t.oldestwrseq, t.counts[q])
    {
      assert Outdated(q, l.oldestwrseq, l.counts[q]);
    }
  }

  /** The segment is the same except for its marks and for references it lost. */
  predicate Wears(s: Jseg, old_: Jseg) {
    && s == old_.(refs := s.refs, synced := s.synced, written := s.written)
    && (old_.synced ==> s.synced) && (old_.written ==> s.written)
    && s.refs <= old_.refs
  }

  lemma ChangeSane(l: Log, i: nat, s: Jseg)
    requires Sane(l) && i < |l.segs| && Wears(s, l.segs[i])
    requires l.First() + i >= l.writeseg ==> s.refs > s.plain
    ensures Sane(WithSeg(l, i, s)) && WithSeg(l, i, s).First() == l.First()
  {
    var t := WithSeg(l, i, s);
    forall k | 0 <= k < |t.segs|
      ensures InPlace(t, k) && t.segs[k].oldseq == l.segs[k].oldseq
    {
      assert InPlace(l, k);
    }
    RisingSame(l.segs, t.segs);
    SameReclaimed(l, t);
  }

  /** The segment at writeseg completes: its oldest-valid number becomes that of the disk. */
  function Completed(l: Log): Log
    requires l.First() <= l.writeseg < l.nextseq
    requires l.segs[l.writeseg - l.First()].refs > l.segs[l.writeseg - l.First()].plain
  {
    var i := l.writeseg - l.First();
    var s := l.segs[i];
    l.(segs := l.segs[i := s.(refs := s.refs - s.plain - 1)], writeseg := l.writeseg + 1, oldestwrseq := s.oldseq)
  }

  lemma CompleteSane(l: Log)
    requires Sane(l) && l.writeseg < l.nextseq && l.segs[l.writeseg - l.First()].AllComplete()
    ensures l.segs[l.writeseg - l.First()].refs > l.segs[l.writeseg - l.First()].plain
    ensures Sane(Completed(l)) && l.oldestwrseq <= Completed(l).oldestwrseq
  {
    var i := l.writeseg - l.First();
    assert InPlace(l, i);
    var t := Completed(l);
    forall k | 0 <= k < |t.segs|
      ensures InPlace(t, k) && t.segs[k].oldseq == l.segs[k].oldseq
    {
      assert InPlace(l, k);
      if k >= i {
        assert OldOf(l.segs, i) <= OldOf(l.segs, k);
      }
    }
    RisingSame(l.segs, t.segs);
    SameReclaimed(l, t);
  }

  /** The test of free_jsegs: nothing depends on the segment and the disk no longer counts on it. */
  predicate Reclaimable(s: Jseg, oldestwrseq: nat) {
    && s.refs == 0 && s.AllComplete() && s.seqno <= oldestwrseq
    && !(s.seqno == oldestwrseq && s.cnt != 0)
  }

  function Freed(l: Log): Log
    requires l.segs != []
  {
    l.(segs := l.segs[1..], oldestseg := if l.oldestseg == l.segs[0].seqno then l.oldestseg + 1 else l.oldestseg)
  }

  lemma FreeSane(l: Log)
    requires Sane(l) && l.segs != [] && Reclaimable(l.segs[0], l.oldestwrseq)
    ensures Sane(Freed(l))
  {
    var t := Freed(l);
    assert InPlace(l, 0);
    forall i | 0 <= i < |t.segs|
      ensures InPlace(t, i)
    {
      assert InPlace(l, i + 1) && t.segs[i] == l.segs[i + 1];
    }
    RisingTail(l.segs);
    forall q | 0 <= q < t.First() && q < |t.counts|
      ensures Outdated(q, t.oldestwrseq, t.counts[q])
    {
      assert q < l.First() ==> Outdated(q, l.oldestwrseq, l.counts[q]);
    }
  }

  lemma AdvanceSane(l: Log)
    requires Sane(l) && l.oldestseg < l.nextseq && l.segs[l.oldestseg - l.First()].refs == 0
    ensures Sane(l.(oldestseg := l.oldestseg + 1))
  {
    var t := l.(oldestseg := l.oldestseg + 1);
    forall i | 0 <= i < |t.segs|
      ensures InPlace(t, i)
    {
      assert InPlace(l, i);
    }
    SameReclaimed(l, t);
  }

  /** The blocks softdep_process_journal asks for: room for the pending records, at most a file system block. */
  function Request(pending: nat, perBlock: nat, devBlocks: nat, fsDevs: nat): nat
    requires perBlock > 0
  {
    if pending == 0 then devBlocks
    else if pending < fsDevs * perBlock then HowMany(pending, perBlock) * devBlocks
    else fsDevs * devBlocks
  }

  function Fewer(a: nat, b: nat): nat { if a < b then a else b }

  /** How many of the pending records fit into that many blocks. */
  function Fitting(pending: nat, actual: nat, perBlock: nat, devBlocks: nat): nat
    requires devBlocks > 0
  {
    Fewer(pending, (actual / devBlocks) * perBlock)
  }

  /** The number of device blocks asked for. */
  function Units(pending: nat, perBlock: nat, fsDevs: nat): nat
    requires perBlock > 0
  {
    Request(pending, perBlock, 1, fsDevs)
  }

  /**
   * The request is for a file system block or less.  With all of it granted all pending records fit,
   * or as many as a file system block holds, and with a device block less they would not.
   */
  lemma RequestExact(pending: nat, perBlock: nat, devBlocks: nat, fsDevs: nat)
    requires perBlock > 0 && devBlocks > 0 && fsDevs > 0
    ensures var k, most := Units(pending, perBlock, fsDevs), Fewer(pending, fsDevs * perBlock);
            && 0 < k <= fsDevs && Request(pending, perBlock, devBlocks, fsDevs) == k * devBlocks
            && Fitting(pending, k * devBlocks, perBlock, devBlocks) == most
            && (pending == 0 ==> k == 1)
            && (pending > 0 ==> Fitting(pending, (k - 1) * devBlocks, perBlock, devBlocks) < most)
  {
    var k := Units(pending, perBlock, fsDevs);
    HowManyTight(pending, perBlock);
    assert (k - 1) * perBlock + perBlock == k * perBlock;
    if 0 < pending < fsDevs * perBlock && k > fsDevs {
      Scale(fsDevs, k - 1, perBlock);
    }
    DivMod(k * devBlocks, devBlocks, k, 0);
    DivMod((k - 1) * devBlocks, devBlocks, k - 1, 0);
  }

  /** The runs of blocks in use are those of the segments. */
  ghost predicate Matches(live: seq<Jextent>, segs: seq<Jseg>) {
    |live| == |segs| && forall i :: 0 <= i < |segs| ==> live[i] == Jextent(segs[i].daddr, segs[i].size)
  }

  /** Segment q of the log. */
  function SegOf(l: Log, q: nat): Jseg
    requires l.First() <= q < l.nextseq
  {
    l.segs[q - l.First()]
  }

  /** Segments that are not yet complete are as they were. */
  ghost predicate PendingKept(l: Log, t: Log) {
    && t.nextseq == l.nextseq && l.First() <= l.writeseg <= t.writeseg && t.First() <= t.writeseg
    && forall q :: t.writeseg <= q < t.nextseq ==> SegOf(t, q) == SegOf(l, q)
  }

  /** What is left of b after reclaimable segments went from its front. */
  ghost predicate Swept(a: seq<Jseg>, b: seq<Jseg>, oldestwrseq: nat) {
    && |a| <= |b| && a == b[|b| - |a|..]
    && forall k :: 0 <= k < |b| - |a| ==> Reclaimable(b[k], oldestwrseq)
  }

  /** Sweeping on with a later number. */
  lemma SweptMore(a: seq<Jseg>, b: seq<Jseg>, c: seq<Jseg>, before: nat, oldestwrseq: nat)
    requires Swept(a, b, before) && Swept(c, a, oldestwrseq) && before <= oldestwrseq
    ensures Swept(c, b, oldestwrseq)
  {
    var n := |b| - |a|;
    forall k | 0 <= k < |b| - |c|
      ensures Reclaimable(b[k], oldestwrseq)
    {
      if k >= n {
        assert b[k] == a[k - n];
      } else {
        assert Reclaimable(b[k], before);
      }
    }
  }

  lemma SweptPending(l: Log, t: Log)
    requires Swept(t.segs, l.segs, t.oldestwrseq) && t.nextseq == l.nextseq && t.writeseg == l.writeseg
    requires l.First() <= l.writeseg && t.First() <= t.writeseg
    ensures PendingKept(l, t)
  {
  }

  lemma SweptSettled(l: Log, t: Log)
    requires Swept(t.segs, l.segs, t.oldestwrseq) && t.nextseq == l.nextseq && t.writeseg == l.writeseg && Bounded(t)
    ensures Settled(l) ==> Settled(t)
  {
  }

  /** A segment that completes loses its own reference and those of its plain records. */
  function Done(s: Jseg): Jseg { s.(refs := if s.refs > s.plain then s.refs - s.plain - 1 else 0) }

  /** The segments when those from writeseg to w have completed. */
  function DoneSegs(l: Log, w: nat): (r: seq<Jseg>)
    ensures |r| == |l.segs|
    ensures forall i :: 0 <= i < |r| ==>
              r[i] == if l.writeseg <= l.First() + i < w then Done(l.segs[i]) else l.segs[i]
  {
    seq(|l.segs|, i requires 0 <= i < |l.segs| =>
          if l.writeseg <= l.First() + i < w then Done(l.segs[i]) else l.segs[i])
  }

  /** Segments up to t.writeseg have completed, the last of them set oldestwrseq, and the front was swept. */
  ghost predicate Completes(l: Log, t: Log) {
    && t.nextseq == l.nextseq && t.counts == l.counts && l.First() <= l.writeseg <= t.writeseg <= l.nextseq
    && (forall p :: l.writeseg <= p < t.writeseg ==> SegOf(l, p).AllComplete())
    && t.oldestwrseq == (if t.writeseg == l.writeseg then l.oldestwrseq else SegOf(l, t.writeseg - 1).oldseq)
    && Swept(t.segs, DoneSegs(l, t.writeseg), t.oldestwrseq)
  }

  lemma CompletesNone(l: Log)
    requires l.First() <= l.writeseg <= l.nextseq
    ensures Completes(l, l)
  {
    assert DoneSegs(l, l.writeseg) == l.segs;
  }

  /** One more segment completes, and the front is swept again. */
  lemma CompletesNext(l: Log, t: Log, u: Log)
    requires Completes(l, t) && Bounded(t) && t.writeseg < t.nextseq && SegOf(t, t.writeseg).AllComplete()
    requires SegOf(t, t.writeseg).refs > SegOf(t, t.writeseg).plain
    requires u.nextseq == t.nextseq && u.counts == t.counts && u.writeseg == t.writeseg + 1
    requires t.oldestwrseq <= u.oldestwrseq == SegOf(t, t.writeseg).oldseq
             && Swept(u.segs, Completed(t).segs, u.oldestwrseq)
    ensures Completes(l, u)
  {
    hide Swept, Completed, DoneSegs;
    var e, n := DoneSegs(l, u.writeseg), |l.segs| - |t.segs|;
    DoneNext(l, t, u.writeseg);
    SweptMore(e[n..], e, u.segs, t.oldestwrseq, u.oldestwrseq);
  }

  lemma DoneNext(l: Log, t: Log, w: nat)
    requires Completes(l, t) && Bounded(t) && t.writeseg < t.nextseq && w == t.writeseg + 1
    requires SegOf(t, t.writeseg).refs > SegOf(t, t.writeseg).plain
    ensures SegOf(t, t.writeseg) == SegOf(l, t.writeseg)
    ensures var e, n := DoneSegs(l, w), |l.segs| - |t.segs|;
            n >= 0 && Completed(t).segs == e[n..] && Swept(e[n..], e, t.oldestwrseq)
  {
    hide Reclaimable;
    var d, e, n := DoneSegs(l, t.writeseg), DoneSegs(l, w), |l.segs| - |t.segs|;
    var i := t.writeseg - l.First();
    assert t.segs == d[n..] && n <= i;
    assert SegOf(t, t.writeseg) == d[i] == l.segs[i];
    assert forall k :: 0 <= k < |d| && k != i ==> e[k] == d[k];
    assert e[i] == Done(d[i]);
    assert Completed(t).segs == e[n..];
  }

  lemma CompletesSwept(l: Log, t: Log, u: Log)
    requires Completes(l, t) && u == t.(segs := u.segs, oldestseg := u.oldestseg)
             && Swept(u.segs, t.segs, u.oldestwrseq)
    ensures Completes(l, u)
  {
    SweptMore(t.segs, DoneSegs(l, t.writeseg), u.segs, t.oldestwrseq, u.oldestwrseq);
  }

  lemma CompletesPending(l: Log, t: Log)
    requires Completes(l, t) && t.First() <= t.writeseg
    ensures PendingKept(l, t)
  {
    forall q | t.writeseg <= q < t.nextseq
      ensures SegOf(t, q) == SegOf(l, q)
    {
      assert SegOf(t, q) == DoneSegs(l, t.writeseg)[q - l.First()];
    }
  }

  /** Nothing is left to reclaim, and segments that linger without a referenced one force a new one. */
  ghost predicate Clean(l: Log, needseg: bool) {
    l.segs != [] ==> !Reclaimable(l.segs[0], l.oldestwrseq) && (l.oldestseg == l.nextseq ==> needseg)
  }

  lemma PendingTrans(a: Log, b: Log, c: Log)
    requires PendingKept(a, b) && PendingKept(b, c)
    ensures PendingKept(a, c)
  {
    forall q | c.writeseg <= q < c.nextseq
      ensures SegOf(c, q) == SegOf(a, q)
    {
      assert SegOf(c, q) == SegOf(b, q);
    }
  }

  /** The flush started at q reaches segment p: nothing from p to q was marked before. */
  predicate FlushReaches(l: Log, p: nat, q: nat)
    requires l.First() <= p && q < l.nextseq
  {
    p <= q && forall j :: p <= j <= q ==> !SegOf(l, j).synced
  }

  /** The log when the flush that started at q has marked its segments. */
  function Flushed(l: Log, q: nat): (t: Log)
    requires 0 <= l.First() <= q < l.nextseq
    ensures t == l.(segs := t.segs) && |t.segs| == |l.segs|
    ensures forall i :: 0 <= i < |l.segs| ==>
              t.segs[i] == l.segs[i].(synced := l.segs[i].synced || FlushReaches(l, l.First() + i, q))
  {
    l.(segs := seq(|l.segs|, i requires 0 <= i < |l.segs| =>
                     l.segs[i].(synced := l.segs[i].synced || FlushReaches(l, l.First() + i, q))))
  }

  /** Marking a segment or releasing it can make only that segment ready or unreferenced. */
  lemma ChangeSettled(l: Log, i: nat, s: Jseg)
    requires Exact(l) && Settled(l) && i < |l.segs| && Wears(s, l.segs[i])
    ensures Settled(WithSeg(l, i, s)) || l.First() + i == l.writeseg
    ensures s.AllComplete() == l.segs[i].AllComplete() ==> Settled(WithSeg(l, i, s))
    ensures s.refs != 0 || l.segs[i].refs == 0 ==> Exact(WithSeg(l, i, s))
  {
  }

  /** The loop of softdep_synchronize_completed: mark segments backwards from n until a marked one. */
  method MarkSynced(segs: seq<Jseg>, n: nat) returns (r: seq<Jseg>, m: nat)
    requires n <= |segs|
    ensures m <= n && Synced(segs, m, n, r)
    ensures forall k :: m <= k < n ==> !segs[k].synced
    ensures m > 0 ==> segs[m - 1].synced
  {
    r, m := segs, n;
    while m > 0 && !segs[m - 1].synced
      invariant m <= n && Synced(segs, m, n, r)
      invariant forall k :: m <= k < n ==> !segs[k].synced
    {
      r := r[m - 1 := segs[m - 1].(synced := true)];
      m := m - 1;
    }
  }

  ghost predicate Synced(segs: seq<Jseg>, m: nat, n: nat, r: seq<Jseg>) {
    && m <= n <= |segs| == |r|
    && forall k :: 0 <= k < |segs| ==> r[k] == if m <= k < n then segs[k].(synced := true) else segs[k]
  }

  lemma SyncSane(l: Log, m: nat, n: nat, r: seq<Jseg>)
    requires Sane(l) && Synced(l.segs, m, n, r)
    ensures Sane(l.(segs := r))
  {
    var t := l.(segs := r);
    forall k | 0 <= k < |r|
      ensures InPlace(t, k) && r[k].oldseq == l.segs[k].oldseq
    {
      assert InPlace(l, k);
    }
    RisingSame(l.segs, r);
    SameReclaimed(l, t);
  }

  /** If a segment becomes ready that is next to complete, it is the one the flush stopped at. */
  lemma SyncSettled(l: Log, m: nat, n: nat, r: seq<Jseg>)
    requires Sane(l) && Exact(l) && Settled(l) && Synced(l.segs, m, n, r)
    requires forall k :: m <= k < n ==> !l.segs[k].synced
    ensures Exact(l.(segs := r)) && (Settled(l.(segs := r)) || (m < n && l.writeseg == l.First() + m))
  {
    var w := l.writeseg - l.First();
    assert 0 < w <= |l.segs| ==> InPlace(l, w - 1);
  }

  /** Only segments that have completed can be reclaimed, and those are marked already. */
  lemma SyncClean(l: Log, m: nat, n: nat, r: seq<Jseg>, needseg: bool)
    requires Sane(l) && Synced(l.segs, m, n, r) && Clean(l, needseg)
    ensures Clean(l.(segs := r), needseg)
  {
    assert l.segs != [] ==> InPlace(l, 0);
  }

  lemma FlushExact(l: Log, m: nat, n: nat, q: nat, r: seq<Jseg>)
    requires 0 <= l.First() <= q < l.nextseq && n == q - l.First() + 1 && Synced(l.segs, m, n, r)
    requires forall k :: m <= k < n ==> !l.segs[k].synced
    requires m > 0 ==> l.segs[m - 1].synced
    ensures l.(segs := r) == Flushed(l, q)
  {
    forall i | 0 <= i < |r|
      ensures r[i] == Flushed(l, q).segs[i]
    {
      var p := l.First() + i;
      if i < m {
        assert p <= q ==> !FlushReaches(l, p, q) by {
          assert SegOf(l, l.First() + m - 1).synced;
        }
      } else if i < n {
        assert forall j :: p <= j <= q ==> SegOf(l, j) == l.segs[j - l.First()];
      }
    }
  }

  class Journal {
    var extents: seq<Jextent>
    var head: nat
    var off: nat
    var blocks: nat
    var free: nat
    var segs: seq<Jseg>
    var nextseq: nat
    var oldestseg: nat
    var writeseg: nat
    var oldestwrseq: nat
    var needseg: bool

    /** The disk blocks of each segment, and the journal block of the first. */
    ghost var live: seq<Jextent>
    ghost var lo: nat
    ghost var round: nat
    ghost var counts: seq<nat>
    /** The segments in the order in which they completed. */
    ghost var completed: seq<nat>

    ghost function Now(): Log
      reads this
    {
      Log(segs, nextseq, oldestseg, writeseg, oldestwrseq, counts)
    }

    ghost predicate InOrder()
      reads this
    {
      |completed| == writeseg && forall k :: 0 <= k < |completed| ==> completed[k] == k
    }

    /** What holds even while completed segments wait to be reclaimed. */
    ghost predicate Loose()
      reads this
    {
      Sane(Now()) && Matches(live, segs) && Kept(extents, live, lo, head, off, round, blocks, free) && InOrder()
    }

    ghost predicate Valid()
      reads this
    {
      Loose() && Exact(Now()) && Settled(Now()) && Clean(Now(), needseg)
    }

    /** jblocks_create and the first jblocks_add. */
    constructor (daddr: nat, size: nat)
      requires size > 0
      ensures Valid() && extents == [Jextent(daddr, size)] && segs == [] && nextseq == 0
    {
      extents, head, off, blocks, free := [Jextent(daddr, size)], 0, 0, size, size;
      segs, nextseq, oldestseg, writeseg, oldestwrseq, needseg := [], 0, 0, 0, 0, false;
      live, lo, round, counts, completed := [], 0, 0, [], [];
      assert [Jextent(daddr, size)][..0] == [];
      assert Total([Jextent(daddr, size)]) == Total([]) + size;
    }

    /** jblocks_add: more blocks for the ring, before its first use. */
    method AddBlocks(daddr: nat, size: nat)
      requires Valid() && nextseq == 0 && lo == 0 && head == 0 && off == 0 && round == 0 && size > 0
      requires forall a :: Inside(Jextent(daddr, size), a) ==> !Has(extents, a)
      modifies this`extents, this`blocks, this`free
      ensures Valid() && blocks == old(blocks) + size
      ensures forall a :: Has(extents, a) <==> Has(old(extents), a) || Inside(Jextent(daddr, size), a)
    {
      var e := Jextent(daddr, size);
      forall a
        ensures Has(Joined(extents, e), a) <==> Has(extents, a) || Inside(e, a)
      {
        JoinedHas(extents, e, a);
      }
      JoinedTotal(extents, e);
      JoinedApart(extents, e);
      blocks, free, extents := blocks + size, free + size, Joined(extents, e);
      assert extents[..0] == [];
    }

    /** free_jseg: the oldest segment goes and its blocks are free again. */
    method FreeJseg()
      requires Loose() && segs != [] && Reclaimable(segs[0], oldestwrseq)
      modifies this`segs, this`oldestseg, this`free, this`lo, this`live
      ensures Loose() && segs == old(segs)[1..] && free == old(free) + old(segs)[0].size
      ensures oldestseg >= old(oldestseg)
    {
      hide Kept;
      ghost var l := Now();
      FreeSane(l);
      KeptDrop(extents, live, lo, head, off, round, blocks, free);
      if oldestseg == segs[0].seqno {
        oldestseg := oldestseg + 1;
      }
      free, lo, live := free + segs[0].size, lo + segs[0].size, live[1..];
      segs := segs[1..];
      assert Now() == Freed(l);
    }

    /** free_jsegs: give back the space of the segments that may go, oldest first. */
    method FreeJsegs()
      requires Loose()
      modifies this`segs, this`oldestseg, this`free, this`needseg, this`lo, this`live
      ensures Loose() && Exact(Now()) && Clean(Now(), needseg)
      ensures needseg <==> old(needseg) || (oldestseg == nextseq && segs != [])
      ensures oldestseg >= old(oldestseg)
      ensures old(Settled(Now())) ==> Settled(Now())
      ensures Swept(segs, old(segs), oldestwrseq)
    {
      hide Matches;
      ghost var l := Now();
      FreeReady();
      FindOldest();
      if oldestseg == nextseq && segs != [] {
        needseg := true;
      }
      SweptSettled(l, Now());
    }

    method FreeReady()
      requires Loose()
      modifies this`segs, this`oldestseg, this`free, this`lo, this`live
      ensures Loose() && oldestseg >= old(oldestseg)
      ensures segs != [] ==> !Reclaimable(segs[0], oldestwrseq)
      ensures Swept(segs, old(segs), oldestwrseq)
    {
      hide Loose;
      while segs != [] && Reclaimable(segs[0], oldestwrseq)
        invariant Loose() && oldestseg >= old(oldestseg)
        invariant Swept(segs, old(segs), oldestwrseq)
        decreases |segs|
      {
        FreeJseg();
      }
    }

    /** The loop that finds the oldest segment that something refers to. */
    method FindOldest()
      requires Loose()
      modifies this`oldestseg
      ensures Loose() && Exact(Now()) && oldestseg >= old(oldestseg)
    {
      while oldestseg < nextseq && segs[oldestseg - (nextseq - |segs|)].refs == 0
        invariant Loose() && oldestseg >= old(oldestseg)
      {
        AdvanceSane(Now());
        oldestseg := oldestseg + 1;
      }
    }

    /**
     * The part of softdep_process_journal that makes a segment: pending records, plain of them
     * without a reference from elsewhere; nothing happens when there is nothing to write or no space.
     */
    method NewSegment(pending: nat, plain: nat, perBlock: nat, devBlocks: nat, fsDevs: nat, flush: bool)
      returns (made: bool)
      requires Valid() && perBlock > 0 && devBlocks > 0 && fsDevs > 0
      requires free > 0 ==> Granted(extents, head, off, Request(pending, perBlock, devBlocks, fsDevs)) <= free
      modifies this`head, this`off, this`free, this`segs, this`nextseq, this`needseg, this`round, this`live, this`counts
      ensures Valid()
      ensures made <==> (pending > 0 || old(needseg)) && old(free) > 0
      ensures made ==> nextseq == old(nextseq) + 1 && |segs| == |old(segs)| + 1 && segs[..|old(segs)|] == old(segs)
      ensures made ==> var s := segs[|old(segs)|];
        && s.seqno == old(nextseq) && s.oldseq == oldestseg && s.refs == s.cnt + 1
        && s.cnt == Fitting(pending, s.size, perBlock, devBlocks) && s.plain == Fewer(plain, s.cnt)
        && s.synced == !flush && !s.written
        && s.size == Granted(extents, old(head), old(off), Request(pending, perBlock, devBlocks, fsDevs))
      ensures !made ==> nextseq == old(nextseq) && segs == old(segs)
    {
      hide Kept, Sane;
      made := (pending > 0 || needseg) && free > 0;
      if made {
        var daddr, actual := TakeBlocks(Request(pending, perBlock, devBlocks, fsDevs));
        var cnt := Fitting(pending, actual, perBlock, devBlocks);
        AddSegment(Jseg(daddr, actual, nextseq, oldestseg, cnt, Fewer(plain, cnt), cnt + 1, !flush, false));
      }
    }

    /** jblocks_alloc. */
    method TakeBlocks(request: nat) returns (daddr: nat, actual: nat)
      requires Kept(extents, live, lo, head, off, round, blocks, free) && Granted(extents, head, off, request) <= free
      modifies this`head, this`off, this`free, this`round, this`live
      ensures Kept(extents, live, lo, head, off, round, blocks, free)
      ensures live == old(live) + [Jextent(daddr, actual)] && actual == Granted(extents, old(head), old(off), request)
    {
      ghost var r;
      var h, o;
      daddr, actual, h, o, r := AllocBlocks(extents, head, off, request, round, lo + Total(live));
      KeptAppend(extents, live, lo, blocks, free, Jextent(daddr, actual), h, o, r);
      live := live + [Jextent(daddr, actual)];
      free, head, off, round := free - actual, h, o, r;
    }

    method AddSegment(s: Jseg)
      requires Sane(Now()) && Exact(Now()) && Settled(Now()) && Clean(Now(), needseg) && InOrder()
      requires Matches(live, segs + [s]) && Kept(extents, live, lo, head, off, round, blocks, free)
      requires s.seqno == nextseq && s.oldseq == oldestseg && s.refs > s.plain && !s.written
      modifies this`segs, this`nextseq, this`needseg, this`counts
      ensures Valid() && segs == old(segs) + [s] && nextseq == old(nextseq) + 1 && !needseg
    {
      ghost var l := Now();
      AppendSane(l, s);
      AppendSettled(l, s);
      counts := counts + [s.cnt];
      segs, nextseq, needseg := segs + [s], nextseq + 1, false;
      assert Now() == Appended(l, s);
    }

    /** Change a segment in its marks or its references. */
    method Change(i: nat, s: Jseg)
      requires Loose() && i < |segs| && Wears(s, segs[i])
      requires nextseq - |segs| + i >= writeseg ==> s.refs > s.plain
      modifies this`segs
      ensures Loose() && segs == old(segs)[i := s]
    {
      ChangeSane(Now(), i, s);
      segs := segs[i := s];
    }

    /** The segment at writeseg completes and loses its own reference and those of its plain records. */
    method CompleteNext()
      requires Loose() && writeseg < nextseq && segs[writeseg - (nextseq - |segs|)].AllComplete()
      modifies this`segs, this`writeseg, this`oldestwrseq, this`completed
      ensures Loose() && writeseg == old(writeseg) + 1 && |segs| == |old(segs)|
      ensures SegOf(old(Now()), old(writeseg)).refs > SegOf(old(Now()), old(writeseg)).plain
      ensures Now() == Completed(old(Now())) && oldestwrseq >= old(oldestwrseq)
      ensures completed == old(completed) + [old(writeseg)]
    {
      ghost var l := Now();
      CompleteSane(l);
      var i := writeseg - (nextseq - |segs|);
      var s := segs[i];
      oldestwrseq := s.oldseq;
      segs := segs[i := s.(refs := s.refs - s.plain - 1)];
      completed := completed + [writeseg];
      writeseg := writeseg + 1;
      assert Now() == Completed(l);
    }

    /** complete_jseg: the last reference may let segments go. */
    method CompleteOne()
      requires Loose() && writeseg < nextseq && segs[writeseg - (nextseq - |segs|)].AllComplete()
      modifies this`segs, this`oldestseg, this`free, this`needseg, this`lo, this`live, this`writeseg, this`oldestwrseq,
               this`completed
      ensures Loose() && writeseg == old(writeseg) + 1
      ensures SegOf(old(Now()), old(writeseg)).refs > SegOf(old(Now()), old(writeseg)).plain
      ensures oldestwrseq == SegOf(old(Now()), old(writeseg)).oldseq >= old(oldestwrseq)
      ensures Swept(segs, Completed(old(Now())).segs, oldestwrseq)
      ensures completed == old(completed) + [old(writeseg)] && oldestseg >= old(oldestseg)
      ensures old(needseg) ==> needseg
      ensures needseg ==> old(needseg) || oldestseg == nextseq
    {
      var i := writeseg - (nextseq - |segs|);
      CompleteNext();
      if segs[i].refs == 0 {
        FreeJsegs();
      }
    }

    /**
     * complete_jsegs: complete, in order, every segment from writeseg on that is ready, and reclaim what
     * that allows; nothing happens for a segment behind writeseg.
     */
    method CompleteJsegs(q: nat)
      requires Loose() && Exact(Now()) && (Settled(Now()) || q == writeseg) && Clean(Now(), needseg)
      modifies this`segs, this`oldestseg, this`free, this`needseg, this`lo, this`live, this`writeseg, this`oldestwrseq,
               this`completed
      ensures Valid() && Completes(old(Now()), Now()) && PendingKept(old(Now()), Now())
      ensures old(completed) <= completed && oldestwrseq >= old(oldestwrseq)
      ensures old(needseg) ==> needseg
      ensures needseg ==> old(needseg) || oldestseg == nextseq
    {
      hide Kept, Matches;
      CompletesNone(Now());
      if q != writeseg || q == nextseq {
        return;
      }
      CompleteReady();
      ghost var m := Now();
      FreeJsegs();
      CompletesSwept(old(Now()), m, Now());
      CompletesPending(old(Now()), Now());
    }

    method CompleteReady()
      requires Loose()
      modifies this`segs, this`oldestseg, this`free, this`needseg, this`lo, this`live, this`writeseg, this`oldestwrseq,
               this`completed
      ensures Loose() && Settled(Now()) && Completes(old(Now()), Now())
      ensures old(completed) <= completed && oldestwrseq >= old(oldestwrseq) && oldestseg >= old(oldestseg)
      ensures old(needseg) ==> needseg
      ensures needseg ==> old(needseg) || oldestseg == nextseq
    {
      hide Kept, Matches, Completes, Swept, Rising, Reclaimed, InPlace;
      CompletesNone(Now());
      while writeseg < nextseq && segs[writeseg - (nextseq - |segs|)].AllComplete()
        invariant Loose() && Completes(old(Now()), Now())
        invariant old(completed) <= completed && oldestwrseq >= old(oldestwrseq) && oldestseg >= old(oldestseg)
        invariant old(needseg) ==> needseg
        invariant needseg ==> old(needseg) || oldestseg == nextseq
        decreases nextseq - writeseg
      {
        ghost var m := Now();
        CompleteOne();
        CompletesNext(old(Now()), m, Now());
      }
    }

    /** handle_written_jseg: the segment is on disk; completion still waits for the segments before it. */
    method HandleWritten(q: nat)
      requires Valid() && nextseq - |segs| <= q < nextseq && !segs[q - (nextseq - |segs|)].written
      modifies this`segs, this`oldestseg, this`free, this`needseg, this`lo, this`live, this`writeseg, this`oldestwrseq,
               this`completed
      ensures Valid() && old(completed) <= completed && oldestwrseq >= old(oldestwrseq)
      ensures Completes(WithSeg(old(Now()), q - old(Now()).First(), SegOf(old(Now()), q).(written := true)), Now())
      ensures old(needseg) ==> needseg
      ensures needseg ==> old(needseg) || oldestseg == nextseq
    {
      hide PendingKept, Completes;
      MarkWritten(q - (nextseq - |segs|));
      CompleteJsegs(q);
    }

    method MarkWritten(i: nat)
      requires Valid() && i < |segs| && !segs[i].written
      modifies this`segs
      ensures Loose() && Exact(Now()) && (Settled(Now()) || nextseq - |segs| + i == writeseg) && Clean(Now(), needseg)
      ensures Now() == WithSeg(old(Now()), i, old(segs)[i].(written := true))
    {
      assert InPlace(Now(), i);
      assert segs[i].refs != 0; // panic: no self-reference
      ChangeSettled(Now(), i, segs[i].(written := true));
      Change(i, segs[i].(written := true));
    }

    /** softdep_synchronize_completed: the cache flush covers segment q and those before it. */
    method Synchronized(q: nat)
      requires Valid() && nextseq - |segs| <= q < nextseq
      modifies this`segs, this`oldestseg, this`free, this`needseg, this`lo, this`live, this`writeseg, this`oldestwrseq,
               this`completed
      ensures Valid() && old(completed) <= completed && oldestwrseq >= old(oldestwrseq)
      ensures Completes(Flushed(old(Now()), q), Now())
      ensures old(needseg) ==> needseg
      ensures needseg ==> old(needseg) || oldestseg == nextseq
    {
      hide PendingKept, Completes, Kept, Settled, Flushed, FlushReaches;
      ghost var l := Now();
      var first := nextseq - |segs|;
      var n := q - first + 1;
      var r, m := MarkSynced(segs, n);
      SyncSane(l, m, n, r);
      SyncSettled(l, m, n, r);
      FlushExact(l, m, n, q, r);
      SyncClean(l, m, n, r, needseg);
      segs := r;
      assert Now() == Flushed(l, q);
      if m < n {
        CompleteJsegs(first + m);
      } else {
        assert r == l.segs;
        CompletesNone(l);
      }
    }

    /** rele_jseg for a reference from elsewhere: the last one lets the segment go. */
    method Release(q: nat)
      requires Valid() && nextseq - |segs| <= q < nextseq
      requires segs[q - (nextseq - |segs|)].refs > if q >= writeseg then segs[q - (nextseq - |segs|)].plain + 1 else 0
      modifies this`segs, this`oldestseg, this`free, this`needseg, this`lo, this`live
      ensures Valid()
      ensures var s := SegOf(old(Now()), q);
              Swept(segs, old(segs)[q - old(Now()).First() := s.(refs := s.refs - 1)], oldestwrseq)
      ensures old(needseg) ==> needseg
      ensures needseg ==> old(needseg) || oldestseg == nextseq
    {
      hide Loose, Exact, Clean, Sane;
      var i := q - (nextseq - |segs|);
      DropRef(i);
      if segs[i].refs == 0 {
        FreeJsegs();
      }
    }

    method DropRef(i: nat)
      requires Valid() && i < |segs|
      requires segs[i].refs > if nextseq - |segs| + i >= writeseg then segs[i].plain + 1 else 0
      modifies this`segs
      ensures Loose() && Settled(Now()) && (segs[i].refs != 0 ==> Exact(Now()) && Clean(Now(), needseg))
      ensures segs == old(segs)[i := old(segs)[i].(refs := old(segs)[i].refs - 1)]
    {
      hide Matches;
      assert InPlace(Now(), i);
      ChangeSettled(Now(), i, segs[i].(refs := segs[i].refs - 1));
      Change(i, segs[i].(refs := segs[i].refs - 1));
    }
  }
}
