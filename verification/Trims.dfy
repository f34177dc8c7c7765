// Trim requests: blocks freed under one key are gathered into runs of adjacent blocks, and each run is
// trimmed with one request before its blocks are given back.
module Trims {

  /** A run of fragments. */
  datatype Run = Run(start: nat, frags: nat)

  /** struct ffs_blkfree_trim_params: the range to trim and the block requests that make it up. */
  datatype Trim = Trim(key: nat, start: nat, frags: nat, list: seq<Run>)

  /** The runs follow each other and cover exactly the range. */
  predicate Chain(list: seq<Run>, start: nat, frags: nat) {
    if list == [] then frags == 0
    else
      && list[0].start == start && 0 < list[0].frags <= frags
      && Chain(list[1..], start + list[0].frags, frags - list[0].frags)
  }

  lemma {:induction false} ChainAppend(list: seq<Run>, start: nat, frags: nat, r: Run)
    requires Chain(list, start, frags) && r.start == start + frags && r.frags > 0
    ensures Chain(list + [r], start, frags + r.frags)
    decreases |list|
  {
    if list != [] {
      ChainAppend(list[1..], start + list[0].frags, frags - list[0].frags, r);
      assert (list + [r])[1..] == list[1..] + [r];
    } else {
      assert (list + [r])[1..] == [];
    }
  }

  lemma ChainPrepend(list: seq<Run>, start: nat, frags: nat, r: Run)
    requires Chain(list, start, frags) && r.start + r.frags == start && r.frags > 0
    ensures Chain([r] + list, r.start, r.frags + frags)
  {
    assert ([r] + list)[1..] == list;
  }

  /** A fragment is in the range exactly when it is in one of the runs, and then in only one. */
  lemma {:induction false} ChainCovers(list: seq<Run>, start: nat, frags: nat, a: nat)
    requires Chain(list, start, frags)
    ensures Covering(list, a) == if start <= a < start + frags then 1 else 0
    decreases |list|
  {
    if list != [] {
      ChainCovers(list[1..], start + list[0].frags, frags - list[0].frags, a);
    }
  }

  /** How many runs of the list contain fragment a. */
  function Covering(list: seq<Run>, a: nat): nat {
    if list == [] then 0
    else (if list[0].start <= a < list[0].start + list[0].frags then 1 else 0) + Covering(list[1..], a)
  }

  /** How often the list has the run. */
  function Times(list: seq<Run>, r: Run): nat {
    if list == [] then 0 else (if list[0] == r then 1 else 0) + Times(list[1..], r)
  }

  lemma {:induction false} TimesAppend(list: seq<Run>, x: Run, r: Run)
    ensures Times(list + [x], r) == Times(list, r) + if x == r then 1 else 0
    decreases |list|
  {
    if list != [] {
      TimesAppend(list[1..], x, r);
      assert (list + [x])[1..] == list[1..] + [x];
    } else {
      assert (list + [x])[1..] == [];
    }
  }

  lemma TimesPrepend(list: seq<Run>, x: Run, r: Run)
    ensures Times([x] + list, r) == Times(list, r) + if x == r then 1 else 0
  {
    assert ([x] + list)[1..] == list;
  }

  /** How often the run is in trims of that key. */
  function InTrims(trims: seq<Trim>, key: nat, r: Run): nat {
    if trims == [] then 0
    else InTrims(trims[..|trims| - 1], key, r) + if trims[|trims| - 1].key == key then Times(trims[|trims| - 1].list, r)
        else 0
  }

  lemma OneMore(trims: seq<Trim>, t: Trim, key: nat, r: Run)
    ensures InTrims(trims + [t], key, r) == InTrims(trims, key, r) + if t.key == key then Times(t.list, r) else 0
  {
    assert (trims + [t])[..|trims|] == trims;
  }

  lemma {:induction false} OneLess(trims: seq<Trim>, i: nat, key: nat, r: Run)
    requires i < |trims|
    ensures InTrims(trims, key, r) ==
            InTrims(trims[..i] + trims[i + 1..], key, r) + if trims[i].key == key then Times(trims[i].list, r) else 0
    decreases |trims|
  {
    var n := |trims| - 1;
    var rest := trims[..i] + trims[i + 1..];
    if i < n {
      var less := trims[..n][..i] + trims[..n][i + 1..];
      OneLess(trims[..n], i, key, r);
      assert rest == less + [trims[n]];
      OneMore(less, trims[n], key, r);
    } else {
      assert rest == trims[..n];
    }
  }

  /** How often the run was freed under that key. */
  function Logged(log: seq<(nat, Run)>, key: nat, r: Run): nat {
    if log == [] then 0 else Logged(log[..|log| - 1], key, r) + if log[|log| - 1] == (key, r) then 1 else 0
  }

  lemma LogMore(log: seq<(nat, Run)>, e: (nat, Run), key: nat, r: Run)
    ensures Logged(log + [e], key, r) == Logged(log, key, r) + if e == (key, r) then 1 else 0
  {
    assert (log + [e])[..|log|] == log;
  }

  function Sizes(trims: seq<Trim>): nat {
    if trims == [] then 0 else Sizes(trims[..|trims| - 1]) + trims[|trims| - 1].frags
  }

  lemma SizesMore(trims: seq<Trim>, t: Trim)
    ensures Sizes(trims + [t]) == Sizes(trims) + t.frags
  {
    assert (trims + [t])[..|trims|] == trims;
  }

  lemma {:induction false} SizesLess(trims: seq<Trim>, i: nat)
    requires i < |trims|
    ensures Sizes(trims) == Sizes(trims[..i] + trims[i + 1..]) + trims[i].frags
    decreases |trims|
  {
    var n := |trims| - 1;
    var rest := trims[..i] + trims[i + 1..];
    if i < n {
      var less := trims[..n][..i] + trims[..n][i + 1..];
      SizesLess(trims[..n], i);
      assert rest == less + [trims[n]];
      SizesMore(less, trims[n]);
    } else {
      assert rest == trims[..n];
    }
  }

  const Singleton := 2
  const FirstValidKey := 3

  predicate Proper(t: Trim) { Chain(t.list, t.start, t.frags) }

  predicate AllProper(trims: seq<Trim>) { forall k :: 0 <= k < |trims| ==> Proper(trims[k]) && trims[k].frags > 0 }

  /** The open requests are found under their own keys. */
  ghost predicate OpenOk(open: map<nat, Trim>) {
    forall key :: key in open ==> open[key].key == key && key >= FirstValidKey && Proper(open[key])
  }

  function OpenTimes(open: map<nat, Trim>, key: nat, r: Run): nat {
    if key in open then Times(open[key].list, r) else 0
  }

  /** Every freed run is in exactly one request of its key: open, under way, or completed. */
  ghost predicate Conserved(open: map<nat, Trim>, inflight: seq<Trim>, completed: seq<Trim>, log: seq<(nat, Run)>) {
    forall key, r :: Logged(log, key, r)
        == OpenTimes(open, key, r) + InTrims(inflight, key, r) + InTrims(completed, key, r)
  }

  class TrimQueue {
    var open: map<nat, Trim>
    var inflight: seq<Trim>
    var inflightBlks: nat
    ghost var completed: seq<Trim>
    ghost var log: seq<(nat, Run)>

    ghost predicate Valid()
      reads this
    {
      && OpenOk(open) && AllProper(inflight) && AllProper(completed)
      && inflightBlks == Sizes(inflight)
      && Conserved(open, inflight, completed, log)
    }

    constructor ()
      ensures Valid() && open == map[] && inflight == [] && log == []
    {
      open, inflight, inflightBlks, completed, log := map[], [], 0, [], [];
    }

    /** ffs_blkrelease_start: an empty request under a new key. */
    method Start(key: nat)
      requires Valid() && key !in open && key >= FirstValidKey
      modifies this`open
      ensures Valid() && open == old(open)[key := Trim(key, 0, 0, [])]
    {
      open := open[key := Trim(key, 0, 0, [])];
      forall k, r
        ensures OpenTimes(open, k, r) == OpenTimes(old(open), k, r)
      {
        assert Times([], r) == 0;
      }
    }

    /** ffs_blkfree_sendtrim. */
    method SendTrim(t: Trim)
      requires OpenOk(open) && AllProper(inflight) && AllProper(completed) && inflightBlks == Sizes(inflight)
      requires Proper(t) && t.frags > 0
      modifies this`inflight, this`inflightBlks
      ensures inflight == old(inflight) + [t] && inflightBlks == Sizes(inflight) && AllProper(inflight)
    {
      assert (inflight + [t])[..|inflight|] == inflight;
      inflight, inflightBlks := inflight + [t], inflightBlks + t.frags;
    }

    /** ffs_blkrelease_finish: what was gathered under the key is trimmed; nothing stays open under it. */
    method Finish(key: nat)
      requires Valid() && key in open
      modifies this`open, this`inflight, this`inflightBlks
      ensures Valid() && open == old(open) - {key}
      ensures forall r :: Logged(log, key, r) == InTrims(inflight, key, r) + InTrims(completed, key, r)
    {
      hide Conserved, InTrims, Logged, Sizes, Times, Chain;
      var t := open[key];
      FinishConserves(open, inflight, completed, log, key);
      open := open - {key};
      if t.frags != 0 {
        SendTrim(t);
      }
    }

    /**
     * The trim part of ffs_blkfree.  A single piece is trimmed by itself; under a key the run joins the
     * open request at its front or its end, or sends that request off and starts a new one.
     */
    method Free(r: Run, key: nat)
      requires Valid() && r.frags > 0 && (key == Singleton || key in open)
      modifies this`open, this`inflight, this`inflightBlks, this`log
      ensures Valid() && log == old(log) + [(key, r)]
      ensures key == Singleton ==> inflight == old(inflight) + [Trim(key, r.start, r.frags, [r])] && open == old(open)
      ensures key != Singleton && Adjoins(old(open)[key], r) ==>
        open == old(open)[key := Joined(old(open)[key], r)] && inflight == old(inflight)
      ensures key != Singleton && !Adjoins(old(open)[key], r) ==>
        open == old(open)[key := Trim(key, r.start, r.frags, [r])] && inflight == old(inflight) + [old(open)[key]]
    {
      ghost var open0, inflight0 := open, inflight;
      if key == Singleton {
        var t := Trim(key, r.start, r.frags, [r]);
        Alone(r);
        SendTrim(t);
        NewRequest(open0, open, inflight0, completed, log, key, r, t);
      } else {
        var t := open[key];
        if Adjoins(t, r) {
          var u := Joined(t, r);
          JoinedProper(t, r);
          open := open[key := u];
          JoinRequest(open0, inflight0, completed, log, key, r);
        } else {
          Alone(r);
          open := open[key := Trim(key, r.start, r.frags, [r])];
          SendTrim(t);
          Replace(open0, inflight0, completed, log, key, r);
        }
      }
      log := log + [(key, r)];
    }

    /** ffs_blkfree_trim_task: the trim is done and the runs of its request can be freed. */
    method TrimDone(i: nat) returns (freed: seq<Run>)
      requires Valid() && i < |inflight|
      modifies this`inflight, this`inflightBlks, this`completed
      ensures Valid() && inflight == old(inflight)[..i] + old(inflight)[i + 1..]
              && completed == old(completed) + [old(inflight)[i]]
      ensures freed == old(inflight)[i].list && Chain(freed, old(inflight)[i].start, old(inflight)[i].frags)
    {
      var t := inflight[i];
      freed := t.list;
      SizesLess(inflight, i);
      ghost var before := inflight;
      inflightBlks := inflightBlks - t.frags;
      inflight := inflight[..i] + inflight[i + 1..];
      forall k, r
        ensures InTrims(inflight, k, r) + InTrims(completed + [t], k, r)
                == InTrims(before, k, r) + InTrims(completed, k, r)
      {
        OneLess(before, i, k, r);
        OneMore(completed, t, k, r);
      }
      completed := completed + [t];
    }
  }

  lemma FinishConserves(open: map<nat, Trim>, inflight: seq<Trim>, completed: seq<Trim>, log: seq<(nat, Run)>, key: nat)
    requires Conserved(open, inflight, completed, log) && key in open && open[key].key == key && Proper(open[key])
    ensures var more := if open[key].frags == 0 then inflight else inflight + [open[key]];
            && Conserved(open - {key}, more, completed, log)
            && forall r :: Logged(log, key, r) == InTrims(more, key, r) + InTrims(completed, key, r)
  {
    var more := if open[key].frags == 0 then inflight else inflight + [open[key]];
    forall k, r
      ensures Logged(log, k, r) == OpenTimes(open - {key}, k, r) + InTrims(more, k, r) + InTrims(completed, k, r)
    {
      OneMore(inflight, open[key], k, r);
      assert Times([], r) == 0;
    }
    forall r
      ensures Logged(log, key, r) == InTrims(more, key, r) + InTrims(completed, key, r)
    {
      assert OpenTimes(open - {key}, key, r) == 0;
    }
  }

  /** The run can join the request: at its front, at its end, or as its first. */
  predicate Adjoins(t: Trim, r: Run) { t.frags == 0 || r.start + r.frags == t.start || r.start == t.start + t.frags }

  predicate InRun(start: nat, frags: nat, a: nat) { start <= a < start + frags }

  /** The request and the run together are the n fragments from s on. */
  ghost predicate Together(t: Trim, r: Run, s: nat, n: nat) {
    forall a: nat :: InRun(s, n, a) <==> InRun(t.start, t.frags, a) || InRun(r.start, r.frags, a)
  }

  /** They are one range from s on and do not overlap. */
  ghost predicate OneRange(t: Trim, r: Run, s: nat) { Together(t, r, s, t.frags + r.frags) }

  /** Exactly those runs join that make one range with the request. */
  lemma AdjoinsExact(t: Trim, r: Run)
    requires r.frags > 0
    ensures Adjoins(t, r) <==> exists s: nat :: OneRange(t, r, s)
  {
    if Adjoins(t, r) {
      assert OneRange(t, r, if t.frags == 0 || r.start + r.frags == t.start then r.start else t.start);
    }
    forall s: nat | OneRange(t, r, s)
      ensures Adjoins(t, r)
    {
      EndsMeet(t, r, s, t.frags + r.frags);
    }
  }

  lemma EndsMeet(t: Trim, r: Run, s: nat, n: nat)
    requires r.frags > 0 && n == t.frags + r.frags && Together(t, r, s, n)
    ensures Adjoins(t, r)
  {
    if t.frags > 0 {
      assert InRun(s, n, t.start) && InRun(s, n, r.start);
      assert InRun(s, n, t.start + t.frags - 1) && InRun(s, n, r.start + r.frags - 1);
      assert InRun(s, n, s) && (InRun(t.start, t.frags, s) || InRun(r.start, r.frags, s));
      assert InRun(s, n, s + n - 1);
      assert InRun(t.start, t.frags, s + n - 1) || InRun(r.start, r.frags, s + n - 1);
    }
  }

  /** The request with another adjacent run, or its first one. */
  function Joined(t: Trim, r: Run): Trim {
    if t.frags == 0 then Trim(t.key, r.start, r.frags, [r] + t.list)
    else if r.start + r.frags == t.start then Trim(t.key, r.start, t.frags + r.frags, [r] + t.list)
    else Trim(t.key, t.start, t.frags + r.frags, t.list + [r])
  }

  lemma Alone(r: Run)
    requires r.frags > 0
    ensures Chain([r], r.start, r.frags)
    ensures forall x :: Times([r], x) == if x == r then 1 else 0
  {
    assert [r][1..] == [];
    forall x
      ensures Times([r], x) == if x == r then 1 else 0
    {
      assert Times([], x) == 0;
    }
  }

  lemma JoinedProper(t: Trim, r: Run)
    requires Proper(t) && r.frags > 0 && Adjoins(t, r)
    ensures Proper(Joined(t, r)) && Joined(t, r).key == t.key
    ensures forall x :: Times(Joined(t, r).list, x) == Times(t.list, x) + if x == r then 1 else 0
  {
    if t.frags == 0 {
      assert t.list == [] && [r] + t.list == [r];
      Alone(r);
    } else if r.start + r.frags == t.start {
      ChainPrepend(t.list, t.start, t.frags, r);
    } else {
      ChainAppend(t.list, t.start, t.frags, r);
    }
    forall x
      ensures Times(Joined(t, r).list, x) == Times(t.list, x) + if x == r then 1 else 0
    {
      TimesAppend(t.list, r, x);
      TimesPrepend(t.list, r, x);
    }
  }

  lemma NewRequest(open: map<nat, Trim>, open': map<nat, Trim>, inflight: seq<Trim>, completed: seq<Trim>,
                   log: seq<(nat, Run)>, key: nat, r: Run, t: Trim)
    requires Conserved(open, inflight, completed, log) && open' == open && t.key == key
    requires forall x :: Times(t.list, x) == if x == r then 1 else 0
    ensures Conserved(open', inflight + [t], completed, log + [(key, r)])
  {
    forall k, x
      ensures Logged(log + [(key, r)], k, x)
           == OpenTimes(open', k, x) + InTrims(inflight + [t], k, x) + InTrims(completed, k, x)
    {
      LogMore(log, (key, r), k, x);
      OneMore(inflight, t, k, x);
    }
  }

  lemma JoinRequest(open: map<nat, Trim>, inflight: seq<Trim>, completed: seq<Trim>, log: seq<(nat, Run)>, key: nat,
                    r: Run)
    requires Conserved(open, inflight, completed, log) && key in open
    requires forall x :: Times(Joined(open[key], r).list, x) == Times(open[key].list, x) + if x == r then 1 else 0
    ensures Conserved(open[key := Joined(open[key], r)], inflight, completed, log + [(key, r)])
  {
    var open' := open[key := Joined(open[key], r)];
    forall k, x
      ensures Logged(log + [(key, r)], k, x)
              == OpenTimes(open', k, x) + InTrims(inflight, k, x) + InTrims(completed, k, x)
    {
      LogMore(log, (key, r), k, x);
    }
  }

  lemma Replace(open: map<nat, Trim>, inflight: seq<Trim>, completed: seq<Trim>, log: seq<(nat, Run)>, key: nat, r: Run)
    requires Conserved(open, inflight, completed, log) && key in open && open[key].key == key
    requires forall x :: Times([r], x) == if x == r then 1 else 0
    ensures Conserved(open[key := Trim(key, r.start, r.frags, [r])], inflight + [open[key]], completed,
                      log + [(key, r)])
  {
    var open' := open[key := Trim(key, r.start, r.frags, [r])];
    forall k, x
      ensures Logged(log + [(key, r)], k, x)
           == OpenTimes(open', k, x) + InTrims(inflight + [open[key]], k, x) + InTrims(completed, k, x)
    {
      LogMore(log, (key, r), k, x);
      OneMore(inflight, open[key], k, x);
    }
  }
}
