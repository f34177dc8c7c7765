// blkcount: the space of a file without holes, counted level by level, is that of its block tree,
// counted tree by tree.
module BlkCount {
  import opened Basics
  import opened BlockTree

  function Fewer(a: nat, b: nat): nat { if a < b then a else b }

  function Less(a: nat, b: nat): nat { if a < b then 0 else a - b }

  /** The indirect blocks of a tree of that height with so many data blocks, all of them at its front. */
  function Dense(n: nat, height: nat, blocks: nat): nat
    requires n > 0
    decreases height, 0
  {
    if height == 0 || blocks == 0 then 0 else 1 + DenseKids(n, height - 1, blocks)
  }

  /** The same for as many trees of that height as the data blocks fill, one after the other. */
  function DenseKids(n: nat, height: nat, blocks: nat): nat
    requires n > 0
    decreases height, 1 + blocks
  {
    if blocks == 0 then 0
    else Dense(n, height, Fewer(blocks, Power(n, height))) + DenseKids(n, height, Less(blocks, Power(n, height)))
  }

  /** The indirect blocks of the trees of an inode from that height on: one tree of each height. */
  function Towers(n: nat, height: nat, blocks: nat): nat
    requires n > 0
    decreases blocks
  {
    if blocks == 0 then 0
    else Dense(n, height, Fewer(blocks, Power(n, height))) + Towers(n, height + 1, Less(blocks, Power(n, height)))
  }

  // ---- rounding up

  /** How many groups of n it takes to hold b. */
  function Groups(b: nat, n: nat): nat
    requires n > 0
  {
    if b == 0 then 0 else 1 + Groups(Less(b, n), n)
  }

  lemma {:induction false} HowManyIsGroups(b: nat, n: nat)
    requires n > 0
    ensures HowMany(b, n) == Groups(b, n)
    decreases b
  {
    if b > n {
      HowManyIsGroups(b - n, n);
      DivStep(b - 1, n);
    } else {
      DivOne(b + n - 1, n);
      assert Groups(0, n) == 0;
    }
  }

  lemma DivStep(x: nat, n: nat)
    requires n > 0
    ensures (x + n) / n == x / n + 1
  {
    var q, r := x / n, (x + n) / n;
    assert x == q * n + x % n && x + n == r * n + (x + n) % n;
    assert (q + 1) * n == q * n + n && (r + 1) * n == r * n + n && (q + 2) * n == q * n + n + n;
    if r <= q {
      Times(r + 1, q + 1, n);
    }
    if r >= q + 2 {
      Times(q + 2, r, n);
    }
  }

  lemma DivOne(x: nat, n: nat)
    requires n > 0 && x < n + n
    ensures x / n == if x < n then 0 else 1
  {
    if x >= n {
      DivStep(x - n, n);
    }
  }

  lemma {:induction false} NoGroups(b: nat, n: nat)
    requires n > 0
    ensures Groups(b, n) <= b && (b > 0 ==> Groups(b, n) > 0)
    decreases b
  {
    if b > 0 {
      NoGroups(Less(b, n), n);
    }
  }

  /** Taking n * p blocks away takes p groups of n away. */
  lemma {:induction false} GroupsLess(b: nat, n: nat, p: nat)
    requires n > 0
    ensures Groups(Less(b, n * p), n) == Less(Groups(b, n), p)
    ensures Groups(Fewer(b, n * p), n) == Fewer(Groups(b, n), p)
    decreases p
  {
    if p > 0 && b > 0 {
      GroupsLess(Less(b, n), n, p - 1);
      assert n * p == n * (p - 1) + n;
      assert n * (p - 1) >= 0;
      assert Less(Less(b, n), n * (p - 1)) == Less(b, n * p);
      assert Less(Fewer(b, n * p), n) == Fewer(Less(b, n), n * (p - 1));
    }
  }

  // ---- stripping the lowest level of indirect blocks

  lemma {:induction false} StripKids(n: nat, height: nat, blocks: nat)
    requires n > 0
    ensures DenseKids(n, height + 1, blocks) == Groups(blocks, n) + DenseKids(n, height, Groups(blocks, n))
    decreases height, 1 + blocks
  {
    NoGroups(blocks, n);
    if blocks > 0 {
      var p := Power(n, height);
      var c := Groups(blocks, n);
      GroupsLess(blocks, n, p);
      Strip(n, height, Fewer(blocks, n * p));
      Positive(n, p);
      StripKids(n, height, Less(blocks, n * p));
    }
  }

  lemma Positive(n: nat, p: nat)
    requires n > 0 && p > 0
    ensures n * p > 0
  {
  }

  /** A tree over groups of n data blocks: the groups' indirect blocks, and the tree above them. */
  lemma {:induction false} Strip(n: nat, height: nat, blocks: nat)
    requires n > 0 && blocks <= n * Power(n, height)
    ensures Dense(n, height + 1, blocks) == Groups(blocks, n) + Dense(n, height, Groups(blocks, n))
    decreases height, 0
  {
    NoGroups(blocks, n);
    if blocks > 0 {
      if height == 0 {
        assert Groups(0, n) == 0;
        NoneAtZero(n, blocks);
      } else {
        StripKids(n, height - 1, blocks);
      }
    }
  }

  lemma {:induction false} NoneAtZero(n: nat, blocks: nat)
    requires n > 0
    ensures DenseKids(n, 0, blocks) == 0
    decreases blocks
  {
    if blocks > 0 {
      NoneAtZero(n, Less(blocks, 1));
    }
  }

  lemma {:induction false} StripTowers(n: nat, height: nat, blocks: nat)
    requires n > 0
    ensures Towers(n, height + 1, blocks) == Groups(blocks, n) + Towers(n, height, Groups(blocks, n))
    decreases blocks
  {
    NoGroups(blocks, n);
    if blocks > 0 {
      var p := Power(n, height);
      GroupsLess(blocks, n, p);
      Strip(n, height, Fewer(blocks, n * p));
      Positive(n, p);
      StripTowers(n, height + 1, Less(blocks, n * p));
    }
  }

  /** A tree of height 0 is a data block that the inode points to itself. */
  lemma TowersZero(n: nat, height: nat, blocks: nat)
    requires n > 0 && height == 0 && blocks > 0
    ensures Towers(n, height, blocks) == Towers(n, height + 1, blocks - 1)
  {
  }

  /** The loop's step: the lowest indirect blocks, then those above all but the first of them. */
  lemma TowersStep(n: nat, height: nat, blocks: nat)
    requires n > 0 && blocks > 0 && height == 0
    ensures Towers(n, height + 1, blocks) == Groups(blocks, n) + Towers(n, height + 1, Groups(Less(blocks, n), n))
  {
    StripTowers(n, height, blocks);
    TowersZero(n, height, Groups(blocks, n));
  }

  /**
   * The count of blkcount, in fragments, for a file of length bytes: data and indirect blocks of the
   * dense tree, or just enough fragments when direct blocks suffice.
   */
  function DenseFrags(length: nat, bsize: nat, fsize: nat, frag: nat, n: nat, nd: nat): nat
    requires bsize > 0 && fsize > 0 && n > 0
  {
    var blocks := HowMany(length, bsize);
    if blocks <= nd then HowMany(length, fsize) else frag * (blocks + Towers(n, 1, blocks - nd))
  }

  method CountBlocks(length: nat, bsize: nat, fsize: nat, frag: nat, n: nat, nd: nat) returns (totblks: nat)
    requires bsize > 0 && fsize > 0 && n > 0
    ensures totblks == DenseFrags(length, bsize, fsize, frag, n, nd)
  {
    hide DenseKids;
    var numblks := HowMany(length, bsize);
    if numblks <= nd {
      return HowMany(length, fsize);
    }
    ghost var left := numblks - nd;
    var data := numblks;
    var indirs := 0;
    numblks := numblks - nd;
    while true
      invariant numblks > 0 && indirs + Towers(n, 1, numblks) == Towers(n, 1, left)
      decreases numblks
    {
      TowersStep(n, 0, numblks);
      HowManyIsGroups(numblks, n);
      indirs := indirs + HowMany(numblks, n);
      NoGroups(Less(numblks, n), n);
      if numblks <= n {
        break;
      }
      HowManyIsGroups(numblks - n, n);
      numblks := HowMany(numblks - n, n);
    }
    totblks := frag * (data + indirs);
  }

  /** blkcount: the space a truncation to length releases, 0 when holes make the estimate too large. */
  method BlkCount(datablocks: nat, length: nat, bsize: nat, fsize: nat, frag: nat, n: nat, nd: nat) returns (r: nat)
    requires bsize > 0 && fsize > 0 && n > 0
    ensures r == Less(datablocks, DenseFrags(length, bsize, fsize, frag, n, nd))
  {
    var totblks := CountBlocks(length, bsize, fsize, frag, n, nd);
    if totblks > datablocks {
      return 0;
    }
    return datablocks - totblks;
  }

  /** Within the reach of three levels the count is that of a single, a double and a triple tree. */
  lemma ThreeTrees(n: nat, blocks: nat)
    requires n > 0 && blocks <= Power(n, 1) + Power(n, 2) + Power(n, 3)
    ensures Towers(n, 1, blocks) == Dense(n, 1, Fewer(blocks, Power(n, 1)))
            + Dense(n, 2, Fewer(Less(blocks, Power(n, 1)), Power(n, 2)))
            + Dense(n, 3, Less(Less(blocks, Power(n, 1)), Power(n, 2)))
  {
    hide DenseKids;
    var a, b, c := Power(n, 1), Power(n, 2), Power(n, 3);
    var r2 := Less(blocks, a);
    var r3 := Less(r2, b);
    assert Towers(n, 1, blocks) == Dense(n, 1, Fewer(blocks, a)) + Towers(n, 2, r2);
    assert Towers(n, 2, r2) == Dense(n, 2, Fewer(r2, b)) + Towers(n, 3, r3);
    assert Towers(n, 3, r3) == Dense(n, 3, Fewer(r3, c)) + Towers(n, 4, Less(r3, c));
  }
}
