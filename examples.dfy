/** Concrete instances: the sample input of huffman.c, a two-leaf tree's
    code table, and the packing of a short bit string. */
module Examples {
  import opened Arena
  import opened Forest
  import opened Frequency
  import opened Codes
  import opened Packer

  /** The sample input of huffman.c's main. */
  const Sample: seq<char> := ['a', 'b', 'r', 'a', 'c', 'a', 'd', 'a', 'b', 'r', 'a']

  /** Rows `[lo, n)` of `f` are zero: they list nothing. */
  lemma {:induction false} PresentSkip(f: seq<nat>, lo: nat, n: nat)
    requires lo <= n <= |f| <= 256
    requires forall c :: lo <= c < n ==> f[c] == 0
    ensures Present(f[..n]) == Present(f[..lo]) && PresentFreqs(f[..n]) == PresentFreqs(f[..lo])
    decreases n
  {
    if n > lo {
      assert f[..n][..n - 1] == f[..n - 1];
      PresentSkip(f, lo, n - 1);
    }
  }

  /** Row `c` of `f` is positive: it lists `c` with its count. */
  lemma PresentAdd(f: seq<nat>, c: nat)
    requires c < |f| <= 256 && f[c] > 0
    ensures Present(f[..c + 1]) == Present(f[..c]) + [c as char]
    ensures PresentFreqs(f[..c + 1]) == PresentFreqs(f[..c]) + [f[c]]
  {
    assert f[..c + 1][..c] == f[..c];
  }

  /** A count is the symbol's multiplicity in the input's multiset. */
  lemma {:induction false} CountMultiset(s: seq<char>, c: nat)
    requires c < 256
    ensures Count(s, c) == multiset(s)[c as char]
    decreases |s|
  {
    if s != [] {
      CountMultiset(s[..|s| - 1], c);
      assert s == s[..|s| - 1] + [s[|s| - 1]];
    }
  }

  /** The count of one symbol in "abracadabra". */
  lemma SampleCount(c: nat)
    requires c < 256
    ensures Count(Sample, c) == if c == 97 then 5 else if c == 98 || c == 114 then 2 else if c == 99 || c == 100 then 1 else 0
  {
    CountMultiset(Sample, c);
  }

  /** The counts of "abracadabra": a:5, b:2, r:2, c:1, d:1, and no other
      symbol occurs. */
  lemma SampleCountValues()
    ensures Count(Sample, 'a' as int) == 5 && Count(Sample, 'b' as int) == 2 && Count(Sample, 'r' as int) == 2
    ensures Count(Sample, 'c' as int) == 1 && Count(Sample, 'd' as int) == 1
    ensures forall c :: 0 <= c < 256 && c != 97 && c != 98 && c != 99 && c != 100 && c != 114 ==> Count(Sample, c) == 0
  {
    forall c: nat | c < 256 {
      SampleCount(c);
    }
  }

  /** Below 'e' the unique pass lists "abcd" with [5, 2, 1, 1]. */
  lemma SampleLow()
    ensures Present(Counts(Sample, 256)[..101]) == "abcd"
    ensures PresentFreqs(Counts(Sample, 256)[..101]) == [5, 2, 1, 1]
  {
    SampleCountValues();
    var f := Counts(Sample, 256);
    assert f[..0] == [];
    PresentSkip(f, 0, 97);
    PresentAdd(f, 97);
    PresentAdd(f, 98);
    PresentAdd(f, 99);
    PresentAdd(f, 100);
  }

  /** The unique pass over the sample's counts lists "abcdr" with
      [5, 2, 1, 1, 2], which weigh 11 in all, so the tree takes 4 merges. */
  lemma SampleCounts()
    ensures Present(Counts(Sample, 256)) == "abcdr"
    ensures PresentFreqs(Counts(Sample, 256)) == [5, 2, 1, 1, 2]
    ensures Total(PresentFreqs(Counts(Sample, 256))) == 11
    ensures |Present(Counts(Sample, 256))| - 1 == 4
  {
    SampleCountValues();
    SampleLow();
    var f := Counts(Sample, 256);
    PresentSkip(f, 101, 114);
    PresentAdd(f, 114);
    PresentSkip(f, 115, 256);
    assert f[..256] == f;
    PresentTotal(f);
    CountsSum(Sample, 256);
  }

  /** A tree of two leaves 'a' (weight 1) and 'b' (weight 2) under '$'. */
  const TwoLeaves: seq<Node> := [Node('a', 1, Null, Null), Node('b', 2, Null, Null), Node(Internal, 3, Ref(0), Ref(1))]

  /** The recursive generator gives 'a' the code "0" and 'b' the code "1",
      and leaves every other row as it was. */
  lemma TwoLeavesTable(t: seq<string>)
    requires |t| == 256
    ensures Table(TwoLeaves, 2, "", t) == t['a' as int := "0"]['b' as int := "1"]
  {
    var ns := TwoLeaves;
    assert Acyclic(ns) by {
      assert forall i :: 0 <= i < 3 ==> Below(ns[i].left, i) && Below(ns[i].right, i);
    }
    assert ns[2].left == Ref(0) && ns[2].right == Ref(1) && !IsLeaf(ns[2]);
    assert IsLeaf(ns[0]) && ns[0].data == 'a' && IsLeaf(ns[1]) && ns[1].data == 'b';
    assert "" + "0" == "0" && "" + "1" == "1";
    var t1 := Table(ns, 0, "0", t);
    assert t1 == t['a' as int := "0"];
    var t2 := Table(ns, 1, "1", t1);
    assert t2 == t1['b' as int := "1"];
  }

  /** "101" is padded to "00000101", which packs into the single byte 5 and
      unpacks to bits whose last three are "101" again. */
  lemma PackExample()
    ensures Padding(3) == 5 && Padded("101") == "00000101"
    ensures Pack(Padded("101")) == [5 as byte]
  {
    assert Zeros(5) == "00000";
    var p := Padded("101");
    assert p == "00000101";
    assert p[..8] == p && p[8..] == [];
    assert Value(p) == 5 by {
      assert p[..1][..0] == [] && p[..2][..1] == p[..1] && p[..3][..2] == p[..2] && p[..4][..3] == p[..3];
      assert p[..5][..4] == p[..4] && p[..6][..5] == p[..5] && p[..7][..6] == p[..6] && p[..8][..7] == p[..7];
      assert Value(p[..1]) == 0 && Value(p[..2]) == 0 && Value(p[..3]) == 0 && Value(p[..4]) == 0;
      assert Value(p[..5]) == 0 && Value(p[..6]) == 1 && Value(p[..7]) == 2 && Value(p[..8]) == 5;
    }
  }
}
