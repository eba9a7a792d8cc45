/** Symbol counting and the unique-symbol pass of HuffmanCodes: the
    frequency table is filled by index loops, and the symbols with a
    positive count are listed in increasing code order with their counts
    alongside. */
module Frequency {
  import opened Forest

  /** Every symbol of `s` can index a table of `n` rows. */
  predicate InAlphabet(s: seq<char>, n: nat) {
    forall i :: 0 <= i < |s| ==> s[i] as int < n
  }

  /** The number of occurrences of symbol `c` in `s`. */
  function Count(s: seq<char>, c: int): (k: nat)
    ensures k <= |s|
    decreases |s|
  {
    if s == [] then 0 else Count(s[..|s| - 1], c) + (if s[|s| - 1] as int == c then 1 else 0)
  }

  /** The frequency table of `s` over the symbols `[0, n)`. */
  function Counts(s: seq<char>, n: nat): (f: seq<nat>)
    ensures |f| == n
  {
    seq(n, c => Count(s, c))
  }

  /** The number of positions of `s` holding a symbol below `n`. */
  function NumBelow(s: seq<char>, n: nat): nat
    decreases |s|
  {
    if s == [] then 0 else NumBelow(s[..|s| - 1], n) + (if s[|s| - 1] as int < n then 1 else 0)
  }

  /** A symbol occurs in `s` exactly when its count is positive. */
  lemma {:induction false} CountPositive(s: seq<char>, c: int)
    ensures Count(s, c) > 0 <==> exists i :: 0 <= i < |s| && s[i] as int == c
    decreases |s|
  {
    if s != [] {
      var s' := s[..|s| - 1];
      CountPositive(s', c);
      if exists i :: 0 <= i < |s'| && s'[i] as int == c {
        var i :| 0 <= i < |s'| && s'[i] as int == c;
        assert s[i] == s'[i];
      }
      if exists i :: 0 <= i < |s| && s[i] as int == c {
        var i :| 0 <= i < |s| && s[i] as int == c;
        if i < |s'| {
          assert s'[i] == s[i];
        }
      }
    }
  }

  /** Counting one more symbol class below the bound adds its count. */
  lemma {:induction false} NumBelowStep(s: seq<char>, n: nat)
    ensures NumBelow(s, n + 1) == NumBelow(s, n) + Count(s, n)
    decreases |s|
  {
    if s != [] {
      NumBelowStep(s[..|s| - 1], n);
    }
  }

  /** When every symbol lies below `n`, all positions are below `n`. */
  lemma {:induction false} NumBelowAll(s: seq<char>, n: nat)
    requires InAlphabet(s, n)
    ensures NumBelow(s, n) == |s|
    decreases |s|
  {
    if s != [] {
      NumBelowAll(s[..|s| - 1], n);
    }
  }

  /** No position holds a symbol below 0. */
  lemma {:induction false} NumBelowNone(s: seq<char>)
    ensures NumBelow(s, 0) == 0
    decreases |s|
  {
    if s != [] {
      NumBelowNone(s[..|s| - 1]);
    }
  }

  /** The counts of the symbols below `n` add up to the positions below `n`. */
  lemma {:induction false} TotalCounts(s: seq<char>, n: nat)
    ensures Total(Counts(s, n)) == NumBelow(s, n)
    decreases n
  {
    if n == 0 {
      NumBelowNone(s);
    } else {
      assert Counts(s, n)[..n - 1] == Counts(s, n - 1);
      assert Counts(s, n)[n - 1] == Count(s, n - 1);
      assert Total(Counts(s, n)) == Total(Counts(s, n)[..n - 1]) + Counts(s, n)[n - 1];
      TotalCounts(s, n - 1);
      NumBelowStep(s, n - 1);
    }
  }

  /** Over a whole alphabet the frequency table adds up to the input length:
      every position is counted exactly once. */
  lemma CountsSum(s: seq<char>, n: nat)
    requires InAlphabet(s, n)
    ensures Total(Counts(s, n)) == |s|
  {
    TotalCounts(s, n);
    NumBelowAll(s, n);
  }

  /** calculateFrequency (and the same loop inline in huffman_vlad.c): one
      pass over `data[0..size)` adds each symbol's number of occurrences to
      its row. */
  method CalculateFrequency(data: seq<char>, freq: array<nat>, size: nat)
    requires size <= |data| && InAlphabet(data[..size], freq.Length)
    modifies freq
    ensures forall c :: 0 <= c < freq.Length ==> freq[c] == old(freq[c]) + Count(data[..size], c)
  {
    for i := 0 to size
      invariant forall c :: 0 <= c < freq.Length ==> freq[c] == old(freq[c]) + Count(data[..i], c)
    {
      assert data[..i + 1][..i] == data[..i];
      assert data[..size][i] == data[i];
      freq[data[i] as int] := freq[data[i] as int] + 1;
    }
  }

  /** calculateFrequencyInChunks: the same pass split into chunks of
      `chunkSize` positions (the last one cut at `size`). Every position is
      visited exactly once, so the table is the same whatever the chunk
      size. */
  method CalculateFrequencyInChunks(data: seq<char>, freq: array<nat>, size: nat, chunkSize: nat)
    requires chunkSize > 0
    requires size <= |data| && InAlphabet(data[..size], freq.Length)
    modifies freq
    ensures forall c :: 0 <= c < freq.Length ==> freq[c] == old(freq[c]) + Count(data[..size], c)
  {
    var start := 0;
    assert forall c :: 0 <= c < freq.Length ==> Count(data[..0], c) == 0;
    while start < size
      invariant start <= size || start - chunkSize < size
      invariant forall c :: 0 <= c < freq.Length ==>
                  freq[c] == old(freq[c]) + Count(data[..if start < size then start else size], c)
      decreases size - start
    {
      var end := if start + chunkSize < size then start + chunkSize else size;
      for i := start to end
        invariant forall c :: 0 <= c < freq.Length ==> freq[c] == old(freq[c]) + Count(data[..i], c)
      {
        assert data[..i + 1][..i] == data[..i];
        assert data[..size][i] == data[i];
        freq[data[i] as int] := freq[data[i] as int] + 1;
      }
      start := start + chunkSize;
    }
  }

  /** The symbols whose row in `f` is positive, in increasing order. */
  function Present(f: seq<nat>): seq<char>
    requires |f| <= 256
    decreases |f|
  {
    if f == [] then []
    else Present(f[..|f| - 1]) + (if f[|f| - 1] > 0 then [(|f| - 1) as char] else [])
  }

  /** The positive rows of `f`, aligned with `Present(f)`. */
  function PresentFreqs(f: seq<nat>): seq<nat>
    decreases |f|
  {
    if f == [] then []
    else PresentFreqs(f[..|f| - 1]) + (if f[|f| - 1] > 0 then [f[|f| - 1]] else [])
  }

  /** `s` is strictly increasing. */
  ghost predicate Increasing(s: seq<char>) {
    forall j, k :: 0 <= j < k < |s| ==> s[j] < s[k]
  }

  /** The listed symbols lie below the table size and each is listed with
      its own, positive, count. */
  lemma {:induction false} PresentAligned(f: seq<nat>)
    requires |f| <= 256
    ensures |Present(f)| == |PresentFreqs(f)| <= |f|
    ensures forall j :: 0 <= j < |Present(f)| ==>
              Present(f)[j] as int < |f| && PresentFreqs(f)[j] == f[Present(f)[j] as int] > 0
    decreases |f|
  {
    if f != [] {
      var g := f[..|f| - 1];
      PresentAligned(g);
      forall j | 0 <= j < |Present(f)|
        ensures Present(f)[j] as int < |f| && PresentFreqs(f)[j] == f[Present(f)[j] as int] > 0
      {
        if j < |Present(g)| {
          assert Present(f)[j] == Present(g)[j];
          assert PresentFreqs(f)[j] == PresentFreqs(g)[j];
        }
      }
    }
  }

  /** The listed symbols are strictly increasing, hence listed once each. */
  lemma {:induction false} PresentIncreasing(f: seq<nat>)
    requires |f| <= 256
    ensures Increasing(Present(f))
    decreases |f|
  {
    if f != [] {
      var g := f[..|f| - 1];
      PresentIncreasing(g);
      PresentAligned(g);
    }
  }

  /** A symbol is listed exactly when its count is positive. */
  lemma {:induction false} PresentMembers(f: seq<nat>)
    requires |f| <= 256
    ensures forall c :: 0 <= c < |f| ==> (f[c] > 0 <==> (c as char) in Present(f))
    decreases |f|
  {
    if f != [] {
      var g := f[..|f| - 1];
      var last := |f| - 1;
      var tail := if f[last] > 0 then [last as char] else [];
      assert Present(f) == Present(g) + tail;
      PresentMembers(g);
      PresentAligned(g);
      forall c | 0 <= c < |f|
        ensures f[c] > 0 <==> (c as char) in Present(f)
      {
        assert (c as char) in Present(f) <==> (c as char) in Present(g) || (c as char) in tail;
        if c < last {
          assert g[c] == f[c];
          assert (c as char) !in tail;
        } else {
          assert (c as char) !in Present(g);
        }
      }
    }
  }

  /** Dropping the zero rows loses no weight. */
  lemma {:induction false} PresentTotal(f: seq<nat>)
    ensures Total(PresentFreqs(f)) == Total(f)
    decreases |f|
  {
    if f != [] {
      var g := f[..|f| - 1];
      PresentTotal(g);
      if f[|f| - 1] > 0 {
        var p := PresentFreqs(f);
        assert p[..|p| - 1] == PresentFreqs(g) && p[|p| - 1] == f[|f| - 1];
        assert Total(p) == Total(p[..|p| - 1]) + p[|p| - 1];
      } else {
        assert PresentFreqs(f) == PresentFreqs(g);
      }
      assert Total(f) == Total(g) + f[|f| - 1];
    } else {
      assert PresentFreqs(f) == [];
    }
  }

  /** The unique pass of HuffmanCodes: every row with a positive count
      appends its symbol to `uniqueData` and its count to `uniqueFreq`. */
  method UniqueSymbols(freq: array<nat>, uniqueData: array<char>, uniqueFreq: array<nat>) returns (uniqueSize: nat)
    requires freq.Length <= 256 && freq.Length <= uniqueData.Length && freq.Length <= uniqueFreq.Length
    requires freq != uniqueFreq
    modifies uniqueData, uniqueFreq
    ensures uniqueSize <= freq.Length
    ensures uniqueData[..uniqueSize] == Present(freq[..])
    ensures uniqueFreq[..uniqueSize] == PresentFreqs(freq[..])
  {
    uniqueSize := 0;
    for i := 0 to freq.Length
      invariant uniqueSize <= i
      invariant uniqueData[..uniqueSize] == Present(freq[..i])
      invariant uniqueFreq[..uniqueSize] == PresentFreqs(freq[..i])
    {
      assert freq[..i + 1][..i] == freq[..i];
      if freq[i] > 0 {
        uniqueData[uniqueSize] := i as char;
        uniqueFreq[uniqueSize] := freq[i];
        assert uniqueData[..uniqueSize + 1] == uniqueData[..uniqueSize] + [i as char];
        assert uniqueFreq[..uniqueSize + 1] == uniqueFreq[..uniqueSize] + [freq[i]];
        uniqueSize := uniqueSize + 1;
      }
    }
    assert freq[..freq.Length] == freq[..];
  }
}
