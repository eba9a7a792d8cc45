/** The array-backed binary min-heap of node references (struct MinHeap and
    its operations). Entries are arena indices, keyed on the node's `freq`. */
module Heap {
  import opened Arena

  /** The key of an entry: the frequency of the node it refers to. */
  function Key(ns: seq<Node>, x: nat): nat {
    if x < |ns| then ns[x].freq else 0
  }

  /** Entry `c` is no lighter than its parent. */
  ghost predicate Ordered(ns: seq<Node>, h: seq<nat>, c: int) {
    0 < c < |h| ==> Key(ns, h[(c - 1) / 2]) <= Key(ns, h[c])
  }

  /** Every parent at index `lo` or above is no heavier than its children. */
  ghost predicate HeapFrom(ns: seq<Node>, h: seq<nat>, lo: int) {
    forall c :: 0 < c < |h| && (c - 1) / 2 >= lo ==> Ordered(ns, h, c)
  }

  /** The freq-only min-heap property over the whole array. */
  ghost predicate IsMinHeap(ns: seq<Node>, h: seq<nat>) {
    HeapFrom(ns, h, 0)
  }

  /** Every entry refers to a slot of the arena. */
  ghost predicate InArena(n: nat, h: seq<nat>) {
    forall i :: 0 <= i < |h| ==> h[i] < n
  }

  /** Position `j` lies in the subtree rooted at position `r`. */
  ghost predicate InSubtree(j: nat, r: nat)
    decreases j
  {
    j == r || (j > r && InSubtree((j - 1) / 2, r))
  }

  /** The subtree of a child lies inside the subtree of its parent. */
  lemma {:induction false} SubtreeOfChild(j: nat, s: nat, r: nat)
    requires s > 0 && (s - 1) / 2 == r && InSubtree(j, s)
    ensures InSubtree(j, r)
    decreases j
  {
    if j != s {
      SubtreeOfChild((j - 1) / 2, s, r);
    }
  }

  /** The root of a min-heap holds a minimal key. */
  lemma {:induction false} RootIsMin(ns: seq<Node>, h: seq<nat>, i: nat)
    requires IsMinHeap(ns, h) && i < |h|
    ensures Key(ns, h[0]) <= Key(ns, h[i])
    decreases i
  {
    if i > 0 {
      RootIsMin(ns, h, (i - 1) / 2);
      assert Ordered(ns, h, i);
    }
  }

  /** The heap property only depends on the keys of the entries. */
  lemma HeapFrame(ns: seq<Node>, ns': seq<Node>, h: seq<nat>, lo: int)
    requires HeapFrom(ns, h, lo)
    requires forall i :: 0 <= i < |h| ==> Key(ns, h[i]) == Key(ns', h[i])
    ensures HeapFrom(ns', h, lo)
  {
    forall c | 0 < c < |h| && (c - 1) / 2 >= lo
      ensures Ordered(ns', h, c)
    {
      assert Ordered(ns, h, c);
    }
  }

  /** The sum of the keys of a sequence of entries. */
  ghost function SumFreq(ns: seq<Node>, h: seq<nat>): nat
    decreases |h|
  {
    if h == [] then 0 else Key(ns, h[0]) + SumFreq(ns, h[1..])
  }

  lemma {:induction false} SumConcat(ns: seq<Node>, a: seq<nat>, b: seq<nat>)
    ensures SumFreq(ns, a + b) == SumFreq(ns, a) + SumFreq(ns, b)
    decreases |a|
  {
    if a != [] {
      assert (a + b)[1..] == a[1..] + b;
      SumConcat(ns, a[1..], b);
    } else {
      assert a + b == b;
    }
  }

  /** Appending one entry adds its key to the total. */
  lemma SumSnoc(ns: seq<Node>, a: seq<nat>, x: nat)
    ensures SumFreq(ns, a + [x]) == SumFreq(ns, a) + Key(ns, x)
  {
    SumConcat(ns, a, [x]);
    assert [x][1..] == [];
  }

  /** Taking entry `j` out of a sequence. */
  lemma RemoveAt(b: seq<nat>, j: nat)
    requires j < |b|
    ensures b == b[..j] + [b[j]] + b[j + 1..]
    ensures multiset(b[..j] + b[j + 1..]) == multiset(b) - multiset{b[j]}
  {
    assert b == b[..j] + [b[j]] + b[j + 1..];
  }

  /** The total is the key taken out plus the total of the rest. */
  lemma SumRemoveAt(ns: seq<Node>, b: seq<nat>, j: nat)
    requires j < |b|
    ensures SumFreq(ns, b) == Key(ns, b[j]) + SumFreq(ns, b[..j] + b[j + 1..])
  {
    RemoveAt(b, j);
    SumConcat(ns, b[..j] + [b[j]], b[j + 1..]);
    SumConcat(ns, b[..j], [b[j]]);
    SumConcat(ns, b[..j], b[j + 1..]);
  }

  /** Where a permutation of `a` holds the first entry of `a`: the rest of
      both sides are again permutations of each other. */
  lemma MatchFirst(a: seq<nat>, b: seq<nat>) returns (j: nat)
    requires multiset(a) == multiset(b) && a != []
    ensures j < |b| && b[j] == a[0]
    ensures multiset(a[1..]) == multiset(b[..j] + b[j + 1..])
  {
    assert a[0] in multiset(b);
    j :| 0 <= j < |b| && b[j] == a[0];
    RemoveAt(a, 0);
    RemoveAt(b, j);
    assert a[..0] + a[1..] == a[1..];
  }

  /** Reordering the entries does not change their total frequency. */
  lemma {:induction false} SumPermutation(ns: seq<Node>, a: seq<nat>, b: seq<nat>)
    requires multiset(a) == multiset(b)
    ensures SumFreq(ns, a) == SumFreq(ns, b)
    decreases |a|
  {
    if a == [] {
      assert |b| == |multiset(b)| == 0;
    } else {
      var j := MatchFirst(a, b);
      SumPermutation(ns, a[1..], b[..j] + b[j + 1..]);
      SumRemoveAt(ns, b, j);
    }
  }

  /** Adding an entry to the multiset adds its key to the total. */
  lemma SumAdd(ns: seq<Node>, a: seq<nat>, b: seq<nat>, x: nat)
    requires multiset(b) == multiset(a) + multiset{x}
    ensures SumFreq(ns, b) == SumFreq(ns, a) + Key(ns, x)
  {
    assert multiset(a + [x]) == multiset(b);
    SumPermutation(ns, a + [x], b);
    SumConcat(ns, a, [x]);
  }

  /** The total frequency only depends on the keys of the entries. */
  lemma {:induction false} SumFrame(ns: seq<Node>, ns': seq<Node>, h: seq<nat>)
    requires forall i :: 0 <= i < |h| ==> Key(ns, h[i]) == Key(ns', h[i])
    ensures SumFreq(ns, h) == SumFreq(ns', h)
    decreases |h|
  {
    if h != [] {
      SumFrame(ns, ns', h[1..]);
    }
  }

  /** C's `/`, which truncates toward zero (Dafny's `/` is Euclidean): a
      non-negative quotient is rounded down and a negative one up. */
  function CDiv(a: int, b: int): (q: int)
    requires b > 0
    ensures a >= 0 ==> q * b <= a < q * b + b
    ensures a < 0 ==> q * b - b < a <= q * b
  {
    if a >= 0 then a / b else -((-a) / b)
  }

  /** The start index of buildMinHeap for heaps of size 0 and 1: -1 skips
      the loop, 0 heapifies the single entry. */
  lemma CDivSmall()
    ensures CDiv(-2, 2) == -1 && CDiv(-1, 2) == 0
  {
  }

  /** Swapping two entries permutes the sequence. */
  lemma SwapPermutes(s: seq<nat>, i: nat, j: nat)
    requires i < |s| && j < |s|
    ensures multiset(s[j := s[i]][i := s[j]]) == multiset(s)
  {
  }

  /** The swap touches `idx` and its child `s`; the recursive sift-down
      touches only the subtree of `s`. So nothing outside the subtree of `idx`
      changes, and inside it nothing but `idx` changes outside that of `s`. */
  lemma SiftDownFrame(a0: seq<nat>, a1: seq<nat>, a2: seq<nat>, size: nat, idx: nat, s: nat)
    requires s == 2 * idx + 1 || s == 2 * idx + 2
    requires s < size <= |a0| == |a1| == |a2|
    requires a1 == a0[s := a0[idx]][idx := a0[s]]
    requires forall j :: 0 <= j < |a2| && (j >= size || !InSubtree(j, s)) ==> a2[j] == a1[j]
    ensures forall j :: 0 <= j < |a2| && (j >= size || !InSubtree(j, idx)) ==> a2[j] == a0[j]
    ensures forall j :: 0 <= j < size && j != idx && !InSubtree(j, s) ==> a2[..size][j] == a0[..size][j]
    ensures a2[idx] == a0[s]
  {
    assert InSubtree(s, idx);
    assert !InSubtree(idx, s);
    forall j | 0 <= j < |a2| && (j >= size || !InSubtree(j, idx))
      ensures a2[j] == a0[j]
    {
      if j < size && InSubtree(j, s) {
        SubtreeOfChild(j, s, idx);
      }
    }
  }

  /** Swapping a parent with a child leaves the parents below the child ordered. */
  lemma SwapKeepsLower(ns: seq<Node>, before: seq<nat>, swapped: seq<nat>, idx: nat, s: nat)
    requires s == 2 * idx + 1 || s == 2 * idx + 2
    requires s < |before| && swapped == before[s := before[idx]][idx := before[s]]
    requires HeapFrom(ns, before, idx + 1)
    ensures HeapFrom(ns, swapped, s + 1)
  {
    forall c | 0 < c < |swapped| && (c - 1) / 2 >= s + 1
      ensures Ordered(ns, swapped, c)
    {
      assert Ordered(ns, before, c);
    }
  }

  /** After the swap and the recursive sift-down of the child, every parent
      from `idx` on is ordered. */
  lemma SiftDownDone(ns: seq<Node>, before: seq<nat>, after: seq<nat>, idx: nat, s: nat)
    requires s == 2 * idx + 1 || s == 2 * idx + 2
    requires s < |before| == |after|
    requires HeapFrom(ns, before, idx + 1)
    requires Key(ns, before[s]) <= Key(ns, before[idx])
    requires 2 * idx + 1 < |before| ==> Key(ns, before[s]) <= Key(ns, before[2 * idx + 1])
    requires 2 * idx + 2 < |before| ==> Key(ns, before[s]) <= Key(ns, before[2 * idx + 2])
    requires after[idx] == before[s]
    requires HeapFrom(ns, after, s)
    requires forall j :: 0 <= j < |after| && j != idx && !InSubtree(j, s) ==> after[j] == before[j]
    requires after[s] == before[idx] ||
             (2 * s + 1 < |after| && after[s] == before[2 * s + 1]) ||
             (2 * s + 2 < |after| && after[s] == before[2 * s + 2])
    ensures HeapFrom(ns, after, idx)
  {
    forall c | 0 < c < |after| && (c - 1) / 2 >= idx
      ensures Ordered(ns, after, c)
    {
      var p := (c - 1) / 2;
      if p >= s {
      } else if p == idx {
        if c == s {
          assert Ordered(ns, before, 2 * s + 1);
          assert Ordered(ns, before, 2 * s + 2);
        } else {
          assert !InSubtree(c, s);
        }
      } else {
        assert !InSubtree(p, s);
        assert !InSubtree(c, s);
        assert Ordered(ns, before, c);
      }
    }
  }

  /** The node symbol an entry refers to ('\0' outside the arena). */
  function Data(ns: seq<Node>, x: nat): char {
    if x < |ns| then ns[x].data else '\0'
  }

  /** The comparison minHeapify uses: `freq` only, or (huffman.c) `freq`
      and then `data` when the frequencies are equal. */
  function Precedes(ns: seq<Node>, x: nat, y: nat, tieBreak: bool): bool {
    Key(ns, x) < Key(ns, y) ||
    (tieBreak && Key(ns, x) == Key(ns, y) && Data(ns, x) < Data(ns, y))
  }

  /** The position minHeapify moves up to `idx`: among `idx` and its
      children in use, one that no other of them precedes (left wins over
      right, `idx` over both, on a tie). */
  function Smallest(ns: seq<Node>, h: seq<nat>, size: nat, idx: nat, tieBreak: bool): (s: nat)
    requires size <= |h|
    ensures s == idx || (s == 2 * idx + 1 && s < size) || (s == 2 * idx + 2 && s < size)
    ensures s != idx ==> Precedes(ns, h[s], h[idx], tieBreak)
    ensures idx < size ==> !Precedes(ns, h[idx], h[s], tieBreak)
    ensures 2 * idx + 1 < size ==> !Precedes(ns, h[2 * idx + 1], h[s], tieBreak)
    ensures 2 * idx + 2 < size ==> !Precedes(ns, h[2 * idx + 2], h[s], tieBreak)
  {
    var left := 2 * idx + 1;
    var right := 2 * idx + 2;
    var s1 := if left < size && Precedes(ns, h[left], h[idx], tieBreak) then left else idx;
    if right < size && Precedes(ns, h[right], h[s1], tieBreak) then right else s1
  }

  /** The entries of the heap buffer after minHeapify(idx) on the `size`
      entries in use: the buffer is only permuted among those entries. */
  function SiftDown(ns: seq<Node>, h: seq<nat>, size: nat, idx: nat, tieBreak: bool): (r: seq<nat>)
    requires size <= |h|
    ensures |r| == |h|
    ensures multiset(r[..size]) == multiset(h[..size])
    decreases size - idx
  {
    var s := Smallest(ns, h, size, idx, tieBreak);
    if s == idx then h
    else
      var h1 := h[s := h[idx]][idx := h[s]];
      assert h1[..size] == h[..size][s := h[idx]][idx := h[s]];
      SwapPermutes(h[..size], idx, s);
      SiftDown(ns, h1, size, s, tieBreak)
  }

  /** minHeapify(idx) changes nothing outside the subtree of `idx` nor past
      the entries in use, and the entry it leaves at `idx` was at `idx` or at
      one of its children. */
  lemma {:induction false} SiftDownOutside(ns: seq<Node>, h: seq<nat>, size: nat, idx: nat, tieBreak: bool)
    requires size <= |h|
    ensures forall j :: 0 <= j < |h| && (j >= size || !InSubtree(j, idx)) ==>
              SiftDown(ns, h, size, idx, tieBreak)[j] == h[j]
    ensures idx < size ==>
              var r := SiftDown(ns, h, size, idx, tieBreak);
              r[idx] == h[idx] ||
              (2 * idx + 1 < size && r[idx] == h[2 * idx + 1]) ||
              (2 * idx + 2 < size && r[idx] == h[2 * idx + 2])
    decreases size - idx
  {
    var s := Smallest(ns, h, size, idx, tieBreak);
    if s != idx {
      var h1 := h[s := h[idx]][idx := h[s]];
      SiftDownOutside(ns, h1, size, s, tieBreak);
      SiftDownFrame(h, h1, SiftDown(ns, h1, size, s, tieBreak), size, idx, s);
    }
  }

  /** When neither child precedes `idx`, minHeapify stops there, and the
      parent at `idx` is already ordered. */
  lemma SiftDownStops(ns: seq<Node>, h: seq<nat>, size: nat, idx: nat, tieBreak: bool)
    requires size <= |h| && HeapFrom(ns, h[..size], idx + 1)
    requires Smallest(ns, h, size, idx, tieBreak) == idx
    ensures HeapFrom(ns, h[..size], idx)
  {
    var before := h[..size];
    forall c | 0 < c < size && (c - 1) / 2 >= idx
      ensures Ordered(ns, before, c)
    {
      if (c - 1) / 2 > idx {
        assert Ordered(ns, before, c);
      }
    }
  }

  /** minHeapify(idx) establishes the heap property for every parent from
      `idx` on, when it held for every parent below `idx`. */
  lemma {:induction false} SiftDownHeap(ns: seq<Node>, h: seq<nat>, size: nat, idx: nat, tieBreak: bool)
    requires size <= |h| && HeapFrom(ns, h[..size], idx + 1)
    ensures HeapFrom(ns, SiftDown(ns, h, size, idx, tieBreak)[..size], idx)
    decreases size - idx
  {
    var s := Smallest(ns, h, size, idx, tieBreak);
    var before := h[..size];
    if s == idx {
      SiftDownStops(ns, h, size, idx, tieBreak);
    } else {
      var h1 := h[s := h[idx]][idx := h[s]];
      var r := SiftDown(ns, h1, size, s, tieBreak);
      assert HeapFrom(ns, h1[..size], s + 1) by {
        assert h1[..size] == before[s := before[idx]][idx := before[s]];
        SwapKeepsLower(ns, before, h1[..size], idx, s);
      }
      SiftDownHeap(ns, h1, size, s, tieBreak);
      SiftDownOutside(ns, h1, size, s, tieBreak);
      SiftDownFrame(h, h1, r, size, idx, s);
      assert r[..size][s] == before[idx] ||
             (2 * s + 1 < size && r[..size][s] == before[2 * s + 1]) ||
             (2 * s + 2 < size && r[..size][s] == before[2 * s + 2]);
      SiftDownDone(ns, before, r[..size], idx, s);
    }
  }

  /** A permutation of entries inside the arena stays inside it. */
  lemma InArenaPermutation(n: nat, a: seq<nat>, b: seq<nat>)
    requires InArena(n, a) && multiset(a) == multiset(b)
    ensures InArena(n, b)
  {
    forall i | 0 <= i < |b|
      ensures b[i] < n
    {
      assert b[i] in multiset(a);
    }
  }

  /** What holds while insertMinHeap shifts parents down: `i` is the hole
      the new entry `x` will fill. Every entry but the hole is ordered below
      its parent, the hole's children are no lighter than the hole's parent,
      and no lighter than `x`. */
  ghost predicate SiftUpInv(ns: seq<Node>, a: seq<nat>, i: nat, x: nat) {
    i < |a| &&
    (forall c :: 0 < c < |a| && c != i ==> Ordered(ns, a, c)) &&
    (i > 0 && 2 * i + 1 < |a| ==> Key(ns, a[(i - 1) / 2]) <= Key(ns, a[2 * i + 1])) &&
    (i > 0 && 2 * i + 2 < |a| ==> Key(ns, a[(i - 1) / 2]) <= Key(ns, a[2 * i + 2])) &&
    (2 * i + 1 < |a| ==> Key(ns, x) <= Key(ns, a[2 * i + 1])) &&
    (2 * i + 2 < |a| ==> Key(ns, x) <= Key(ns, a[2 * i + 2]))
  }

  /** A fresh hole at the end of a heap. */
  lemma SiftUpStart(ns: seq<Node>, h: seq<nat>, a: seq<nat>, x: nat)
    requires IsMinHeap(ns, h) && |a| == |h| + 1 && a[..|h|] == h
    ensures SiftUpInv(ns, a, |h|, x)
  {
    forall c | 0 < c < |a| && c != |h|
      ensures Ordered(ns, a, c)
    {
      assert Ordered(ns, h, c);
    }
  }

  /** Moving the parent down into the hole moves the hole up. */
  lemma SiftUpStep(ns: seq<Node>, a: seq<nat>, i: nat, x: nat)
    requires SiftUpInv(ns, a, i, x) && i > 0
    requires Key(ns, x) < Key(ns, a[(i - 1) / 2])
    ensures SiftUpInv(ns, a[i := a[(i - 1) / 2]], (i - 1) / 2, x)
  {
    var p := (i - 1) / 2;
    var b := a[i := a[p]];
    forall c | 0 < c < |b| && c != p
      ensures Ordered(ns, b, c)
    {
      if c == i {
      } else if (c - 1) / 2 == i {
      } else {
        assert Ordered(ns, a, c);
      }
    }
    if p > 0 {
      assert Ordered(ns, a, p);
    }
    assert Ordered(ns, a, 2 * p + 1) || 2 * p + 1 == i;
    assert Ordered(ns, a, 2 * p + 2) || 2 * p + 2 == i;
  }

  /** Filling the hole once its parent is no heavier gives a heap. */
  lemma SiftUpDone(ns: seq<Node>, a: seq<nat>, i: nat, x: nat)
    requires SiftUpInv(ns, a, i, x)
    requires i > 0 ==> Key(ns, a[(i - 1) / 2]) <= Key(ns, x)
    ensures IsMinHeap(ns, a[i := x])
  {
    var b := a[i := x];
    forall c | 0 < c < |b|
      ensures Ordered(ns, b, c)
    {
      if c != i && (c - 1) / 2 != i {
        assert Ordered(ns, a, c);
      }
    }
  }

  /** Moving the last entry of a heap to the root leaves every parent below
      the root ordered, and the root's old entry is what was taken out. */
  lemma ExtractPrefix(ns: seq<Node>, full: seq<nat>, n: nat)
    requires n < |full| && IsMinHeap(ns, full[..n + 1])
    ensures HeapFrom(ns, full[0 := full[n]][..n], 1)
    ensures multiset(full[0 := full[n]][..n]) + multiset{full[0]} == multiset(full[..n + 1])
  {
    var h := full[..n + 1];
    var moved := full[0 := full[n]][..n];
    if n > 0 {
      assert moved == [h[n]] + h[1..n];
      assert h == [h[0]] + h[1..n] + [h[n]];
    } else {
      assert h == [h[0]];
    }
    forall c | 0 < c < n && (c - 1) / 2 >= 1
      ensures Ordered(ns, moved, c)
    {
      assert Ordered(ns, h, c);
    }
  }

  /** What is left after taking the root out of a heap is no lighter than
      the root, and stays inside the arena. */
  lemma Remaining(ns: seq<Node>, n: nat, h: seq<nat>, r: seq<nat>)
    requires IsMinHeap(ns, h) && InArena(n, h) && |h| > 0
    requires multiset(r) + multiset{h[0]} == multiset(h)
    ensures h[0] < n && InArena(n, r)
    ensures forall i :: 0 <= i < |r| ==> Key(ns, h[0]) <= Key(ns, r[i])
  {
    forall k | 0 <= k < |r|
      ensures Key(ns, h[0]) <= Key(ns, r[k]) && r[k] < n
    {
      assert r[k] in multiset(r);
      assert r[k] in multiset(h);
      var i :| 0 <= i < |h| && h[i] == r[k];
      RootIsMin(ns, h, i);
    }
  }

  /** extractMin on the heap `full[..n + 1]`: the last entry moves to the
      root and is sifted down; what is left is a heap of the other entries,
      all no lighter than the old root. */
  lemma ExtractDone(ns: seq<Node>, bound: nat, full: seq<nat>, n: nat, tieBreak: bool)
    requires n < |full| && IsMinHeap(ns, full[..n + 1]) && InArena(bound, full[..n + 1])
    ensures var r := SiftDown(ns, full[0 := full[n]], n, 0, tieBreak)[..n];
            IsMinHeap(ns, r) && InArena(bound, r) && full[0] < bound &&
            multiset(r) + multiset{full[0]} == multiset(full[..n + 1]) &&
            forall i :: 0 <= i < n ==> Key(ns, full[0]) <= Key(ns, r[i])
  {
    var a := full[0 := full[n]];
    ExtractPrefix(ns, full, n);
    assert a[..n] == full[0 := full[n]][..n];
    SiftDownHeap(ns, a, n, 0, tieBreak);
    var r := SiftDown(ns, a, n, 0, tieBreak)[..n];
    assert multiset(r) == multiset(a[..n]);
    Remaining(ns, bound, full[..n + 1], r);
  }

  /** insertMinHeap's loop invariant: `i` is the hole of `SiftUpInv`, and
      filling it with `x` gives the old entries `h` plus `x`. */
  ghost predicate Hole(ns: seq<Node>, a: seq<nat>, i: nat, x: nat, h: seq<nat>) {
    SiftUpInv(ns, a, i, x) && multiset(a[i := x]) == multiset(h) + multiset{x}
  }

  /** The hole starts at the new last slot. */
  lemma InsertStart(ns: seq<Node>, h: seq<nat>, a: seq<nat>, x: nat)
    requires IsMinHeap(ns, h) && |a| == |h| + 1 && a[..|h|] == h
    ensures Hole(ns, a, |h|, x, h)
  {
    SiftUpStart(ns, h, a, x);
    assert a[|h| := x] == h + [x];
  }

  /** One shift of insertMinHeap's loop keeps its invariant: the parent moves
      down into the hole, the hole moves up, and filling it would still give
      the old entries plus the new one. */
  lemma ShiftStep(ns: seq<Node>, a: seq<nat>, i: nat, x: nat, h: seq<nat>)
    requires Hole(ns, a, i, x, h) && i > 0 && Key(ns, x) < Key(ns, a[(i - 1) / 2])
    ensures Hole(ns, a[i := a[(i - 1) / 2]], (i - 1) / 2, x, h)
  {
    var p := (i - 1) / 2;
    SiftUpStep(ns, a, i, x);
    assert a[i := a[p]][p := x] == a[i := x][p := a[i := x][i]][i := a[i := x][p]];
    SwapPermutes(a[i := x], p, i);
  }

  /** When insertMinHeap's loop stops, filling the hole gives a heap of the
      old entries plus the new one, all inside the arena. */
  lemma InsertDone(ns: seq<Node>, n: nat, a: seq<nat>, i: nat, x: nat, h: seq<nat>)
    requires Hole(ns, a, i, x, h) && !(i > 0 && Key(ns, x) < Key(ns, a[(i - 1) / 2]))
    requires InArena(n, h) && x < n
    ensures IsMinHeap(ns, a[i := x]) && InArena(n, a[i := x])
  {
    SiftUpDone(ns, a, i, x);
    assert InArena(n, h + [x]);
    InArenaPermutation(n, h + [x], a[i := x]);
  }

  /** A heap over node references. `items` is the fixed MAX_CHAR-slot buffer
      (the C field `array`), `size` the number of entries in use; `capacity`
      is set but never read. */
  class MinHeap {
    var size: nat
    var capacity: nat
    const items: array<nat>

    ghost predicate Valid(nodes: array<Node>)
      reads this, items, nodes
    {
      size <= items.Length && InArena(nodes.Length, items[..size])
    }

    constructor (maxChar: nat)
      ensures size == 0 && capacity == 0 && items.Length == maxChar && fresh(items)
    {
      size, capacity := 0, 0;
      items := new nat[maxChar];
    }

    /** createMinHeap: the heap is emptied and its capacity recorded. */
    method CreateMinHeap(cap: nat)
      modifies this
      ensures size == 0 && capacity == cap
    {
      size := 0;
      capacity := cap;
    }

    /** minHeapify(idx): picks the smallest of `idx` and its children in
        use and, when it is a child, swaps it up and recurses into that child.
        The new contents of the buffer are `SiftDown` of the old. */
    method MinHeapify(nodes: array<Node>, idx: nat, tieBreak: bool)
      requires size <= items.Length
      modifies items
      ensures items[..] == SiftDown(nodes[..], old(items[..]), size, idx, tieBreak)
      decreases size - idx
    {
      var smallest := idx;
      var left := 2 * idx + 1;
      var right := 2 * idx + 2;
      if left < size && Precedes(nodes[..], items[left], items[smallest], tieBreak) {
        smallest := left;
      }
      if right < size && Precedes(nodes[..], items[right], items[smallest], tieBreak) {
        smallest := right;
      }
      ghost var h := items[..];
      assert smallest == Smallest(nodes[..], h, size, idx, tieBreak);
      if smallest != idx {
        items[smallest], items[idx] := items[idx], items[smallest];
        assert items[..] == h[smallest := h[idx]][idx := h[smallest]];
        MinHeapify(nodes, smallest, tieBreak);
      }
    }

    /** extractMin: removes and returns the root, which has minimal `freq`;
        the last entry moves to the root and is sifted down. Calling it on an
        empty heap is undefined, hence `size >= 1`. */
    method ExtractMin(nodes: array<Node>, tieBreak: bool) returns (temp: nat)
      requires Valid(nodes) && IsMinHeap(nodes[..], items[..size]) && size >= 1
      modifies this, items
      ensures Valid(nodes) && IsMinHeap(nodes[..], items[..size])
      ensures size == old(size) - 1 && capacity == old(capacity)
      ensures temp == old(items[0]) && temp < nodes.Length
      ensures multiset(items[..size]) + multiset{temp} == old(multiset(items[..size]))
      ensures forall i :: 0 <= i < size ==> Key(nodes[..], temp) <= Key(nodes[..], items[i])
    {
      ghost var ns := nodes[..];
      ghost var full := items[..];
      ghost var n := size - 1;
      assert items[..size] == full[..n + 1];
      ExtractDone(ns, nodes.Length, full, n, tieBreak);
      temp := MoveLastToRoot();
      MinHeapify(nodes, 0, tieBreak);
      ghost var r := items[..size];
      assert r == SiftDown(ns, full[0 := full[n]], n, 0, tieBreak)[..n];
      assert forall i :: 0 <= i < size ==> items[i] == r[i];
    }

    /** The first half of extractMin: takes the root out, moves the last
        entry into its place and shrinks the heap by one. */
    method MoveLastToRoot() returns (temp: nat)
      requires 1 <= size <= items.Length
      modifies this, items
      ensures temp == old(items[0]) && size == old(size) - 1 && capacity == old(capacity)
      ensures items[..] == old(items[..])[0 := old(items[size - 1])]
    {
      temp := items[0];
      items[0] := items[size - 1];
      size := size - 1;
    }

    /** insertMinHeap: grows the heap by one and moves parents heavier than
        the new node down (shifting, not swapping) until its place is found. */
    method InsertMinHeap(nodes: array<Node>, node: nat)
      requires Valid(nodes) && IsMinHeap(nodes[..], items[..size])
      requires size < items.Length && node < nodes.Length
      modifies this, items
      ensures Valid(nodes) && IsMinHeap(nodes[..], items[..size])
      ensures size == old(size) + 1 && capacity == old(capacity)
      ensures multiset(items[..size]) == old(multiset(items[..size])) + multiset{node}
    {
      ghost var ns := nodes[..];
      ghost var h := items[..size];
      size := size + 1;
      var i := size - 1;
      InsertStart(ns, h, items[..size], node);
      while i > 0 && Key(nodes[..], node) < Key(nodes[..], items[(i - 1) / 2])
        invariant 0 <= i < size <= items.Length && size == |h| + 1 && capacity == old(capacity)
        invariant Hole(ns, items[..size], i, node, h)
        decreases i
      {
        ghost var a := items[..size];
        var p := (i - 1) / 2;
        ShiftStep(ns, a, i, node, h);
        items[i] := items[p];
        assert items[..size] == a[i := a[p]];
        i := p;
      }
      ghost var a := items[..size];
      InsertDone(ns, nodes.Length, a, i, node, h);
      items[i] := node;
      assert items[..size] == a[i := node];
    }

    /** buildMinHeap: heapifies bottom-up, from the last parent down to the
        root. The start index is computed with C's truncating division, so a
        heap of size 0 skips the loop and a heap of size 1 heapifies index 0. */
    method BuildMinHeap(nodes: array<Node>, tieBreak: bool)
      requires Valid(nodes)
      modifies items
      ensures Valid(nodes) && IsMinHeap(nodes[..], items[..size])
      ensures multiset(items[..size]) == old(multiset(items[..size]))
    {
      var n: int := size - 1;
      var i := CDiv(n - 1, 2);
      while i >= 0
        invariant i >= -1
        invariant Valid(nodes) && HeapFrom(nodes[..], items[..size], i + 1)
        invariant multiset(items[..size]) == old(multiset(items[..size]))
      {
        ghost var a := items[..];
        assert a[..size] == items[..size];
        SiftDownHeap(nodes[..], a, size, i, tieBreak);
        MinHeapify(nodes, i, tieBreak);
        InArenaPermutation(nodes.Length, a[..size], items[..size]);
        i := i - 1;
      }
    }
  }
}
