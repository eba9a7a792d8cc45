/** The forest buildHuffmanTree grows in the arena, stated on sequences:
    leaves for the unique symbols, merged '$' parents above them, and the
    invariant of the merging loop with the lemmas that keep it. */
module Forest {
  import opened Arena
  import opened Heap

  /** The symbol written into every merged (internal) node. */
  const Internal: char := '$'

  /** The sum of a sequence of frequencies. */
  function Total(s: seq<nat>): nat
    decreases |s|
  {
    if s == [] then 0 else Total(s[..|s| - 1]) + s[|s| - 1]
  }

  /** The consecutive slots `lo`, `lo + 1`, …, `lo + n - 1`. */
  function Iota(lo: nat, n: nat): (r: seq<nat>)
    ensures |r| == n
    ensures forall i :: 0 <= i < n ==> r[i] == lo + i
    decreases n
  {
    if n == 0 then [] else Iota(lo, n - 1) + [lo + n - 1]
  }

  /** Every heap entry lies in the slots `[lo, hi)`. */
  ghost predicate EntriesIn(h: seq<nat>, lo: nat, hi: nat) {
    forall i :: 0 <= i < |h| ==> lo <= h[i] < hi
  }

  /** Slot `i` holds a merged node: symbol '$', two children allocated
      between `start` and `i`, the sum of their frequencies, and the first
      extracted (left) child no heavier than the second (right). */
  ghost predicate Merged(ns: seq<Node>, start: nat, i: nat) {
    i < |ns| &&
    var n := ns[i];
    n.data == Internal && n.left.Ref? && n.right.Ref? &&
    start <= n.left.index < i && start <= n.right.index < i &&
    n.freq == ns[n.left.index].freq + ns[n.right.index].freq &&
    ns[n.left.index].freq <= ns[n.right.index].freq
  }

  /** The '$' parent of the trees at `l` and `r`: it weighs both. */
  function Parent(ns: seq<Node>, l: nat, r: nat): Node {
    Node(Internal, Key(ns, l) + Key(ns, r), Ref(l), Ref(r))
  }

  /** The slots `[start, k)` hold the `size` leaves for `data`/`freq`
      followed by merged nodes. */
  ghost predicate Built(ns: seq<Node>, start: nat, data: seq<char>, freq: seq<nat>, size: nat, k: nat) {
    start + size <= k <= |ns| && size <= |data| && size <= |freq| &&
    (forall j :: start <= j < start + size ==> ns[j] == Node(data[j - start], freq[j - start], Null, Null)) &&
    (forall j :: start + size <= j < k ==> Merged(ns, start, j))
  }

  /** Outside the slots `[lo, hi)` the arena is as it was. */
  ghost predicate Unchanged(ns0: seq<Node>, ns: seq<Node>, lo: nat, hi: nat) {
    |ns0| == |ns| && forall j {:trigger ns0[j]} :: 0 <= j < |ns| && !(lo <= j < hi) ==> ns[j] == ns0[j]
  }

  /** Allocating the parent of two built trees, the lighter on the left,
      extends the built slots by one. */
  lemma BuiltStep(ns0: seq<Node>, ns: seq<Node>, ns': seq<Node>, start: nat, data: seq<char>, freq: seq<nat>,
                  size: nat, k: nat, l: nat, r: nat)
    requires Built(ns, start, data, freq, size, k) && Unchanged(ns0, ns, start, k) && k < |ns|
    requires start <= l < k && start <= r < k && ns[l].freq <= ns[r].freq
    requires ns' == ns[k := Parent(ns, l, r)]
    ensures Built(ns', start, data, freq, size, k + 1) && Unchanged(ns0, ns', start, k + 1)
  {
    forall j | start + size <= j < k + 1
      ensures Merged(ns', start, j)
    {
      if j < k {
        assert Merged(ns, start, j);
      }
    }
  }

  /** A built tree is only as high as the number of merges below its root. */
  lemma {:induction false} BuiltHeight(ns: seq<Node>, start: nat, data: seq<char>, freq: seq<nat>, size: nat, k: nat, i: nat)
    requires Acyclic(ns) && Built(ns, start, data, freq, size, k) && start <= i < k
    ensures Height(ns, i) <= if i < start + size then 0 else i - start - size + 1
    decreases i
  {
    if i >= start + size {
      assert Merged(ns, start, i);
      BuiltHeight(ns, start, data, freq, size, k, ns[i].left.index);
      BuiltHeight(ns, start, data, freq, size, k, ns[i].right.index);
    }
  }

  /** The leaves freshly put in the heap weigh the total frequency. */
  lemma {:induction false} SumLeaves(ns: seq<Node>, start: nat, freq: seq<nat>, n: nat)
    requires n <= |freq| && start + n <= |ns|
    requires forall j :: start <= j < start + n ==> ns[j].freq == freq[j - start]
    ensures SumFreq(ns, Iota(start, n)) == Total(freq[..n])
    decreases n
  {
    if n > 0 {
      SumLeaves(ns, start, freq, n - 1);
      SumConcat(ns, Iota(start, n - 1), [start + n - 1]);
      assert freq[..n][..n - 1] == freq[..n - 1];
      assert Iota(start, n) == Iota(start, n - 1) + [start + n - 1];
    }
  }

  /** The keys of the first `k` slots are the same in both arenas. */
  ghost predicate SameKeysBelow(ns: seq<Node>, ns': seq<Node>, k: nat) {
    k <= |ns| == |ns'| && forall j :: 0 <= j < k ==> ns'[j].freq == ns[j].freq
  }

  /** Heap and total only depend on the keys of the entries, so changing the
      arena at or above every entry keeps both. */
  lemma KeysBelowFrame(ns: seq<Node>, ns': seq<Node>, h: seq<nat>, k: nat)
    requires SameKeysBelow(ns, ns', k) && EntriesIn(h, 0, k)
    ensures IsMinHeap(ns, h) ==> IsMinHeap(ns', h)
    ensures SumFreq(ns, h) == SumFreq(ns', h)
  {
    assert forall i :: 0 <= i < |h| ==> Key(ns, h[i]) == Key(ns', h[i]);
    if IsMinHeap(ns, h) {
      HeapFrame(ns, ns', h, 0);
    }
    SumFrame(ns, ns', h);
  }

  /** Entries taken out of a heap lay where the heap's entries lay. */
  lemma EntriesSub(small: seq<nat>, big: seq<nat>, lo: nat, hi: nat)
    requires multiset(small) <= multiset(big) && EntriesIn(big, lo, hi)
    ensures EntriesIn(small, lo, hi)
  {
    forall i | 0 <= i < |small|
      ensures lo <= small[i] < hi
    {
      assert small[i] in multiset(small);
      assert small[i] in multiset(big);
      var j :| 0 <= j < |big| && big[j] == small[i];
    }
  }

  /** Inserting an entry inside the slots keeps the entries inside them. */
  lemma EntriesInsert(h: seq<nat>, h': seq<nat>, x: nat, lo: nat, hi: nat)
    requires multiset(h') <= multiset(h) + multiset{x} && EntriesIn(h, lo, hi) && lo <= x < hi
    ensures EntriesIn(h', lo, hi)
  {
    forall i | 0 <= i < |h'|
      ensures lo <= h'[i] < hi
    {
      assert h'[i] in multiset(h');
      if h'[i] != x {
        assert h'[i] in multiset(h);
        var j :| 0 <= j < |h| && h[j] == h'[i];
      }
    }
  }

  /** Taking out `l` and then `r` takes out both. */
  lemma TakeTwo(h0: seq<nat>, h1: seq<nat>, h2: seq<nat>, l: nat, r: nat)
    requires multiset(h1) + multiset{l} == multiset(h0)
    requires multiset(h2) + multiset{r} == multiset(h1)
    ensures multiset(h2) + multiset{l, r} == multiset(h0)
  {
  }

  /** Taking out `l` and `r` and putting in `t`, as multisets. */
  lemma ReplaceTwo(h0: seq<nat>, h2: seq<nat>, h3: seq<nat>, l: nat, r: nat, t: nat)
    requires multiset(h2) + multiset{l, r} == multiset(h0)
    requires multiset(h3) == multiset(h2) + multiset{t}
    ensures multiset{l, r} <= multiset(h0) && multiset(h2) <= multiset(h0)
    ensures multiset(h3) == multiset(h0) - multiset{l, r} + multiset{t}
  {
    assert multiset(h2) == multiset(h0) - multiset{l, r};
  }

  /** One round of buildHuffmanTree's loop, on the heap's contents: take out
      `l` and `r`, put in the new node `t` that weighs both. The total weight
      in the heap is unchanged. */
  lemma MergeKeepsTotal(ns: seq<Node>, ns': seq<Node>, h0: seq<nat>, h3: seq<nat>, l: nat, r: nat, t: nat)
    requires multiset{l, r} <= multiset(h0)
    requires multiset(h3) == multiset(h0) - multiset{l, r} + multiset{t}
    requires SameKeysBelow(ns, ns', t) && EntriesIn(h0, 0, t) && t < |ns'|
    requires ns'[t].freq == Key(ns, l) + Key(ns, r)
    ensures SumFreq(ns', h3) == SumFreq(ns, h0)
  {
    ExtractedBelow(h0, h0, l, r, t);
    assert multiset(h3 + [l] + [r]) == multiset(h0 + [t]);
    SumPermutation(ns', h3 + [l] + [r], h0 + [t]);
    SumSnoc(ns', h3, l);
    SumSnoc(ns', h3 + [l], r);
    SumSnoc(ns', h0, t);
    KeysBelowFrame(ns, ns', h0, t);
  }

  /** What holds at the head of buildHuffmanTree's loop, on the arena `ns`,
      the heap contents `h` and the bump index `k`: the heap holds the roots
      of the trees built so far, inside the built slots, as a min-heap of
      total weight the sum of all frequencies; one slot has been allocated
      per leaf and per merge. */
  ghost predicate Progress(ns: seq<Node>, h: seq<nat>, k: nat, ns0: seq<Node>, start: nat,
                           data: seq<char>, freq: seq<nat>, size: nat) {
    IsMinHeap(ns, h) &&
    1 <= |h| <= size && start + 2 * size - 1 <= |ns| &&
    k == start + size + (size - |h|) &&
    EntriesIn(h, start, k) &&
    Built(ns, start, data, freq, size, k) &&
    Unchanged(ns0, ns, start, k) &&
    SumFreq(ns, h) == Total(freq[..size])
  }

  /** While two trees are left there is a free slot for their parent, and
      every root in the heap lies below the bump index. */
  lemma ProgressRoom(ns: seq<Node>, h: seq<nat>, k: nat, ns0: seq<Node>, start: nat,
                     data: seq<char>, freq: seq<nat>, size: nat)
    requires Progress(ns, h, k, ns0, start, data, freq, size) && |h| > 1
    ensures k < |ns| && EntriesIn(h, 0, k)
  {
  }

  /** Entries taken out of a heap, and the heap that remains, lie below
      every bound the heap's entries lay below. */
  lemma ExtractedBelow(h0: seq<nat>, h2: seq<nat>, l: nat, r: nat, k: nat)
    requires EntriesIn(h0, 0, k) && multiset{l, r} <= multiset(h0) && multiset(h2) <= multiset(h0)
    ensures l < k && r < k && EntriesIn(h2, 0, k)
  {
    EntriesSub([l, r], h0, 0, k);
    assert [l, r][0] == l && [l, r][1] == r;
    EntriesSub(h2, h0, 0, k);
  }

  /** Allocating the parent at slot `k` keeps the rest of the heap a heap. */
  lemma ParentKeepsHeap(ns: seq<Node>, ns': seq<Node>, h2: seq<nat>, k: nat, v: Node)
    requires IsMinHeap(ns, h2) && EntriesIn(h2, 0, k) && k < |ns| && ns' == ns[k := v]
    ensures IsMinHeap(ns', h2) && SameKeysBelow(ns, ns', k)
  {
    KeysBelowFrame(ns, ns', h2, k);
  }

  /** One round of buildHuffmanTree's loop keeps `Progress`: `l` and `r`
      were taken out of the heap, their parent put at slot `k` and put into
      the heap. */
  lemma MergeStep(ns: seq<Node>, ns': seq<Node>, h0: seq<nat>, h3: seq<nat>, k: nat, k': nat, l: nat, r: nat,
                  ns0: seq<Node>, start: nat, data: seq<char>, freq: seq<nat>, size: nat)
    requires Progress(ns, h0, k, ns0, start, data, freq, size) && |h0| > 1
    requires multiset{l, r} <= multiset(h0) && Key(ns, l) <= Key(ns, r)
    requires k < |ns| && ns' == ns[k := Parent(ns, l, r)] && k' == k + 1
    requires IsMinHeap(ns', h3) && multiset(h3) == multiset(h0) - multiset{l, r} + multiset{k}
    ensures Progress(ns', h3, k', ns0, start, data, freq, size)
  {
    ProgressRoom(ns, h0, k, ns0, start, data, freq, size);
    EntriesSub([l, r], h0, start, k);
    assert [l, r][0] == l && [l, r][1] == r;
    assert |h3| + 1 == |h0| by {
      assert multiset(h0) == (multiset(h0) - multiset{l, r}) + multiset{l, r};
      assert |multiset(h3)| == |multiset(h0) - multiset{l, r}| + 1;
    }
    BuiltStep(ns0, ns, ns', start, data, freq, size, k, l, r);
    assert SameKeysBelow(ns, ns', k);
    MergeKeepsTotal(ns, ns', h0, h3, l, r, k);
    assert EntriesIn(h0, start, k + 1);
    EntriesInsert(h0, h3, k, start, k + 1);
  }

  /** Right after createAndBuildMinHeap the loop's `Progress` holds: the
      heap holds exactly the `size` fresh leaves. */
  lemma ProgressStart(ns: seq<Node>, h: seq<nat>, ns0: seq<Node>, start: nat,
                      data: seq<char>, freq: seq<nat>, size: nat)
    requires 1 <= size && start + 2 * size - 1 <= |ns|
    requires Built(ns, start, data, freq, size, start + size) && Unchanged(ns0, ns, start, start + size)
    requires IsMinHeap(ns, h) && multiset(h) == multiset(Iota(start, size))
    ensures Progress(ns, h, start + size, ns0, start, data, freq, size)
  {
    assert |h| == size by {
      assert |multiset(h)| == |multiset(Iota(start, size))|;
    }
    SumPermutation(ns, h, Iota(start, size));
    SumLeaves(ns, start, freq, size);
    EntriesSub(h, Iota(start, size), start, start + size);
  }

  /** When one tree is left, its root is the last slot's tree: it weighs the
      total frequency and is at most `size - 1` high. */
  lemma ProgressEnd(ns: seq<Node>, h: seq<nat>, k: nat, ns0: seq<Node>, start: nat,
                    data: seq<char>, freq: seq<nat>, size: nat)
    requires Acyclic(ns) && Progress(ns, h, k, ns0, start, data, freq, size) && |h| <= 1
    ensures |h| == 1 && k == start + 2 * size - 1 && start <= h[0] < k
    ensures Key(ns, h[0]) == Total(freq[..size])
    ensures Height(ns, h[0]) <= size - 1
  {
    assert SumFreq(ns, h) == Key(ns, h[0]) by {
      assert h[1..] == [];
    }
    BuiltHeight(ns, start, data, freq, size, k, h[0]);
  }

  /** Slot `c` is a child of slot `p`. */
  ghost predicate ChildOf(ns: seq<Node>, p: nat, c: nat) {
    p < |ns| && (ns[p].left == Ref(c) || ns[p].right == Ref(c))
  }

  /** Slots `p` and `q` have a child in common. */
  ghost predicate SharedChild(ns: seq<Node>, p: nat, q: nat) {
    exists c :: ChildOf(ns, p, c) && ChildOf(ns, q, c)
  }

  /** Within the slots `[start, k)` no slot has two parents (no two slots
      share a child), and no parent has the same child on both sides. */
  ghost predicate SingleParents(ns: seq<Node>, start: nat, k: nat) {
    (forall p, q :: start <= p < q < k ==> !SharedChild(ns, p, q)) &&
    (forall p :: start <= p < k && p < |ns| && ns[p].left.Ref? ==> ns[p].left != ns[p].right)
  }

  /** Slot `c` is the child of some slot of `[start, k)`. */
  ghost predicate HasParent(ns: seq<Node>, start: nat, k: nat, c: nat) {
    exists p :: start <= p < k && ChildOf(ns, p, c)
  }

  /** The heap's entries are the roots of a forest over the slots
      `[start, k)`: each entry is in the heap once and is nobody's child, and
      every other slot of the range is the child of exactly one slot of it. */
  ghost predicate RootsOf(ns: seq<Node>, h: seq<nat>, start: nat, k: nat) {
    SingleParents(ns, start, k) &&
    (forall x :: multiset(h)[x] <= 1) &&
    (forall p, i :: start <= p < k && 0 <= i < |h| ==> !ChildOf(ns, p, h[i])) &&
    (forall c :: start <= c < k && c !in multiset(h) ==> HasParent(ns, start, k, c))
  }

  /** The slots `[start, k)` form one tree under `root`: the root is nobody's
      child, and every other slot is the child of exactly one slot. */
  ghost predicate IsTree(ns: seq<Node>, start: nat, k: nat, root: nat) {
    start <= root < k && SingleParents(ns, start, k) &&
    (forall p :: start <= p < k ==> !ChildOf(ns, p, root)) &&
    (forall c :: start <= c < k && c != root ==> HasParent(ns, start, k, c))
  }

  /** Appending `y` adds one occurrence of `y` and of nothing else. */
  lemma MultisetSnoc(s: seq<nat>, y: nat, x: nat)
    ensures multiset(s + [y])[x] == multiset(s)[x] + if x == y then 1 else 0
  {
    assert multiset(s + [y]) == multiset(s) + multiset([y]);
  }

  /** Consecutive slots hold each slot of their range once. */
  lemma {:induction false} IotaOnce(s: seq<nat>, lo: nat, x: nat)
    requires forall i :: 0 <= i < |s| ==> s[i] == lo + i
    ensures lo <= x < lo + |s| ==> multiset(s)[x] == 1
    ensures !(lo <= x < lo + |s|) ==> multiset(s)[x] == 0
    decreases |s|
  {
    if s != [] {
      var p := s[..|s| - 1];
      IotaOnce(p, lo, x);
      assert s == p + [s[|s| - 1]];
      MultisetSnoc(p, s[|s| - 1], x);
    }
  }

  /** The freshly heapified leaves are the roots of a forest of leaves. */
  lemma RootsStart(ns: seq<Node>, h: seq<nat>, start: nat, data: seq<char>, freq: seq<nat>, size: nat)
    requires Built(ns, start, data, freq, size, start + size) && multiset(h) == multiset(Iota(start, size))
    ensures RootsOf(ns, h, start, start + size)
  {
    assert forall p, c :: start <= p < start + size ==> !ChildOf(ns, p, c);
    var leaves := Iota(start, size);
    forall x
      ensures multiset(h)[x] <= 1
    {
      IotaOnce(leaves, start, x);
    }
    forall c | start <= c < start + size
      ensures c in multiset(h)
    {
      IotaOnce(leaves, start, c);
    }
  }

  /** An entry of a heap whose entries each occur once. */
  lemma OnceEntry(h: seq<nat>, x: nat)
    requires (forall y :: multiset(h)[y] <= 1) && x in multiset(h)
    ensures exists i :: 0 <= i < |h| && h[i] == x
  {
  }

  /** One merge keeps the heap's entries the roots of the forest: `l` and
      `r`, roots until now, become the children of the new slot `k`, which
      replaces them in the heap. */
  lemma RootsStep(ns: seq<Node>, ns': seq<Node>, h0: seq<nat>, h3: seq<nat>, start: nat, k: nat, l: nat, r: nat)
    requires Acyclic(ns) && RootsOf(ns, h0, start, k) && EntriesIn(h0, start, k) && k < |ns|
    requires multiset{l, r} <= multiset(h0) && ns' == ns[k := Parent(ns, l, r)]
    requires multiset(h3) == multiset(h0) - multiset{l, r} + multiset{k}
    ensures RootsOf(ns', h3, start, k + 1)
  {
    var m0 := multiset(h0);
    assert multiset{l, r}[l] <= m0[l] <= 1;
    assert l != r;
    assert forall i :: 0 <= i < |h0| ==> h0[i] != k;
    assert k !in m0;
    OnceEntry(h0, l);
    OnceEntry(h0, r);
    var il :| 0 <= il < |h0| && h0[il] == l;
    var ir :| 0 <= ir < |h0| && h0[ir] == r;
    assert forall p, c :: start <= p < k ==> (ChildOf(ns', p, c) <==> ChildOf(ns, p, c));
    assert forall c :: ChildOf(ns', k, c) <==> c == l || c == r;
    assert forall p :: start <= p < k ==> !ChildOf(ns, p, l) && !ChildOf(ns, p, r);
    forall p, q | start <= p < q < k + 1
      ensures !SharedChild(ns', p, q)
    {
      if q < k {
        assert !SharedChild(ns, p, q);
      }
    }
    forall x
      ensures multiset(h3)[x] <= 1
    {
      assert m0[x] <= 1;
    }
    forall p, i | start <= p < k + 1 && 0 <= i < |h3|
      ensures !ChildOf(ns', p, h3[i])
    {
      var x := h3[i];
      assert x in multiset(h3);
      if x != k {
        assert x in m0 && x != l && x != r;
        OnceEntry(h0, x);
        var j :| 0 <= j < |h0| && h0[j] == x;
        assert !ChildOf(ns, p, h0[j]) || p == k;
      }
    }
    forall c | start <= c < k + 1 && c !in multiset(h3)
      ensures HasParent(ns', start, k + 1, c)
    {
      if c == l || c == r {
        assert ChildOf(ns', k, c);
      } else {
        assert c != k && c !in m0;
        var p :| start <= p < k && ChildOf(ns, p, c);
        assert ChildOf(ns', p, c);
      }
    }
  }

  /** One root left: the forest is a single tree under it. */
  lemma RootsEnd(ns: seq<Node>, h: seq<nat>, start: nat, k: nat)
    requires RootsOf(ns, h, start, k) && |h| == 1 && start <= h[0] < k
    ensures IsTree(ns, start, k, h[0])
  {
    assert multiset(h) == multiset{h[0]};
  }
}
