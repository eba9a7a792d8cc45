/** createAndBuildMinHeap and buildHuffmanTree: leaves are allocated for the
    unique symbols, heapified, and merged two lightest at a time under a new
    '$' parent until one tree remains. */
module Builder {
  import opened Arena
  import opened Heap
  import opened Forest

  /** createAndBuildMinHeap: allocates one leaf per unique symbol into
      consecutive arena slots, puts them in the heap in that order and
      heapifies. */
  method CreateAndBuildMinHeap(arena: Arena, heap: MinHeap, data: seq<char>, freq: seq<nat>, size: nat, tieBreak: bool)
    requires arena.Valid()
    requires size <= |data| && size <= |freq| && size <= heap.items.Length
    requires arena.nodeIndex + size <= arena.nodes.Length
    modifies arena, arena.nodes, heap, heap.items
    ensures arena.Valid() && arena.nodeIndex == old(arena.nodeIndex) + size
    ensures Built(arena.nodes[..], old(arena.nodeIndex), data, freq, size, arena.nodeIndex)
    ensures Unchanged(old(arena.nodes[..]), arena.nodes[..], old(arena.nodeIndex), arena.nodeIndex)
    ensures heap.Valid(arena.nodes) && heap.size == size && heap.capacity == size
    ensures IsMinHeap(arena.nodes[..], heap.items[..size])
    ensures multiset(heap.items[..size]) == multiset(Iota(old(arena.nodeIndex), size))
  {
    ghost var start := arena.nodeIndex;
    ghost var ns0 := arena.nodes[..];
    heap.CreateMinHeap(size);
    for i := 0 to size
      invariant arena.Valid() && arena.nodeIndex == start + i
      invariant forall j :: 0 <= j < i ==> heap.items[j] == start + j
      invariant Built(arena.nodes[..], start, data, freq, i, start + i)
      invariant Unchanged(ns0, arena.nodes[..], start, start + i)
      invariant heap.size == 0 && heap.capacity == size
    {
      var t := arena.NewNode(data[i], freq[i]);
      heap.items[i] := t;
    }
    heap.size := size;
    assert heap.items[..size] == Iota(start, size);
    heap.BuildMinHeap(arena.nodes, tieBreak);
    assert Built(arena.nodes[..], start, data, freq, size, start + size);
  }

  /** The two extractions at the head of each merging round: the two
      lightest entries leave the heap, the first no heavier than the second
      and the second no heavier than any entry left. */
  method ExtractTwo(heap: MinHeap, nodes: array<Node>, tieBreak: bool) returns (left: nat, right: nat)
    requires heap.Valid(nodes) && IsMinHeap(nodes[..], heap.items[..heap.size]) && heap.size >= 2
    modifies heap, heap.items
    ensures heap.Valid(nodes) && IsMinHeap(nodes[..], heap.items[..heap.size])
    ensures heap.size == old(heap.size) - 2
    ensures multiset(heap.items[..heap.size]) + multiset{left, right} == old(multiset(heap.items[..heap.size]))
    ensures Key(nodes[..], left) <= Key(nodes[..], right)
    ensures forall i :: 0 <= i < heap.size ==> Key(nodes[..], right) <= Key(nodes[..], heap.items[i])
  {
    ghost var h0 := heap.items[..heap.size];
    left := heap.ExtractMin(nodes, tieBreak);
    ghost var h1 := heap.items[..heap.size];
    right := heap.ExtractMin(nodes, tieBreak);
    TakeTwo(h0, h1, heap.items[..heap.size], left, right);
  }

  /** Allocates a '$' node weighing both children and links them below it:
      the parent of `left` and `right` takes the next slot. */
  method MakeParent(arena: Arena, left: nat, right: nat) returns (top: nat)
    requires arena.Valid() && arena.nodeIndex < arena.nodes.Length
    requires left < arena.nodeIndex && right < arena.nodeIndex
    modifies arena, arena.nodes
    ensures arena.Valid() && top == old(arena.nodeIndex) && arena.nodeIndex == top + 1
    ensures arena.nodes[..] == old(arena.nodes[..])[top := Parent(old(arena.nodes[..]), left, right)]
  {
    ghost var f := arena.nodes[left].freq + arena.nodes[right].freq;
    top := arena.NewNode(Internal, arena.nodes[left].freq + arena.nodes[right].freq);
    ghost var ns1 := arena.nodes[..];
    arena.SetChildren(top, left, right);
    assert arena.nodes[..] == ns1[top := Node(Internal, f, Ref(left), Ref(right))];
  }

  /** One round of buildHuffmanTree's loop: extract the two lightest trees,
      allocate a '$' parent weighing both with the first extracted as left
      child, and insert it. The heap loses `left` and `right` and gains
      `top`. */
  method MergeLightest(arena: Arena, heap: MinHeap, tieBreak: bool) returns (left: nat, right: nat, top: nat)
    requires arena.Valid() && heap.Valid(arena.nodes) && IsMinHeap(arena.nodes[..], heap.items[..heap.size])
    requires heap.size > 1 && arena.nodeIndex < arena.nodes.Length
    requires EntriesIn(heap.items[..heap.size], 0, arena.nodeIndex)
    modifies arena, arena.nodes, heap, heap.items
    ensures arena.Valid() && heap.Valid(arena.nodes) && IsMinHeap(arena.nodes[..], heap.items[..heap.size])
    ensures heap.size == old(heap.size) - 1
    ensures top == old(arena.nodeIndex) && arena.nodeIndex == top + 1
    ensures arena.nodes[..] == old(arena.nodes[..])[top := Parent(old(arena.nodes[..]), left, right)]
    ensures Key(old(arena.nodes[..]), left) <= Key(old(arena.nodes[..]), right)
    ensures multiset{left, right} <= old(multiset(heap.items[..heap.size]))
    ensures multiset(heap.items[..heap.size]) == old(multiset(heap.items[..heap.size])) - multiset{left, right} + multiset{top}
  {
    ghost var ns := arena.nodes[..];
    ghost var k := arena.nodeIndex;
    ghost var h0 := heap.items[..heap.size];
    left, right := ExtractTwo(heap, arena.nodes, tieBreak);
    ghost var h2 := heap.items[..heap.size];
    assert multiset(h2) <= multiset(h0) && multiset{left, right} <= multiset(h0) by {
      ReplaceTwo(h0, h2, h2 + [k], left, right, k);
    }
    ExtractedBelow(h0, h2, left, right, k);
    top := MakeParent(arena, left, right);
    ParentKeepsHeap(ns, arena.nodes[..], h2, k, arena.nodes[k]);
    heap.InsertMinHeap(arena.nodes, top);
    ReplaceTwo(h0, h2, heap.items[..heap.size], left, right, top);
  }

  /** One round of buildHuffmanTree's loop keeps its invariant: the heap
      holds the roots of the forest built so far, one fewer than before. */
  method MergeRound(arena: Arena, heap: MinHeap, ghost ns0: seq<Node>, ghost start: nat,
                    ghost data: seq<char>, ghost freq: seq<nat>, ghost size: nat, tieBreak: bool)
    requires arena.Valid() && heap.Valid(arena.nodes) && heap.size > 1
    requires Progress(arena.nodes[..], heap.items[..heap.size], arena.nodeIndex, ns0, start, data, freq, size)
    requires RootsOf(arena.nodes[..], heap.items[..heap.size], start, arena.nodeIndex)
    modifies arena, arena.nodes, heap, heap.items
    ensures arena.Valid() && heap.Valid(arena.nodes) && heap.size == old(heap.size) - 1
    ensures Progress(arena.nodes[..], heap.items[..heap.size], arena.nodeIndex, ns0, start, data, freq, size)
    ensures RootsOf(arena.nodes[..], heap.items[..heap.size], start, arena.nodeIndex)
  {
    ProgressRoom(arena.nodes[..], heap.items[..heap.size], arena.nodeIndex, ns0, start, data, freq, size);
    ghost var ns := arena.nodes[..];
    ghost var h0 := heap.items[..heap.size];
    ghost var k := arena.nodeIndex;
    var left, right, top := MergeLightest(arena, heap, tieBreak);
    MergeStep(ns, arena.nodes[..], h0, heap.items[..heap.size], k, arena.nodeIndex, left, right, ns0, start, data, freq, size);
    RootsStep(ns, arena.nodes[..], h0, heap.items[..heap.size], start, k, left, right);
  }

  /** buildHuffmanTree: builds the heap of leaves, then while more than one
      tree is left merges the two lightest, and returns the last tree. With
      fewer than one symbol the source extracts from an empty heap
      (undefined), hence `size >= 1`; the arena must hold the `size` leaves
      and `size - 1` parents. The new slots form one tree under the root. */
  method BuildHuffmanTree(arena: Arena, data: seq<char>, freq: seq<nat>, size: nat, maxChar: nat, tieBreak: bool)
    returns (root: nat)
    requires arena.Valid()
    requires 1 <= size <= maxChar && size <= |data| && size <= |freq|
    requires arena.nodeIndex + 2 * size - 1 <= arena.nodes.Length
    modifies arena, arena.nodes
    ensures arena.Valid() && arena.nodeIndex == old(arena.nodeIndex) + 2 * size - 1
    ensures Built(arena.nodes[..], old(arena.nodeIndex), data, freq, size, arena.nodeIndex)
    ensures Unchanged(old(arena.nodes[..]), arena.nodes[..], old(arena.nodeIndex), arena.nodeIndex)
    ensures old(arena.nodeIndex) <= root < arena.nodeIndex
    ensures arena.nodes[root].freq == Total(freq[..size])
    ensures Height(arena.nodes[..], root) <= size - 1
    ensures IsTree(arena.nodes[..], old(arena.nodeIndex), arena.nodeIndex, root)
  {
    ghost var start := arena.nodeIndex;
    ghost var ns0 := arena.nodes[..];
    var heap := new MinHeap(maxChar);
    CreateAndBuildMinHeap(arena, heap, data, freq, size, tieBreak);
    ProgressStart(arena.nodes[..], heap.items[..heap.size], ns0, start, data, freq, size);
    RootsStart(arena.nodes[..], heap.items[..heap.size], start, data, freq, size);
    while heap.size > 1
      invariant arena.Valid() && heap.Valid(arena.nodes)
      invariant Progress(arena.nodes[..], heap.items[..heap.size], arena.nodeIndex, ns0, start, data, freq, size)
      invariant RootsOf(arena.nodes[..], heap.items[..heap.size], start, arena.nodeIndex)
      invariant fresh(heap) && fresh(heap.items)
      decreases heap.size
    {
      MergeRound(arena, heap, ns0, start, data, freq, size, tieBreak);
    }
    ProgressEnd(arena.nodes[..], heap.items[..heap.size], arena.nodeIndex, ns0, start, data, freq, size);
    RootsEnd(arena.nodes[..], heap.items[..heap.size], start, arena.nodeIndex);
    ghost var last := heap.items[..heap.size];
    root := heap.ExtractMin(arena.nodes, tieBreak);
    assert root == last[0];
  }
}