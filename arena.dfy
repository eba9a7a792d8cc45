/** The node arena: a fixed array of tree nodes handed out by a bump index.
    Child pointers are replaced by indices into the same array. */
module Arena {

  /** A child reference: NULL, or the index of a node in the arena. */
  datatype Link = Null | Ref(index: nat)

  /** One Huffman tree node (struct MinHeapNode). */
  datatype Node = Node(data: char, freq: nat, left: Link, right: Link)

  /** The contents of a slot before it is allocated (static storage is zeroed). */
  const EmptyNode := Node('\0', 0, Null, Null)

  /** isLeaf: neither child is set. */
  predicate IsLeaf(n: Node) {
    n.left.Null? && n.right.Null?
  }

  /** The child reached by one code bit: '0' goes left, '1' goes right. */
  function Child(n: Node, bit: char): Link {
    if bit == '0' then n.left else n.right
  }

  /** A string made of '0' and '1' only. */
  predicate IsBits(s: string) {
    forall i :: 0 <= i < |s| ==> s[i] == '0' || s[i] == '1'
  }

  ghost predicate Below(l: Link, i: nat) {
    l.Ref? ==> l.index < i
  }

  /** Every child of a node sits at a smaller index than the node itself:
      bump allocation hands out parents after their children, so the node
      graph is acyclic. */
  ghost predicate Acyclic(ns: seq<Node>) {
    forall i :: 0 <= i < |ns| ==> Below(ns[i].left, i) && Below(ns[i].right, i)
  }

  /** Every node's symbol can index a table of `bound` rows. */
  ghost predicate SymbolsBelow(ns: seq<Node>, bound: nat) {
    forall i :: 0 <= i < |ns| ==> ns[i].data as int < bound
  }

  /** The node reached from node `i` by walking the bits of `path`, or Null
      when the walk leaves the tree. */
  ghost function Follow(ns: seq<Node>, i: nat, path: string): (r: Link)
    ensures r.Ref? ==> r.index < |ns|
    ensures r.Ref? && path == [] ==> r.index == i
    decreases |path|
  {
    if i >= |ns| then Null
    else if path == [] then Ref(i)
    else match Child(ns[i], path[0])
      case Null => Null
      case Ref(j) => Follow(ns, j, path[1..])
  }

  /** A node is a leaf exactly when neither bit leads anywhere from it, and
      then no non-empty path does. */
  lemma LeafEnds(ns: seq<Node>, i: nat, p: string)
    requires Acyclic(ns) && i < |ns|
    ensures IsLeaf(ns[i]) <==> Follow(ns, i, "0") == Null && Follow(ns, i, "1") == Null
    ensures IsLeaf(ns[i]) && p != [] ==> Follow(ns, i, p) == Null
  {
    assert "0"[1..] == [] && "1"[1..] == [];
  }

  /** `code` is the root path of a leaf whose symbol is `c`. */
  ghost predicate IsCodeOf(ns: seq<Node>, root: nat, code: string, c: int) {
    IsBits(code) &&
    var r := Follow(ns, root, code);
    r.Ref? && IsLeaf(ns[r.index]) && ns[r.index].data as int == c
  }

  function Max(a: nat, b: nat): nat { if a < b then b else a }

  /** Height of the subtree at `i` (a leaf has height 0). */
  ghost function Height(ns: seq<Node>, i: nat): nat
    requires Acyclic(ns) && i < |ns|
    decreases i
  {
    var n := ns[i];
    var hl := if n.left.Ref? then 1 + Height(ns, n.left.index) else 0;
    var hr := if n.right.Ref? then 1 + Height(ns, n.right.index) else 0;
    Max(hl, hr)
  }

  /** Walking `p` and then `q` is walking `p + q`. */
  lemma {:induction false} FollowConcat(ns: seq<Node>, i: nat, p: string, q: string)
    ensures Follow(ns, i, p + q) ==
            match Follow(ns, i, p)
            case Null => Null
            case Ref(j) => Follow(ns, j, q)
    decreases |p|
  {
    if i >= |ns| || p == [] {
      assert p == [] ==> p + q == q;
    } else {
      assert (p + q)[0] == p[0];
      assert (p + q)[1..] == p[1..] + q;
      match Child(ns[i], p[0])
      case Null =>
      case Ref(j) => FollowConcat(ns, j, p[1..], q);
    }
  }

  /** One more bit moves from the node reached to its child. */
  lemma FollowSnoc(ns: seq<Node>, i: nat, p: string, b: char)
    requires Follow(ns, i, p).Ref?
    ensures Follow(ns, i, p + [b]) ==
            var j := Follow(ns, i, p).index;
            match Child(ns[j], b)
            case Null => Null
            case Ref(k) => Follow(ns, k, [])
  {
    FollowConcat(ns, i, p, [b]);
    var j := Follow(ns, i, p).index;
    assert [b][1..] == [];
  }

  /** A node at depth |p| below `i` has at most the height of `i` minus |p|. */
  lemma {:induction false} FollowHeight(ns: seq<Node>, i: nat, p: string)
    requires Acyclic(ns) && i < |ns| && Follow(ns, i, p).Ref?
    ensures |p| + Height(ns, Follow(ns, i, p).index) <= Height(ns, i)
    decreases |p|
  {
    if p != [] {
      var j := Child(ns[i], p[0]).index;
      FollowHeight(ns, j, p[1..]);
    }
  }

  /** A root path that reaches a leaf cannot be extended to reach a node:
      the leaf has no children. */
  lemma {:induction false} LeafEndsPath(ns: seq<Node>, i: nat, p: string, q: string)
    requires Follow(ns, i, p).Ref? && IsLeaf(ns[Follow(ns, i, p).index]) && q != []
    ensures Follow(ns, i, p + q).Null?
  {
    FollowConcat(ns, i, p, q);
  }

  ghost predicate IsPrefix(p: string, q: string) {
    |p| <= |q| && q[..|p|] == p
  }

  /** Codes of leaves with different symbols are prefix-free: neither is a
      prefix of the other. */
  lemma CodesPrefixFree(ns: seq<Node>, root: nat, p: string, q: string, c1: int, c2: int)
    requires IsCodeOf(ns, root, p, c1) && IsCodeOf(ns, root, q, c2) && c1 != c2
    ensures !IsPrefix(p, q) && !IsPrefix(q, p)
  {
    if IsPrefix(p, q) && |p| < |q| {
      assert q == p + q[|p|..];
      LeafEndsPath(ns, root, p, q[|p|..]);
    }
    if IsPrefix(q, p) && |q| < |p| {
      assert p == q + p[|q|..];
      LeafEndsPath(ns, root, q, p[|q|..]);
    }
    assert |p| == |q| ==> p[..|q|] == p && q[..|p|] == q;
  }

  /** The fixed node array and its bump index (the static `nodes` and `nodeIndex`). */
  class Arena {
    const nodes: array<Node>
    var nodeIndex: nat

    ghost predicate Valid()
      reads this, nodes
    {
      nodeIndex <= nodes.Length && Acyclic(nodes[..])
    }

    /** Static storage at program start: every slot zeroed, index 0. */
    constructor (capacity: nat)
      ensures Valid() && fresh(nodes)
      ensures nodes.Length == capacity && nodeIndex == 0
      ensures forall i :: 0 <= i < capacity ==> nodes[i] == EmptyNode
    {
      nodes := new Node[capacity](_ => EmptyNode);
      nodeIndex := 0;
    }

    /** newNode: takes slot `nodeIndex`, sets both children to NULL and the
        given symbol and frequency, and advances the index by one. Writing
        past the array is undefined, hence the precondition. */
    method NewNode(data: char, freq: nat) returns (temp: nat)
      requires Valid() && nodeIndex < nodes.Length
      modifies this, nodes
      ensures Valid()
      ensures temp == old(nodeIndex) && nodeIndex == old(nodeIndex) + 1
      ensures nodes[..] == old(nodes[..])[temp := Node(data, freq, Null, Null)]
    {
      temp := nodeIndex;
      nodes[temp] := Node(data, freq, Null, Null);
      nodeIndex := nodeIndex + 1;
      assert forall i :: 0 <= i < nodes.Length && i != temp ==> nodes[i] == old(nodes[i]);
    }

    /** Links an internal node to its two children, both in lower slots. */
    method SetChildren(parent: nat, left: nat, right: nat)
      requires Valid() && parent < nodes.Length && left < parent && right < parent
      modifies nodes
      ensures Valid()
      ensures nodes[..] == old(nodes[..])[parent := old(nodes[parent]).(left := Ref(left), right := Ref(right))]
    {
      nodes[parent] := nodes[parent].(left := Ref(left), right := Ref(right));
      assert forall i :: 0 <= i < nodes.Length && i != parent ==> nodes[i] == old(nodes[i]);
    }
  }
}
