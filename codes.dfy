/** Code generation: the iterative traversal with an explicit node stack,
    a bit stack and per-depth visited flags (generateCodes in
    huffman_t2_clock.c, printCodes in huffman.c), and the recursive one
    writing into a shared code buffer (generateCodes in huffman_vlad.c).
    The code table has one row per symbol; a row is the string its C buffer
    holds, and a row never written is the empty string of zeroed storage. */
module Codes {
  import opened Arena
  import opened CString

  /** The bit stack holds only 0 and 1. */
  predicate Binary(a: seq<int>) {
    forall i :: 0 <= i < |a| ==> a[i] == 0 || a[i] == 1
  }

  /** `arr[i] + '0'` for every entry of the bit stack. */
  function Digits(a: seq<int>): (s: string)
    requires Binary(a)
    ensures |s| == |a| && IsBits(s)
    ensures forall i :: 0 <= i < |a| ==> s[i] as int == a[i] + '0' as int
  {
    seq(|a|, i requires 0 <= i < |a| => (a[i] + '0' as int) as char)
  }

  /** One more entry on the bit stack is one more digit. */
  lemma DigitsSnoc(a: seq<int>, k: nat)
    requires k < |a| && Binary(a[..k + 1])
    ensures Binary(a[..k]) && Digits(a[..k + 1]) == Digits(a[..k]) + [(a[k] + '0' as int) as char]
  {
    assert a[..k + 1][..k] == a[..k];
  }

  /** The number of unset visited flags. */
  function Unvisited(v: seq<bool>): nat
    decreases |v|
  {
    if v == [] then 0 else Unvisited(v[..|v| - 1]) + (if v[|v| - 1] then 0 else 1)
  }

  /** Setting an unset flag lowers the number of unset flags. */
  lemma {:induction false} UnvisitedSet(v: seq<bool>, i: nat)
    requires i < |v| && !v[i]
    ensures Unvisited(v[i := true]) < Unvisited(v)
    decreases |v|
  {
    var w := v[i := true];
    if i < |v| - 1 {
      assert w[..|w| - 1] == v[..|v| - 1][i := true];
      UnvisitedSet(v[..|v| - 1], i);
    } else {
      assert w[..|w| - 1] == v[..|v| - 1];
    }
  }

  /** One more bit on a path that reaches a node moves to that node's child. */
  lemma FollowChild(ns: seq<Node>, root: nat, p: string, b: char)
    requires Acyclic(ns) && Follow(ns, root, p).Ref?
    ensures Follow(ns, root, p + [b]) == Child(ns[Follow(ns, root, p).index], b)
  {
    FollowSnoc(ns, root, p, b);
    var j := Follow(ns, root, p).index;
    assert Below(ns[j].left, j) && Below(ns[j].right, j);
  }

  /** Every row of `codes` is either as it was in `codes0` or the root path of
      a leaf carrying that row's symbol. */
  ghost predicate Sound(ns: seq<Node>, root: nat, codes0: seq<string>, codes: seq<string>) {
    |codes0| == |codes| &&
    forall c :: 0 <= c < |codes| ==> codes[c] == codes0[c] || IsCodeOf(ns, root, codes[c], c)
  }

  /** The traversal's stack: entry `k` is the node reached by the first `k`
      bits, and `current`, when set, is the node reached by all of them. */
  ghost predicate StackPaths(ns: seq<Node>, root: nat, stack: seq<nat>, arr: seq<int>, top: nat, current: Link)
  {
    top <= |stack| && top <= |arr| && Binary(arr[..top]) &&
    (forall k :: 0 <= k < top ==> Binary(arr[..k]) && Follow(ns, root, Digits(arr[..k])) == Ref(stack[k])) &&
    (current.Ref? ==> Follow(ns, root, Digits(arr[..top])) == current)
  }

  /** A node reached from the root by `k` bits is at most the root's height
      minus `k` high. */
  lemma DepthBound(ns: seq<Node>, root: nat, a: seq<int>, j: nat)
    requires Acyclic(ns) && root < |ns| && Binary(a) && Follow(ns, root, Digits(a)) == Ref(j)
    ensures j < |ns| && |a| + Height(ns, j) <= Height(ns, root)
  {
    FollowHeight(ns, root, Digits(a));
  }

  /** A code row for a leaf: the bits of `arr[0..top)`, each written as
      `arr[i] + '0'`, then the NUL at `top`. */
  method CodeRow(arr: array<int>, top: nat) returns (row: string)
    requires top <= arr.Length && Binary(arr[..top])
    ensures row == Digits(arr[..top])
  {
    row := "";
    for i := 0 to top
      invariant row == Digits(arr[..i])
    {
      DigitsSnoc(arr[..top], i);
      assert arr[..top][..i + 1] == arr[..i + 1] && arr[..top][..i] == arr[..i];
      row := row + [(arr[i] + '0' as int) as char];
    }
  }

  /** Pushing the node `j` reached by the bits so far, with bit 0, makes its
      left child the node reached. */
  lemma PushStep(ns: seq<Node>, root: nat, stack: seq<nat>, arr: seq<int>, t: nat, j: nat)
    requires Acyclic(ns) && root < |ns| && t < |stack| && t < |arr|
    requires StackPaths(ns, root, stack, arr, t, Ref(j))
    ensures j < |ns| && t + Height(ns, j) <= Height(ns, root)
    ensures StackPaths(ns, root, stack[t := j], arr[t := 0], t + 1, ns[j].left)
    ensures ns[j].left.Ref? ==> t + 1 + Height(ns, ns[j].left.index) <= Height(ns, root)
  {
    var a := arr[t := 0];
    DepthBound(ns, root, arr[..t], j);
    assert a[..t] == arr[..t];
    forall k | 0 <= k < t
      ensures a[..k] == arr[..k]
    {
      assert a[..t][..k] == a[..k];
    }
    DigitsSnoc(a, t);
    FollowChild(ns, root, Digits(arr[..t]), '0');
  }

  /** Turning right at the top node `stack[t - 1]` with bit 1 makes its right
      child the node reached. */
  lemma TurnStep(ns: seq<Node>, root: nat, stack: seq<nat>, arr: seq<int>, t: nat)
    requires Acyclic(ns) && root < |ns| && 0 < t
    requires StackPaths(ns, root, stack, arr, t, Null)
    requires stack[t - 1] < |ns| && ns[stack[t - 1]].right.Ref?
    ensures StackPaths(ns, root, stack, arr[t - 1 := 1], t, ns[stack[t - 1]].right)
    ensures t + Height(ns, ns[stack[t - 1]].right.index) <= Height(ns, root)
  {
    var a := arr[t - 1 := 1];
    var j := stack[t - 1];
    DepthBound(ns, root, arr[..t - 1], j);
    assert a[..t - 1] == arr[..t - 1];
    forall k | 0 <= k < t
      ensures a[..k] == arr[..k]
    {
      assert a[..t - 1][..k] == a[..k];
    }
    DigitsSnoc(a, t - 1);
    FollowChild(ns, root, Digits(arr[..t - 1]), '1');
  }

  /** The inner loop of the walk: push `current` and go left until the
      left child is NULL. Every node pushed is the one the bits so far
      reach, with bit 0 for each step left. */
  method DescendLeft(nodes: array<Node>, root: nat, stack: array<nat>, arr: array<int>, t0: nat, c0: Link)
    returns (stackTop: nat, top: nat)
    requires Acyclic(nodes[..]) && root < nodes.Length
    requires Height(nodes[..], root) < stack.Length && Height(nodes[..], root) < arr.Length
    requires StackPaths(nodes[..], root, stack[..], arr[..], t0, c0)
    requires c0.Ref? ==> t0 + Height(nodes[..], c0.index) <= Height(nodes[..], root)
    requires c0.Null? ==> 0 < t0 <= Height(nodes[..], root) + 1
    modifies stack, arr
    ensures StackPaths(nodes[..], root, stack[..], arr[..], stackTop, Null)
    ensures top == stackTop && 0 < stackTop <= Height(nodes[..], root) + 1
    ensures c0.Null? ==> stackTop == t0
  {
    ghost var ns := nodes[..];
    var current := c0;
    stackTop := t0;
    top := t0;
    while current != Null
      invariant top == stackTop
      invariant StackPaths(ns, root, stack[..], arr[..], stackTop, current)
      invariant current.Ref? ==> stackTop + Height(ns, current.index) <= Height(ns, root)
      invariant current.Null? ==> 0 < stackTop <= Height(ns, root) + 1
      invariant c0.Null? ==> current.Null? && stackTop == t0
      decreases if current.Ref? then Height(ns, current.index) + 1 else 0
    {
      PushStep(ns, root, stack[..], arr[..], stackTop, current.index);
      ghost var s1 := stack[..];
      stack[stackTop] := current.index;
      assert stack[..] == s1[stackTop := current.index];
      stackTop := stackTop + 1;
      ghost var a1 := arr[..];
      arr[top] := 0;
      assert arr[..] == a1[top := 0];
      top := top + 1;
      current := nodes[stack[stackTop - 1]].left;
    }
  }

  /** Turning right at the node on top of the stack: its depth's flag is
      set, the last bit becomes 1 and its right child becomes `current`. */
  method TurnRight(nodes: array<Node>, root: nat, stack: array<nat>, arr: array<int>, visited: array<bool>,
                   stackTop: nat, top: nat) returns (current: Link)
    requires Acyclic(nodes[..]) && root < nodes.Length && top == stackTop
    requires 0 < stackTop <= visited.Length
    requires StackPaths(nodes[..], root, stack[..], arr[..], stackTop, Null)
    requires stack[stackTop - 1] < nodes.Length && nodes[stack[stackTop - 1]].right.Ref? && !visited[stackTop - 1]
    modifies arr, visited
    ensures current == nodes[stack[stackTop - 1]].right
    ensures StackPaths(nodes[..], root, stack[..], arr[..], stackTop, current)
    ensures stackTop + Height(nodes[..], current.index) <= Height(nodes[..], root)
    ensures Unvisited(visited[..]) < old(Unvisited(visited[..]))
  {
    TurnStep(nodes[..], root, stack[..], arr[..], stackTop);
    UnvisitedSet(visited[..], stackTop - 1);
    ghost var v0 := visited[..];
    visited[stackTop - 1] := true;
    assert visited[..] == v0[stackTop - 1 := true];
    current := nodes[stack[stackTop - 1]].right;
    ghost var a0 := arr[..];
    arr[top - 1] := 1;
    assert arr[..] == a0[stackTop - 1 := 1];
  }

  /** A popped leaf: its symbol's row becomes the bits of the path to it. */
  method WriteCode(nodes: array<Node>, root: nat, codes: array<string>, arr: array<int>, top: nat, leaf: nat)
    requires top <= arr.Length && Binary(arr[..top]) && leaf < nodes.Length && IsLeaf(nodes[leaf])
    requires Follow(nodes[..], root, Digits(arr[..top])) == Ref(leaf)
    requires nodes[leaf].data as int < codes.Length
    modifies codes
    ensures IsCodeOf(nodes[..], root, codes[nodes[leaf].data as int], nodes[leaf].data as int)
    ensures codes[nodes[leaf].data as int] == Digits(arr[..top])
    ensures forall c :: 0 <= c < codes.Length && c != nodes[leaf].data as int ==> codes[c] == old(codes[c])
  {
    var row := CodeRow(arr, top);
    codes[nodes[leaf].data as int] := row;
  }

  /** Overwriting one row with a code keeps every row sound. */
  lemma SoundWrite(ns: seq<Node>, root: nat, codes0: seq<string>, codes1: seq<string>, codes2: seq<string>, c: nat)
    requires Sound(ns, root, codes0, codes1) && |codes2| == |codes1| && c < |codes1|
    requires IsCodeOf(ns, root, codes2[c], c)
    requires forall d :: 0 <= d < |codes2| && d != c ==> codes2[d] == codes1[d]
    ensures Sound(ns, root, codes0, codes2)
  {
  }

  /** The pop branch of the walk: the top node leaves the stack and, when it
      is a leaf, its symbol's row gets the bits of its path. */
  method PopNode(nodes: array<Node>, root: nat, codes: array<string>, stack: array<nat>, arr: array<int>,
                 stackTop: nat, ghost codes0: seq<string>)
    requires SymbolsBelow(nodes[..], codes.Length)
    requires 0 < stackTop && StackPaths(nodes[..], root, stack[..], arr[..], stackTop, Null)
    requires Sound(nodes[..], root, codes0, codes[..])
    modifies codes
    ensures StackPaths(nodes[..], root, stack[..], arr[..], stackTop - 1, Null)
    ensures Sound(nodes[..], root, codes0, codes[..])
    ensures stackTop == 1 && stack[0] == root && IsLeaf(nodes[root]) ==> codes[nodes[root].data as int] == ""
  {
    var j := stack[stackTop - 1];
    assert Binary(arr[..stackTop - 1]) && Follow(nodes[..], root, Digits(arr[..stackTop - 1])) == Ref(j);
    if IsLeaf(nodes[j]) {
      ghost var k1 := codes[..];
      WriteCode(nodes, root, codes, arr, stackTop - 1, j);
      SoundWrite(nodes[..], root, codes0, k1, codes[..], nodes[j].data as int);
      assert stackTop == 1 ==> arr[..0] == [] && Digits(arr[..0]) == [];
    }
    assert forall k :: 0 <= k < stackTop - 1 ==> arr[..stackTop - 1][..k] == arr[..k];
  }

  /** generateCodes (huffman_t2_clock.c) and the loop of printCodes
      (huffman.c): a left-first walk with an explicit stack. Entering a
      node pushes it with bit 0; a node whose right child is set and whose
      depth's flag is clear sets the flag and turns right (bit 1); otherwise
      it is popped and, if a leaf, its symbol's row gets the bits below it.
      The flags are never cleared, so a later node at a depth already
      flagged is popped without its right subtree: only soundness holds —
      every row written is that leaf's root path, and a leaf root gets "". */
  method GenerateCodes(nodes: array<Node>, root: nat, codes: array<string>,
                       stack: array<nat>, arr: array<int>, visited: array<bool>)
    requires Acyclic(nodes[..]) && root < nodes.Length && SymbolsBelow(nodes[..], codes.Length)
    requires Height(nodes[..], root) < stack.Length
    requires Height(nodes[..], root) < arr.Length && Height(nodes[..], root) < visited.Length
    modifies codes, stack, arr, visited
    ensures Sound(nodes[..], root, old(codes[..]), codes[..])
    ensures IsLeaf(nodes[root]) ==> codes[nodes[root].data as int] == ""
  {
    ghost var ns := nodes[..];
    ghost var h := Height(ns, root);
    var stackTop: nat := 0;
    var current := Ref(root);
    var top: nat := 0;
    assert arr[..0] == [] && Digits([]) == [];
    while stackTop > 0 || current != Null
      invariant top == stackTop && stackTop <= h + 1
      invariant StackPaths(ns, root, stack[..], arr[..], stackTop, current)
      invariant current.Ref? ==> stackTop + Height(ns, current.index) <= h
      invariant Sound(ns, root, old(codes[..]), codes[..])
      invariant IsLeaf(ns[root]) && stackTop == 0 && current.Null? ==> codes[ns[root].data as int] == ""
      decreases Unvisited(visited[..]), if current.Ref? then 1 else 0, stackTop
    {
      stackTop, top := DescendLeft(nodes, root, stack, arr, stackTop, current);
      current := Ref(stack[stackTop - 1]);
      if nodes[current.index].right != Null && !visited[stackTop - 1] {
        current := TurnRight(nodes, root, stack, arr, visited, stackTop, top);
      } else {
        PopNode(nodes, root, codes, stack, arr, stackTop, old(codes[..]));
        stackTop := stackTop - 1;
        top := top - 1;
        current := Null;
      }
    }
  }

  /** printCodes (huffman.c): the same walk over local stack, bit and
      visited arrays of MAX_TREE_HT entries, the flags zeroed on every call. */
  method PrintCodes(nodes: array<Node>, root: nat, codes: array<string>, maxTreeHt: nat)
    requires Acyclic(nodes[..]) && root < nodes.Length && SymbolsBelow(nodes[..], codes.Length)
    requires Height(nodes[..], root) < maxTreeHt
    modifies codes
    ensures Sound(nodes[..], root, old(codes[..]), codes[..])
    ensures IsLeaf(nodes[root]) ==> codes[nodes[root].data as int] == ""
  {
    var arr := new int[maxTreeHt];
    var stack := new nat[maxTreeHt];
    var visited := new bool[maxTreeHt](_ => false);
    GenerateCodes(nodes, root, codes, stack, arr, visited);
  }

  /** The symbols of the leaves below node `i`. */
  ghost function LeafSymbols(ns: seq<Node>, i: nat): set<int>
    requires Acyclic(ns) && i < |ns|
    decreases i
  {
    var n := ns[i];
    if IsLeaf(n) then {n.data as int}
    else (if n.left.Ref? then LeafSymbols(ns, n.left.index) else {}) +
         (if n.right.Ref? then LeafSymbols(ns, n.right.index) else {})
  }

  /** The code table the recursive generateCodes (huffman_vlad.c) leaves
      when called on node `i` with `prefix` in the code buffer: the left
      subtree is done first with '0' appended, then the right with '1', and
      a leaf's row becomes the prefix. */
  ghost function Table(ns: seq<Node>, i: nat, prefix: string, t: seq<string>): (r: seq<string>)
    requires Acyclic(ns) && i < |ns|
    ensures |r| == |t|
    decreases i
  {
    var n := ns[i];
    var t1 := if n.left.Ref? then Table(ns, n.left.index, prefix + "0", t) else t;
    var t2 := if n.right.Ref? then Table(ns, n.right.index, prefix + "1", t1) else t1;
    if IsLeaf(n) && n.data as int < |t2| then t2[n.data as int := prefix] else t2
  }

  /** `s` is `prefix` followed by the root path, from node `i`, of a leaf
      with symbol `c`. */
  ghost predicate CodeWithPrefix(ns: seq<Node>, i: nat, prefix: string, s: string, c: int) {
    |prefix| <= |s| && s[..|prefix|] == prefix && IsCodeOf(ns, i, s[|prefix|..], c)
  }

  /** A code below child `j` of node `i`, reached by bit `b`, is a code
      below `i` once `b` moves from the prefix into the path. */
  lemma ExtendCode(ns: seq<Node>, i: nat, j: nat, prefix: string, b: char, s: string, c: int)
    requires i < |ns| && (b == '0' || b == '1') && Child(ns[i], b) == Ref(j)
    requires CodeWithPrefix(ns, j, prefix + [b], s, c)
    ensures CodeWithPrefix(ns, i, prefix, s, c)
  {
    var q := s[|prefix| + 1..];
    assert s[..|prefix|] == (s[..|prefix| + 1])[..|prefix|];
    assert s[|prefix|..] == [b] + q;
    assert ([b] + q)[1..] == q;
  }

  /** What the recursive generator promises: every symbol with a leaf below
      `i` gets `prefix` followed by a root path of such a leaf, and every
      other row keeps its old contents. */
  lemma {:induction false} TableSpec(ns: seq<Node>, i: nat, prefix: string, t: seq<string>)
    requires Acyclic(ns) && i < |ns|
    ensures forall c :: 0 <= c < |t| && c !in LeafSymbols(ns, i) ==> Table(ns, i, prefix, t)[c] == t[c]
    ensures forall c :: 0 <= c < |t| && c in LeafSymbols(ns, i) ==> CodeWithPrefix(ns, i, prefix, Table(ns, i, prefix, t)[c], c)
    decreases i
  {
    var n := ns[i];
    var r := Table(ns, i, prefix, t);
    if IsLeaf(n) {
      assert prefix[..|prefix|] == prefix && prefix[|prefix|..] == [];
    } else {
      var t1 := if n.left.Ref? then Table(ns, n.left.index, prefix + "0", t) else t;
      if n.left.Ref? {
        TableSpec(ns, n.left.index, prefix + "0", t);
      }
      if n.right.Ref? {
        TableSpec(ns, n.right.index, prefix + "1", t1);
      }
      forall c | 0 <= c < |t| && c in LeafSymbols(ns, i)
        ensures CodeWithPrefix(ns, i, prefix, r[c], c)
      {
        if n.right.Ref? && c in LeafSymbols(ns, n.right.index) {
          ExtendCode(ns, i, n.right.index, prefix, '1', r[c], c);
        } else {
          ExtendCode(ns, i, n.left.index, prefix, '0', r[c], c);
        }
      }
    }
  }

  /** A leaf reached from `i` carries one of the symbols below `i`. */
  lemma {:induction false} CodeHasLeafSymbol(ns: seq<Node>, i: nat, p: string, c: int)
    requires Acyclic(ns) && i < |ns| && IsCodeOf(ns, i, p, c)
    ensures c in LeafSymbols(ns, i)
    decreases |p|
  {
    if p != [] {
      var j := Child(ns[i], p[0]).index;
      assert IsBits(p[1..]) by {
        assert forall k :: 0 <= k < |p| - 1 ==> p[1..][k] == p[k + 1];
      }
      CodeHasLeafSymbol(ns, j, p[1..], c);
    }
  }

  /** The table generated from the root, from the empty prefix: every leaf
      reached by some path gets a code, that code is a root path of a leaf
      with its symbol, the codes of distinct symbols are prefix-free, and
      the rows of symbols with no leaf are untouched. */
  lemma GeneratedTable(ns: seq<Node>, root: nat, t: seq<string>)
    requires Acyclic(ns) && root < |ns|
    ensures forall c :: 0 <= c < |t| && c !in LeafSymbols(ns, root) ==> Table(ns, root, "", t)[c] == t[c]
    ensures forall c :: 0 <= c < |t| && c in LeafSymbols(ns, root) ==> IsCodeOf(ns, root, Table(ns, root, "", t)[c], c)
    ensures forall p, c {:trigger IsCodeOf(ns, root, p, c)} :: 0 <= c < |t| && IsCodeOf(ns, root, p, c) ==> IsCodeOf(ns, root, Table(ns, root, "", t)[c], c)
    ensures forall c1, c2 ::
              (0 <= c1 < |t| && 0 <= c2 < |t| && c1 != c2 &&
               c1 in LeafSymbols(ns, root) && c2 in LeafSymbols(ns, root)) ==>
              !IsPrefix(Table(ns, root, "", t)[c1], Table(ns, root, "", t)[c2])
  {
    var r := Table(ns, root, "", t);
    TableSpec(ns, root, "", t);
    forall c | 0 <= c < |t| && c in LeafSymbols(ns, root)
      ensures IsCodeOf(ns, root, r[c], c)
    {
      assert r[c][0..] == r[c];
    }
    forall p, c {:trigger IsCodeOf(ns, root, p, c)} | 0 <= c < |t| && IsCodeOf(ns, root, p, c)
      ensures IsCodeOf(ns, root, r[c], c)
    {
      CodeHasLeafSymbol(ns, root, p, c);
    }
    forall c1, c2 | 0 <= c1 < |t| && 0 <= c2 < |t| && c1 != c2 &&
                    c1 in LeafSymbols(ns, root) && c2 in LeafSymbols(ns, root)
      ensures !IsPrefix(r[c1], r[c2])
    {
      CodesPrefixFree(ns, root, r[c1], r[c2], c1, c2);
    }
  }

  /** generateCodes (huffman_vlad.c): recursion into the left child with '0'
      at `code[top]`, then the right child with '1'; at a leaf `code[top]`
      becomes NUL and the buffer is strcpy'd into the leaf's row. */
  method GenerateCodesRec(nodes: array<Node>, i: nat, code: array<char>, top: nat, codes: array<string>)
    requires Acyclic(nodes[..]) && i < nodes.Length && SymbolsBelow(nodes[..], codes.Length)
    requires top + Height(nodes[..], i) < code.Length && NoNul(code[..top])
    modifies code, codes
    ensures code[..top] == old(code[..top])
    ensures codes[..] == Table(nodes[..], i, old(code[..top]), old(codes[..]))
    decreases i
  {
    ghost var ns := nodes[..];
    ghost var prefix := code[..top];
    ghost var t := codes[..];
    if nodes[i].left != Null {
      code[top] := '0';
      assert code[..top + 1] == prefix + "0";
      GenerateCodesRec(nodes, nodes[i].left.index, code, top + 1, codes);
      assert code[..top] == code[..top + 1][..top];
    }
    ghost var t1 := codes[..];
    assert t1 == if ns[i].left.Ref? then Table(ns, ns[i].left.index, prefix + "0", t) else t;
    if nodes[i].right != Null {
      code[top] := '1';
      assert code[..top + 1] == prefix + "1";
      GenerateCodesRec(nodes, nodes[i].right.index, code, top + 1, codes);
      assert code[..top] == code[..top + 1][..top];
    }
    if nodes[i].left == Null && nodes[i].right == Null {
      code[top] := '\0';
      assert code[..top] == prefix;
      StrLenAt(code[..], top);
      codes[nodes[i].data as int] := CStr(code[..]);
    }
  }
}
