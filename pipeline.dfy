/** The HuffmanCodes drivers of the three programs, each over the storage
    it keeps: count the symbols, list the present ones, build the tree,
    generate the code table, and (huffman_t2_clock.c, huffman_vlad.c)
    compress and pack the input. */
module Pipeline {
  import opened Arena
  import opened Forest
  import opened Builder
  import opened Frequency
  import opened CString
  import opened Codes
  import opened Packer

  /** MAX_CHAR and MAX_TREE_HT of huffman_t2_clock.c. */
  const ClockMaxChar: nat := 128
  const ClockMaxTreeHt: nat := 100
  /** MAX_CHAR and MAX_TREE_HT of huffman.c. */
  const PlainMaxChar: nat := 256
  const PlainMaxTreeHt: nat := 100
  /** MAX_CHAR and MAX_TREE_HT of huffman_vlad.c. */
  const VladMaxChar: nat := 256
  const VladMaxTreeHt: nat := 8000

  /** The frequency table of huffman_t2_clock.c: the counts of the input
      with the EOF symbol '\0' forced to 1. */
  function ClockTable(s: seq<char>): (f: seq<nat>)
    ensures |f| == ClockMaxChar && f[0] == 1
  {
    Counts(s, ClockMaxChar)[0 := 1]
  }

  /** Replacing one row changes the total by the difference. */
  lemma {:induction false} TotalUpdate(f: seq<nat>, i: nat, v: nat)
    requires i < |f|
    ensures Total(f[i := v]) + f[i] == Total(f) + v
    decreases |f|
  {
    var g := f[i := v];
    var n := |f| - 1;
    assert Total(g) == Total(g[..n]) + g[n];
    assert Total(f) == Total(f[..n]) + f[n];
    if i < n {
      assert g[..n] == f[..n][i := v];
      TotalUpdate(f[..n], i, v);
    } else {
      assert g[..n] == f[..n];
    }
  }

  /** The tree of huffman_t2_clock.c weighs every input symbol except NUL,
      plus the one EOF occurrence. */
  lemma ClockTotal(s: seq<char>)
    requires InAlphabet(s, ClockMaxChar)
    ensures Total(ClockTable(s)) == |s| - Count(s, 0) + 1
  {
    CountsSum(s, ClockMaxChar);
    TotalUpdate(Counts(s, ClockMaxChar), 0, 1);
  }

  /** A positive row puts at least one symbol in the unique list. */
  lemma SomePresent(f: seq<nat>, c: nat)
    requires |f| <= 256 && c < |f| && f[c] > 0
    ensures |Present(f)| >= 1
  {
    PresentMembers(f);
  }

  /** A non-empty input over the alphabet has a symbol of positive count. */
  lemma InputPresent(s: seq<char>, n: nat)
    requires n <= 256 && |s| >= 1 && InAlphabet(s, n)
    ensures |Present(Counts(s, n))| >= 1
  {
    CountPositive(s, s[0] as int);
    SomePresent(Counts(s, n), s[0] as int);
  }

  /** Building from symbols below `bound` keeps every node's symbol below
      `bound` ('$' included). */
  lemma BuiltSymbols(ns0: seq<Node>, ns: seq<Node>, start: nat, data: seq<char>, freq: seq<nat>,
                     size: nat, k: nat, bound: nat)
    requires SymbolsBelow(ns0, bound) && Built(ns, start, data, freq, size, k) && Unchanged(ns0, ns, start, k)
    requires InAlphabet(data[..size], bound) && Internal as int < bound
    ensures SymbolsBelow(ns, bound)
  {
    forall i | 0 <= i < |ns|
      ensures ns[i].data as int < bound
    {
      if start <= i < start + size {
        assert data[..size][i - start] == data[i - start];
      } else if start + size <= i < k {
        assert Merged(ns, start, i);
      } else {
        assert ns[i] == ns0[i];
      }
    }
  }

  /** The unique list holds symbols below the table size. */
  lemma PresentAlphabet(f: seq<nat>)
    requires |f| <= 256
    ensures InAlphabet(Present(f), |f|)
  {
    PresentAligned(f);
  }

  /** Rows of code bits no longer than `bound`. */
  ghost predicate ShortBitRows(codes: seq<string>, bound: nat) {
    forall c :: 0 <= c < |codes| ==> IsBits(codes[c]) && |codes[c]| <= bound
  }

  /** A table written soundly over empty rows holds code bits no longer
      than the tree is high. */
  lemma SoundRows(ns: seq<Node>, root: nat, t0: seq<string>, t: seq<string>)
    requires Acyclic(ns) && root < |ns| && Sound(ns, root, t0, t)
    requires forall c :: 0 <= c < |t0| ==> t0[c] == ""
    ensures ShortBitRows(t, Height(ns, root))
  {
    forall c | 0 <= c < |t|
      ensures IsBits(t[c]) && |t[c]| <= Height(ns, root)
    {
      if t[c] != t0[c] {
        FollowHeight(ns, root, t[c]);
      }
    }
  }

  /** Each input symbol contributes at most `h` bits. */
  lemma {:induction false} EncodeBound(codes: seq<string>, s: seq<char>, h: nat)
    requires InAlphabet(s, |codes|) && forall c :: 0 <= c < |codes| ==> |codes[c]| <= h
    ensures |Encode(codes, s)| <= h * |s|
    decreases |s|
  {
    if s != [] {
      EncodeBound(codes, s[..|s| - 1], h);
      assert h * |s| == h * (|s| - 1) + h;
    }
  }

  /** The code bits concatenated in front of one more row are code bits. */
  lemma BitsConcat(a: string, b: string)
    requires IsBits(a) && IsBits(b)
    ensures IsBits(a + b)
  {
    assert forall k :: |a| <= k < |a| + |b| ==> (a + b)[k] == b[k - |a|];
  }

  /** Clears the frequency table to zeros before counting. */
  method ClearCounts(freq: array<nat>)
    modifies freq
    ensures forall c :: 0 <= c < freq.Length ==> freq[c] == 0
  {
    for i := 0 to freq.Length
      invariant forall c :: 0 <= c < i ==> freq[c] == 0
    {
      freq[i] := 0;
    }
  }

  /** The static storage of huffman_t2_clock.c. */
  class ClockProgram {
    const arena: Arena
    const freq: array<nat>
    const uniqueData: array<char>
    const uniqueFreq: array<nat>
    const codes: array<string>
    const compressed: array<char>
    const stack: array<nat>
    const arr: array<int>
    const visited: array<bool>
    const paddedData: array<char>
    const output: array<byte>

    ghost predicate Valid()
      reads this, arena, arena.nodes
    {
      arena.Valid() && arena.nodes.Length == ClockMaxChar && SymbolsBelow(arena.nodes[..], ClockMaxChar) &&
      freq.Length == ClockMaxChar && uniqueData.Length == ClockMaxChar &&
      uniqueFreq.Length == ClockMaxChar && codes.Length == ClockMaxChar &&
      compressed.Length == ClockMaxTreeHt * ClockMaxChar && stack.Length == ClockMaxTreeHt &&
      arr.Length == ClockMaxTreeHt && visited.Length == ClockMaxTreeHt &&
      paddedData.Length == ClockMaxTreeHt * ClockMaxChar && output.Length == ClockMaxTreeHt * ClockMaxChar / 8 &&
      freq != uniqueFreq && freq != stack && uniqueFreq != stack &&
      uniqueData != compressed && uniqueData != paddedData && compressed != paddedData
    }

    /** The zero-initialised globals at program start. */
    constructor ()
      ensures Valid() && arena.nodeIndex == 0
      ensures forall c :: 0 <= c < codes.Length ==> codes[c] == ""
      ensures forall k :: 0 <= k < compressed.Length ==> compressed[k] == '\0'
    {
      arena := new Arena(ClockMaxChar);
      freq := new nat[ClockMaxChar](_ => 0);
      uniqueData := new char[ClockMaxChar](_ => '\0');
      uniqueFreq := new nat[ClockMaxChar](_ => 0);
      codes := new string[ClockMaxChar](_ => "");
      compressed := new char[ClockMaxTreeHt * ClockMaxChar](_ => '\0');
      stack := new nat[ClockMaxTreeHt](_ => 0);
      arr := new int[ClockMaxTreeHt](_ => 0);
      visited := new bool[ClockMaxTreeHt](_ => false);
      paddedData := new char[ClockMaxTreeHt * ClockMaxChar](_ => '\0');
      output := new byte[ClockMaxTreeHt * ClockMaxChar / 8](_ => 0);
    }

    /** The counting part of HuffmanCodes: clear, count in chunks of 1000,
        force the EOF count to 1, list the present symbols. */
    method CountSymbols(data: seq<char>, size: nat) returns (uniqueSize: nat)
      requires Valid() && size <= |data| && InAlphabet(data[..size], ClockMaxChar)
      modifies freq, uniqueData, uniqueFreq
      ensures freq[..] == ClockTable(data[..size])
      ensures uniqueSize == |Present(freq[..])| && 1 <= uniqueSize <= ClockMaxChar
      ensures uniqueData[..uniqueSize] == Present(freq[..]) && uniqueFreq[..uniqueSize] == PresentFreqs(freq[..])
    {
      ClearCounts(freq);
      CalculateFrequencyInChunks(data, freq, size, 1000);
      freq[0] := 1;
      assert freq[..] == ClockTable(data[..size]);
      SomePresent(freq[..], 0);
      uniqueSize := UniqueSymbols(freq, uniqueData, uniqueFreq);
      PresentAligned(freq[..]);
    }

    /** The compressing part of HuffmanCodes: the codes of the input, the
        EOF code, then convertToAscii. The compressed bits, their NUL and
        their padding to whole bytes (whose NUL follows) must fit the
        12800-character buffers, which is exactly a length of at most 12792. */
    method Compress(data: seq<char>, size: nat) returns (bytes: nat)
      requires Valid() && size <= |data| && InAlphabet(data[..size], ClockMaxChar)
      requires forall c :: 0 <= c < codes.Length ==> IsBits(codes[c])
      requires Weighted(data[..size], codes[..], ClockMaxChar) + |codes[0]| <= ClockMaxTreeHt * ClockMaxChar - 8
      requires forall k :: 0 <= k < compressed.Length ==> compressed[k] == '\0'
      modifies compressed, paddedData, output
      ensures CStr(compressed[..]) == Encode(codes[..], data[..size]) + codes[0]
      ensures |CStr(compressed[..])| == Weighted(data[..size], codes[..], ClockMaxChar) + |codes[0]|
      ensures bytes == (|CStr(compressed[..])| + 7) / 8
      ensures PackedOk(CStr(compressed[..])) && output[..bytes] == Pack(Padded(CStr(compressed[..])))
    {
      ghost var e := Encode(codes[..], data[..size]);
      EncodeLength(codes[..], data[..size]);
      assert forall c :: 0 <= c < codes.Length ==> NoNul(codes[c]) by {
        forall c | 0 <= c < codes.Length
          ensures NoNul(codes[c])
        {
          BitsNoNul(codes[c]);
        }
      }
      CompressInput(data, size, codes, compressed);
      EncodeBits(codes[..], data[..size]);
      BitsNoNul(e);
      StrLenAt(compressed[..], |e|);
      BitsNoNul(codes[0]);
      AppendCode(compressed, codes[0]);
      BitsConcat(e, codes[0]);
      EncodeLength(codes[..], data[..size]);
      bytes := ConvertToAscii(compressed, paddedData, output);
    }

    /** The tree-building part of HuffmanCodes: count, list the present
        symbols, and build the tree from them. */
    method BuildTree(data: seq<char>, size: nat) returns (root: nat, uniqueSize: nat)
      requires Valid() && size <= |data| && InAlphabet(data[..size], ClockMaxChar)
      requires arena.nodeIndex + 2 * |Present(ClockTable(data[..size]))| - 1 <= ClockMaxChar
      modifies arena, arena.nodes, freq, uniqueData, uniqueFreq
      ensures Valid()
      ensures freq[..] == ClockTable(data[..size]) && uniqueSize == |Present(freq[..])|
      ensures uniqueData[..uniqueSize] == Present(freq[..]) && uniqueFreq[..uniqueSize] == PresentFreqs(freq[..])
      ensures arena.nodeIndex == old(arena.nodeIndex) + 2 * uniqueSize - 1
      ensures Built(arena.nodes[..], old(arena.nodeIndex), uniqueData[..], uniqueFreq[..], uniqueSize, arena.nodeIndex)
      ensures old(arena.nodeIndex) <= root < arena.nodeIndex
      ensures arena.nodes[root].freq == size - Count(data[..size], 0) + 1
      ensures 1 <= uniqueSize && Height(arena.nodes[..], root) <= uniqueSize - 1
    {
      ghost var ns0 := arena.nodes[..];
      ghost var start := arena.nodeIndex;
      uniqueSize := CountSymbols(data, size);
      ghost var f := freq[..];
      root := BuildHuffmanTree(arena, uniqueData[..], uniqueFreq[..], uniqueSize, ClockMaxChar, false);
      PresentAlphabet(f);
      BuiltSymbols(ns0, arena.nodes[..], start, uniqueData[..], uniqueFreq[..], uniqueSize, arena.nodeIndex, ClockMaxChar);
      PresentTotal(f);
      ClockTotal(data[..size]);
    }

    /** HuffmanCodes of huffman_t2_clock.c on the zero-initialised globals
        and the first `size` symbols of `data`. The arena must hold the new
        tree, and the compressed bits must fit the 12800-character buffers:
        every code is at most as long as the tree is high, which is at most
        the number of listed symbols minus one. */
    method HuffmanCodes(data: seq<char>, size: nat) returns (root: nat, bytes: nat)
      requires Valid() && size <= |data| && InAlphabet(data[..size], ClockMaxChar)
      requires arena.nodeIndex + 2 * |Present(ClockTable(data[..size]))| - 1 <= ClockMaxChar
      requires (|Present(ClockTable(data[..size]))| - 1) * (size + 1) <= ClockMaxTreeHt * ClockMaxChar - 8
      requires forall c :: 0 <= c < codes.Length ==> codes[c] == ""
      requires forall k :: 0 <= k < compressed.Length ==> compressed[k] == '\0'
      modifies arena, arena.nodes, freq, uniqueData, uniqueFreq, codes, compressed, stack, arr, visited, paddedData, output
      ensures Valid()
      ensures freq[..] == ClockTable(data[..size])
      ensures uniqueData[..|Present(freq[..])|] == Present(freq[..])
      ensures uniqueFreq[..|Present(freq[..])|] == PresentFreqs(freq[..])
      ensures arena.nodeIndex == old(arena.nodeIndex) + 2 * |Present(freq[..])| - 1
      ensures Built(arena.nodes[..], old(arena.nodeIndex), uniqueData[..], uniqueFreq[..], |Present(freq[..])|, arena.nodeIndex)
      ensures old(arena.nodeIndex) <= root < arena.nodeIndex
      ensures arena.nodes[root].freq == size - Count(data[..size], 0) + 1
      ensures Sound(arena.nodes[..], root, old(codes[..]), codes[..])
      ensures CStr(compressed[..]) == Encode(codes[..], data[..size]) + codes[0]
      ensures |CStr(compressed[..])| == Weighted(data[..size], codes[..], ClockMaxChar) + |codes[0]|
      ensures bytes == (|CStr(compressed[..])| + 7) / 8
      ensures PackedOk(CStr(compressed[..])) && output[..bytes] == Pack(Padded(CStr(compressed[..])))
    {
      var uniqueSize;
      root, uniqueSize := BuildTree(data, size);
      ghost var h := Height(arena.nodes[..], root);
      GenerateCodes(arena.nodes, root, codes, stack, arr, visited);
      SoundRows(arena.nodes[..], root, old(codes[..]), codes[..]);
      ClockFits(codes[..], data[..size], h, uniqueSize - 1);
      bytes := Compress(data, size);
    }
  }

  /** Codes no longer than `h <= u` keep the input and the EOF code within
      `u * (|s| + 1)` bits, so the sufficient bound of HuffmanCodes in
      huffman_t2_clock.c implies the exact one of its compressing part. */
  lemma ClockFits(codes: seq<string>, s: seq<char>, h: nat, u: nat)
    requires |codes| == ClockMaxChar && InAlphabet(s, ClockMaxChar) && ShortBitRows(codes, h) && h <= u
    requires u * (|s| + 1) <= ClockMaxTreeHt * ClockMaxChar - 8
    ensures forall c :: 0 <= c < |codes| ==> IsBits(codes[c])
    ensures Weighted(s, codes, ClockMaxChar) + |codes[0]| <= ClockMaxTreeHt * ClockMaxChar - 8
  {
    MulMono(h, u, |s| + 1);
    EncodeBound(codes, s, h);
    EncodeLength(codes, s);
    assert h * (|s| + 1) == h * |s| + h;
  }

  /** `a <= b` scales to `a * c <= b * c`. */
  lemma {:induction false} MulMono(a: nat, b: nat, c: nat)
    requires a <= b
    ensures a * c <= b * c
  {
    if c > 0 {
      MulMono(a, b, c - 1);
      assert a * c == a * (c - 1) + a && b * c == b * (c - 1) + b;
    }
  }

  /** `Built` reads only the first `size` symbols and counts. */
  lemma BuiltSame(ns: seq<Node>, start: nat, data: seq<char>, freq: seq<nat>, data': seq<char>, freq': seq<nat>,
                  size: nat, k: nat)
    requires Built(ns, start, data, freq, size, k)
    requires size <= |data'| && size <= |freq'| && data[..size] == data'[..size] && freq[..size] == freq'[..size]
    ensures Built(ns, start, data', freq', size, k)
  {
    forall j | start <= j < start + size
      ensures ns[j] == Node(data'[j - start], freq'[j - start], Null, Null)
    {
      assert data[..size][j - start] == data'[..size][j - start];
      assert freq[..size][j - start] == freq'[..size][j - start];
    }
  }

  /** The front half of HuffmanCodes in huffman.c and huffman_vlad.c: a
      zeroed local table of MAX_CHAR (256) counts, one counting pass over
      `data[0..size)`, the unique pass, and buildHuffmanTree. Fewer than one
      symbol would build from an empty heap. */
  method CountAndBuild(arena: Arena, data: seq<char>, size: nat, tieBreak: bool) returns (root: nat)
    requires arena.Valid() && arena.nodes.Length == 256 && SymbolsBelow(arena.nodes[..], 256)
    requires 1 <= size <= |data| && InAlphabet(data[..size], 256)
    requires arena.nodeIndex + 2 * |Present(Counts(data[..size], 256))| - 1 <= 256
    modifies arena, arena.nodes
    ensures arena.Valid() && SymbolsBelow(arena.nodes[..], 256)
    ensures arena.nodeIndex == old(arena.nodeIndex) + 2 * |Present(Counts(data[..size], 256))| - 1
    ensures Built(arena.nodes[..], old(arena.nodeIndex), Present(Counts(data[..size], 256)),
                  PresentFreqs(Counts(data[..size], 256)), |Present(Counts(data[..size], 256))|, arena.nodeIndex)
    ensures old(arena.nodeIndex) <= root < arena.nodeIndex && arena.nodes[root].freq == size
    ensures Height(arena.nodes[..], root) < |Present(Counts(data[..size], 256))|
  {
    ghost var ns0 := arena.nodes[..];
    ghost var start := arena.nodeIndex;
    ghost var f := Counts(data[..size], 256);
    var uniqueData, uniqueFreq, uniqueSize := CountUnique(data, size);
    root := BuildHuffmanTree(arena, uniqueData[..], uniqueFreq[..], uniqueSize, 256, tieBreak);
    assert uniqueData[..][..uniqueSize] == Present(f)[..uniqueSize];
    assert uniqueFreq[..][..uniqueSize] == PresentFreqs(f)[..uniqueSize];
    PresentAlphabet(f);
    BuiltSymbols(ns0, arena.nodes[..], start, uniqueData[..], uniqueFreq[..], uniqueSize, arena.nodeIndex, 256);
    PresentTotal(f);
    CountsSum(data[..size], 256);
    BuiltSame(arena.nodes[..], start, uniqueData[..], uniqueFreq[..], Present(f), PresentFreqs(f),
              uniqueSize, arena.nodeIndex);
  }

  /** The counting half of CountAndBuild: the local table of 256 counts and
      the unique pass over it, into fresh 256-entry arrays. */
  method CountUnique(data: seq<char>, size: nat) returns (uniqueData: array<char>, uniqueFreq: array<nat>, uniqueSize: nat)
    requires 1 <= size <= |data| && InAlphabet(data[..size], 256)
    ensures uniqueData.Length == 256 && uniqueFreq.Length == 256
    ensures uniqueSize == |Present(Counts(data[..size], 256))| && 1 <= uniqueSize <= 256
    ensures uniqueData[..uniqueSize] == Present(Counts(data[..size], 256))
    ensures uniqueFreq[..uniqueSize] == PresentFreqs(Counts(data[..size], 256))
  {
    var freq := new nat[256](_ => 0);
    CalculateFrequency(data, freq, size);
    ghost var f := freq[..];
    assert f == Counts(data[..size], 256);
    uniqueData := new char[256];
    uniqueFreq := new nat[256];
    InputPresent(data[..size], 256);
    uniqueSize := UniqueSymbols(freq, uniqueData, uniqueFreq);
    PresentAligned(f);
  }

  /** The storage of huffman.c that outlives a call: the node arena static
      inside newNode. */
  class PlainProgram {
    const arena: Arena

    ghost predicate Valid()
      reads this, arena, arena.nodes
    {
      arena.Valid() && arena.nodes.Length == PlainMaxChar && SymbolsBelow(arena.nodes[..], PlainMaxChar)
    }

    /** The zero-initialised arena at program start. */
    constructor ()
      ensures Valid() && arena.nodeIndex == 0
    {
      arena := new Arena(PlainMaxChar);
    }

    /** HuffmanCodes of huffman.c on the first `size` symbols of `data`:
        `codes` is the local table printCodes fills, and `printed` the
        codes of the input in order, as the closing printf loop writes them.
        printCodes' arrays of MAX_TREE_HT entries must hold the deepest
        path, which the bound on the number of listed symbols guarantees. */
    method HuffmanCodes(data: seq<char>, size: nat) returns (root: nat, codes: array<string>, printed: string)
      requires Valid() && 1 <= size <= |data| && InAlphabet(data[..size], PlainMaxChar)
      requires arena.nodeIndex + 2 * |Present(Counts(data[..size], PlainMaxChar))| - 1 <= PlainMaxChar
      requires |Present(Counts(data[..size], PlainMaxChar))| <= PlainMaxTreeHt
      modifies arena, arena.nodes
      ensures Valid() && fresh(codes) && codes.Length == PlainMaxChar
      ensures arena.nodeIndex == old(arena.nodeIndex) + 2 * |Present(Counts(data[..size], PlainMaxChar))| - 1
      ensures Built(arena.nodes[..], old(arena.nodeIndex), Present(Counts(data[..size], PlainMaxChar)),
                    PresentFreqs(Counts(data[..size], PlainMaxChar)),
                    |Present(Counts(data[..size], PlainMaxChar))|, arena.nodeIndex)
      ensures old(arena.nodeIndex) <= root < arena.nodeIndex && arena.nodes[root].freq == size
      ensures Sound(arena.nodes[..], root, seq(PlainMaxChar, _ => ""), codes[..])
      ensures IsLeaf(arena.nodes[root]) ==> codes[arena.nodes[root].data as int] == ""
      ensures printed == Encode(codes[..], data[..size])
    {
      root := CountAndBuild(arena, data, size, true);
      codes := new string[PlainMaxChar](_ => "");
      assert codes[..] == seq(PlainMaxChar, _ => "");
      PrintCodes(arena.nodes, root, codes, PlainMaxTreeHt);
      printed := PrintCompressed(data, size, codes);
    }
  }

  /** The closing printf loop of huffman.c's HuffmanCodes: the row of each
      input symbol in turn. */
  method PrintCompressed(data: seq<char>, size: nat, codes: array<string>) returns (printed: string)
    requires size <= |data| && InAlphabet(data[..size], codes.Length)
    ensures printed == Encode(codes[..], data[..size])
  {
    ghost var s := data[..size];
    printed := [];
    for i := 0 to size
      invariant InAlphabet(s[..i], codes.Length)
      invariant printed == Encode(codes[..], s[..i])
    {
      EncodeStep(codes[..], s, i);
      assert s[i] == data[i];
      printed := printed + codes[data[i] as int];
    }
    assert s[..size] == s;
  }

  /** The back half of huffman_vlad.c's HuffmanCodes: the recursive
      generateCodes into a zeroed local table, compressInput into a zeroed
      local buffer of MAX_TREE_HT * MAX_CHAR characters, and convertToAscii. */
  method VladEncode(nodes: array<Node>, root: nat, data: seq<char>)
    returns (codes: array<string>, compressed: array<char>, output: array<byte>, bytes: nat)
    requires Acyclic(nodes[..]) && root < nodes.Length && SymbolsBelow(nodes[..], VladMaxChar)
    requires Height(nodes[..], root) < VladMaxTreeHt
    requires StrLen(data) < |data| && InAlphabet(data[..StrLen(data)], VladMaxChar)
    requires |Encode(Table(nodes[..], root, "", seq(VladMaxChar, _ => "")), data[..StrLen(data)])| < VladMaxTreeHt * VladMaxChar
    ensures codes.Length == VladMaxChar
    ensures codes[..] == Table(nodes[..], root, "", seq(VladMaxChar, _ => ""))
    ensures CStr(compressed[..]) == Encode(codes[..], data[..StrLen(data)])
    ensures bytes == output.Length == (|CStr(compressed[..])| + 7) / 8
    ensures PackedOk(CStr(compressed[..])) && output[..] == Pack(Padded(CStr(compressed[..])))
  {
    codes := new string[VladMaxChar](_ => "");
    var code := new char[VladMaxTreeHt];
    ghost var t0 := codes[..];
    assert t0 == seq(VladMaxChar, _ => "");
    assert code[..0] == "";
    GenerateCodesRec(nodes, root, code, 0, codes);
    GeneratedTable(nodes[..], root, t0);
    SoundRows(nodes[..], root, t0, codes[..]);
    compressed := new char[VladMaxTreeHt * VladMaxChar](_ => '\0');
    StrLenAt(compressed[..], 0);
    ghost var n := StrLen(data);
    assert forall c :: 0 <= c < codes.Length ==> NoNul(codes[c]) by {
      forall c | 0 <= c < codes.Length
        ensures NoNul(codes[c])
      {
        BitsNoNul(codes[c]);
      }
    }
    CompressInputCat(data, codes, compressed);
    EncodeBits(codes[..], data[..n]);
    output, bytes := ConvertToAsciiLocal(compressed);
  }

  /** The global storage of huffman_vlad.c: the node arena. */
  class VladProgram {
    const arena: Arena

    ghost predicate Valid()
      reads this, arena, arena.nodes
    {
      arena.Valid() && arena.nodes.Length == VladMaxChar && SymbolsBelow(arena.nodes[..], VladMaxChar)
    }

    /** The zero-initialised arena at program start. */
    constructor ()
      ensures Valid() && arena.nodeIndex == 0
    {
      arena := new Arena(VladMaxChar);
    }

    /** HuffmanCodes of huffman_vlad.c: counts the first `size` symbols of
        `data` and builds the tree, then generates the codes and compresses
        `data` up to its NUL. The compressed bits must fit the buffer of
        MAX_TREE_HT * MAX_CHAR characters: every code is at most as long as
        the tree is high, which is below the number of listed symbols. */
    method HuffmanCodes(data: seq<char>, size: nat)
      returns (root: nat, codes: array<string>, compressed: array<char>, output: array<byte>, bytes: nat)
      requires Valid() && 1 <= size <= |data| && InAlphabet(data[..size], VladMaxChar)
      requires StrLen(data) < |data| && InAlphabet(data[..StrLen(data)], VladMaxChar)
      requires arena.nodeIndex + 2 * |Present(Counts(data[..size], VladMaxChar))| - 1 <= VladMaxChar
      requires (|Present(Counts(data[..size], VladMaxChar))| - 1) * StrLen(data) < VladMaxTreeHt * VladMaxChar
      modifies arena, arena.nodes
      ensures Valid() && codes.Length == VladMaxChar
      ensures arena.nodeIndex == old(arena.nodeIndex) + 2 * |Present(Counts(data[..size], VladMaxChar))| - 1
      ensures Built(arena.nodes[..], old(arena.nodeIndex), Present(Counts(data[..size], VladMaxChar)),
                    PresentFreqs(Counts(data[..size], VladMaxChar)),
                    |Present(Counts(data[..size], VladMaxChar))|, arena.nodeIndex)
      ensures old(arena.nodeIndex) <= root < arena.nodeIndex && arena.nodes[root].freq == size
      ensures codes[..] == Table(arena.nodes[..], root, "", seq(VladMaxChar, _ => ""))
      ensures CStr(compressed[..]) == Encode(codes[..], data[..StrLen(data)])
      ensures bytes == output.Length == (|CStr(compressed[..])| + 7) / 8
      ensures PackedOk(CStr(compressed[..])) && output[..] == Pack(Padded(CStr(compressed[..])))
    {
      root := CountAndBuild(arena, data, size, false);
      ghost var t0 := seq(VladMaxChar, _ => "");
      GeneratedTable(arena.nodes[..], root, t0);
      SoundRows(arena.nodes[..], root, t0, Table(arena.nodes[..], root, "", t0));
      EncodeBound(Table(arena.nodes[..], root, "", t0), data[..StrLen(data)], Height(arena.nodes[..], root));
      MulMono(Height(arena.nodes[..], root), |Present(Counts(data[..size], VladMaxChar))| - 1, StrLen(data));
      codes, compressed, output, bytes := VladEncode(arena.nodes, root, data);
    }
  }
}
