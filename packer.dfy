/** Compression and packing: the codes of the input's symbols are
    concatenated into a character buffer of '0's and '1's, which is padded
    in front with '0's to a whole number of bytes and converted eight bits
    at a time, most significant bit first. */
module Packer {
  import opened Arena
  import opened CString
  import opened Frequency

  /** An output byte: binary_to_char's value for eight bits lies in [0, 255]. */
  newtype byte = x: int | 0 <= x < 256

  /** The concatenation of the rows of the symbols of `s`, in order. */
  function Encode(codes: seq<string>, s: seq<char>): string
    requires InAlphabet(s, |codes|)
    decreases |s|
  {
    if s == [] then [] else Encode(codes, s[..|s| - 1]) + codes[s[|s| - 1] as int]
  }

  /** Every row of the table is a C string of code bits. */
  ghost predicate BitRows(codes: seq<string>) {
    forall c :: 0 <= c < |codes| ==> IsBits(codes[c])
  }

  /** Bits are never NUL. */
  lemma BitsNoNul(s: string)
    requires IsBits(s)
    ensures NoNul(s)
  {
  }

  /** Concatenated code bits are code bits. */
  lemma {:induction false} EncodeBits(codes: seq<string>, s: seq<char>)
    requires InAlphabet(s, |codes|) && BitRows(codes)
    ensures IsBits(Encode(codes, s))
    decreases |s|
  {
    if s != [] {
      EncodeBits(codes, s[..|s| - 1]);
      var e := Encode(codes, s[..|s| - 1]);
      var row := codes[s[|s| - 1] as int];
      assert forall k :: |e| <= k < |e| + |row| ==> (e + row)[k] == row[k - |e|];
    }
  }

  /** Σ over the symbols `c < n` of count(c) · |codes[c]|. */
  function Weighted(s: seq<char>, codes: seq<string>, n: nat): nat
    requires n <= |codes|
  {
    if n == 0 then 0 else Weighted(s, codes, n - 1) + Count(s, n - 1) * |codes[n - 1]|
  }

  /** One more symbol adds its own row's length to the weighted sum. */
  lemma {:induction false} WeightedSnoc(s: seq<char>, x: char, codes: seq<string>, n: nat)
    requires n <= |codes|
    ensures Weighted(s + [x], codes, n) == Weighted(s, codes, n) + (if x as int < n then |codes[x as int]| else 0)
  {
    assert (s + [x])[..|s|] == s;
    if n > 0 {
      WeightedSnoc(s, x, codes, n - 1);
    }
  }

  /** The compressed length is the frequency-weighted sum of the code
      lengths. */
  lemma {:induction false} EncodeLength(codes: seq<string>, s: seq<char>)
    requires InAlphabet(s, |codes|)
    ensures |Encode(codes, s)| == Weighted(s, codes, |codes|)
    decreases |s|
  {
    if s == [] {
      WeightedEmpty(codes, |codes|);
    } else {
      var s' := s[..|s| - 1];
      EncodeLength(codes, s');
      assert s == s' + [s[|s| - 1]];
      WeightedSnoc(s', s[|s| - 1], codes, |codes|);
    }
  }

  /** Nothing to weigh in the empty input. */
  lemma {:induction false} WeightedEmpty(codes: seq<string>, n: nat)
    requires n <= |codes|
    ensures Weighted([], codes, n) == 0
  {
    if n > 0 {
      WeightedEmpty(codes, n - 1);
    }
  }

  /** `codes[c][j]` read through the row's C buffer: NUL at the end of the
      row's contents. */
  function RowAt(row: string, j: nat): char {
    if j < |row| then row[j] else '\0'
  }

  /** compressInput (huffman_t2_clock.c): for each of the `size` input
      symbols, the characters of its row up to the NUL go to
      `compressed[bitIndex++]`; nothing terminates the result, the zeroed
      buffer does. */
  method CompressInput(input: seq<char>, size: nat, codes: array<string>, compressed: array<char>)
    requires size <= |input| && InAlphabet(input[..size], codes.Length)
    requires forall c :: 0 <= c < codes.Length ==> NoNul(codes[c])
    requires |Encode(codes[..], input[..size])| <= compressed.Length
    modifies compressed
    ensures var e := Encode(codes[..], input[..size]);
            compressed[..|e|] == e &&
            forall k :: |e| <= k < compressed.Length ==> compressed[k] == old(compressed[k])
  {
    ghost var tbl := codes[..];
    ghost var s := input[..size];
    ghost var e := Encode(tbl, s);
    var bitIndex := 0;
    for i := 0 to size
      invariant InAlphabet(s[..i], |tbl|)
      invariant bitIndex == |Encode(tbl, s[..i])| <= |e|
      invariant compressed[..bitIndex] == Encode(tbl, s[..i])
      invariant forall k :: bitIndex <= k < compressed.Length ==> compressed[k] == old(compressed[k])
    {
      EncodeStep(tbl, s, i);
      assert s[i] == input[i];
      var row := codes[input[i] as int];
      var j := 0;
      while RowAt(row, j) != '\0'
        invariant j <= |row| && bitIndex == |Encode(tbl, s[..i])| + j
        invariant compressed[..bitIndex] == Encode(tbl, s[..i]) + row[..j]
        invariant forall k :: bitIndex <= k < compressed.Length ==> compressed[k] == old(compressed[k])
        decreases |row| - j
      {
        ghost var c0 := compressed[..];
        compressed[bitIndex] := RowAt(row, j);
        assert compressed[..bitIndex + 1] == c0[..bitIndex] + [row[j]];
        assert row[..j + 1] == row[..j] + [row[j]];
        bitIndex := bitIndex + 1;
        j := j + 1;
      }
      assert row[..j] == row;
    }
    assert s[..size] == s;
  }

  /** Any prefix of an input encodes to no more than the whole input. */
  lemma {:induction false} EncodePrefix(codes: seq<string>, s: seq<char>, n: nat)
    requires n <= |s| && InAlphabet(s, |codes|)
    ensures InAlphabet(s[..n], |codes|) && |Encode(codes, s[..n])| <= |Encode(codes, s)|
    decreases |s|
  {
    if n < |s| {
      assert s[..n] == s[..|s| - 1][..n];
      EncodePrefix(codes, s[..|s| - 1], n);
    } else {
      assert s[..n] == s;
    }
  }

  /** One more input symbol appends its row to the encoding of the prefix. */
  lemma EncodeStep(codes: seq<string>, s: seq<char>, i: nat)
    requires i < |s| && InAlphabet(s, |codes|)
    ensures InAlphabet(s[..i], |codes|) && InAlphabet(s[..i + 1], |codes|)
    ensures Encode(codes, s[..i + 1]) == Encode(codes, s[..i]) + codes[s[i] as int]
    ensures |Encode(codes, s[..i + 1])| <= |Encode(codes, s)|
  {
    EncodePrefix(codes, s, i + 1);
    EncodePrefix(codes, s, i);
    assert s[..i + 1][..i] == s[..i];
  }

  /** The EOF append of HuffmanCodes (huffman_t2_clock.c): each character of
      the row goes to `compressed[strlen(compressed)]`, which relies on the
      buffer being zero past the string. */
  method AppendCode(compressed: array<char>, row: string)
    requires NoNul(row)
    requires StrLen(compressed[..]) + |row| < compressed.Length
    requires forall k :: StrLen(compressed[..]) <= k <= StrLen(compressed[..]) + |row| ==> compressed[k] == '\0'
    modifies compressed
    ensures CStr(compressed[..]) == old(CStr(compressed[..])) + row
    ensures forall k :: StrLen(compressed[..]) <= k < compressed.Length ==> compressed[k] == old(compressed[k])
  {
    ghost var n0 := StrLen(compressed[..]);
    ghost var s0 := compressed[..n0];
    var j := 0;
    while RowAt(row, j) != '\0'
      invariant j <= |row| && StrLen(compressed[..]) == n0 + j
      invariant compressed[..n0 + j] == s0 + row[..j]
      invariant forall k :: n0 + j <= k < compressed.Length ==> compressed[k] == old(compressed[k])
      decreases |row| - j
    {
      var end := StrLen(compressed[..]);
      ghost var c0 := compressed[..];
      compressed[end] := RowAt(row, j);
      assert row[..j + 1] == row[..j] + [row[j]];
      assert compressed[..n0 + j + 1] == s0 + row[..j + 1] by {
        assert compressed[..n0 + j + 1] == c0[..n0 + j] + [row[j]];
      }
      NoNulConcat(s0, row[..j + 1]);
      StrLenAt(compressed[..], n0 + j + 1);
      j := j + 1;
    }
    assert row[..j] == row;
  }

  /** strcat: `src` is copied over the destination's NUL, and a NUL follows it. */
  method StrCat(dst: array<char>, src: string)
    requires NoNul(src) && StrLen(dst[..]) + |src| < dst.Length
    modifies dst
    ensures CStr(dst[..]) == old(CStr(dst[..])) + src
    ensures StrLen(dst[..]) == old(StrLen(dst[..])) + |src|
  {
    var n := StrLen(dst[..]);
    ghost var s0 := dst[..n];
    for j := 0 to |src|
      invariant dst[..n + j] == s0 + src[..j]
    {
      ghost var d0 := dst[..];
      dst[n + j] := src[j];
      assert dst[..n + j + 1] == d0[..n + j] + [src[j]];
      assert src[..j + 1] == src[..j] + [src[j]];
    }
    dst[n + |src|] := '\0';
    assert src[..|src|] == src;
    assert dst[..n + |src|] == s0 + src;
    StrLenAt(dst[..], n + |src|);
  }

  /** compressInput (huffman_vlad.c): the row of every input symbol before
      the input's NUL is strcat'd onto `compressed`. */
  method CompressInputCat(input: seq<char>, codes: array<string>, compressed: array<char>)
    requires StrLen(input) < |input| && InAlphabet(input[..StrLen(input)], codes.Length)
    requires forall c :: 0 <= c < codes.Length ==> NoNul(codes[c])
    requires StrLen(compressed[..]) + |Encode(codes[..], input[..StrLen(input)])| < compressed.Length
    modifies compressed
    ensures CStr(compressed[..]) == old(CStr(compressed[..])) + Encode(codes[..], input[..StrLen(input)])
  {
    ghost var n := StrLen(input);
    ghost var tbl := codes[..];
    ghost var s := input[..n];
    ghost var s0 := CStr(compressed[..]);
    ghost var l0 := StrLen(compressed[..]);
    ghost var enc: string := [];
    var i := 0;
    while input[i] != '\0'
      invariant i <= n && InAlphabet(s[..i], |tbl|) && enc == Encode(tbl, s[..i])
      invariant |enc| <= |Encode(tbl, s)|
      invariant CStr(compressed[..]) == s0 + enc && StrLen(compressed[..]) == l0 + |enc|
      decreases n - i
    {
      var row := codes[input[i] as int];
      EncodeStep(tbl, s, i);
      assert row == tbl[s[i] as int];
      StrCat(compressed, row);
      AppendAssoc(s0, enc, row);
      enc := enc + row;
      i := i + 1;
    }
    StrLenBefore(input, i);
    assert s[..i] == s;
  }

  /** Appending in two steps is appending once. */
  lemma AppendAssoc(a: string, b: string, c: string)
    ensures (a + b) + c == a + (b + c)
  {
  }

  /** 2 to the power `n`. */
  function Pow2(n: nat): nat {
    if n == 0 then 1 else 2 * Pow2(n - 1)
  }

  /** The number a string of bits denotes, most significant bit first. */
  function Value(s: string): (v: nat)
    requires IsBits(s)
    ensures v < Pow2(|s|)
    decreases |s|
  {
    if s == [] then 0 else 2 * Value(s[..|s| - 1]) + (s[|s| - 1] as int - '0' as int)
  }

  /** The `n` low bits of `v`, most significant first. */
  function ToBits(v: nat, n: nat): (s: string)
    ensures |s| == n && IsBits(s)
  {
    if n == 0 then [] else ToBits(v / 2, n - 1) + [if v % 2 == 0 then '0' else '1']
  }

  /** Decoding a byte's bits gives the byte back. */
  lemma {:induction false} ValueToBits(v: nat, n: nat)
    requires v < Pow2(n)
    ensures Value(ToBits(v, n)) == v
  {
    if n > 0 {
      ValueToBits(v / 2, n - 1);
      var s := ToBits(v, n);
      assert s[..|s| - 1] == ToBits(v / 2, n - 1);
    }
  }

  /** Encoding the value of a bit string gives the bits back. */
  lemma {:induction false} ToBitsValue(s: string)
    requires IsBits(s)
    ensures ToBits(Value(s), |s|) == s
    decreases |s|
  {
    if s != [] {
      var p := s[..|s| - 1];
      assert IsBits(p) by {
        assert forall k :: 0 <= k < |p| ==> p[k] == s[k];
      }
      ToBitsValue(p);
      assert Value(s) / 2 == Value(p) && Value(s) % 2 == s[|s| - 1] as int - '0' as int;
      assert s == p + [s[|s| - 1]];
    }
  }

  /** binary_to_char is injective on bit strings of one length. */
  lemma ValueInjective(s: string, t: string)
    requires IsBits(s) && IsBits(t) && |s| == |t| && Value(s) == Value(t)
    ensures s == t
  {
    ToBitsValue(s);
    ToBitsValue(t);
  }

  /** Any slice of a bit string is a bit string. */
  lemma BitsSlice(s: string, i: nat, j: nat)
    requires IsBits(s) && i <= j <= |s|
    ensures IsBits(s[i..j])
  {
  }

  /** binary_to_char: reads eight bit characters most significant first,
      doubling the value and adding each bit in turn. */
  method BinaryToChar(binary: array<char>, off: nat) returns (b: byte)
    requires off + 8 <= binary.Length && IsBits(binary[off..off + 8])
    ensures b as int == Value(binary[off..off + 8])
  {
    var value := 0;
    for i := 0 to 8
      invariant IsBits(binary[off..off + i])
      invariant value == Value(binary[off..off + i])
    {
      BitsSlice(binary[off..off + 8], 0, i + 1);
      assert binary[off..off + 8][..i + 1] == binary[off..off + i + 1];
      assert binary[off..off + i + 1][..i] == binary[off..off + i];
      assert binary[off..off + 8][i] == binary[off + i];
      value := value * 2 + (binary[off + i] as int - '0' as int);
    }
    b := value as byte;
  }

  /** `padded_length - length`: the '0's that bring `length` bits to whole
      bytes. */
  function Padding(length: nat): (p: nat)
    ensures p < 8 && (length + p) % 8 == 0
  {
    (length + 7) / 8 * 8 - length
  }

  /** `n` copies of '0'. */
  function Zeros(n: nat): (s: string)
    ensures |s| == n && IsBits(s)
  {
    seq(n, _ => '0')
  }

  /** padded_data: the padding '0's in front of the compressed bits. */
  function Padded(s: string): string {
    Zeros(Padding(|s|)) + s
  }

  /** The bytes for a whole number of bytes' worth of bits. */
  function Pack(bits: string): (out: seq<byte>)
    requires IsBits(bits) && |bits| % 8 == 0
    ensures |out| == |bits| / 8
    decreases |bits|
  {
    if bits == [] then []
    else
      assert IsBits(bits[..8]) && IsBits(bits[8..]) by {
        assert forall k :: 0 <= k < 8 ==> bits[..8][k] == bits[k];
        assert forall k :: 0 <= k < |bits| - 8 ==> bits[8..][k] == bits[k + 8];
      }
      [Value(bits[..8]) as byte] + Pack(bits[8..])
  }

  /** The bits of a sequence of bytes, eight per byte. */
  function Unpack(out: seq<byte>): string
    decreases |out|
  {
    if out == [] then [] else ToBits(out[0] as nat, 8) + Unpack(out[1..])
  }

  /** Padding keeps the string a bit string of a whole number of bytes. */
  lemma PaddedBits(s: string)
    requires IsBits(s)
    ensures IsBits(Padded(s)) && |Padded(s)| % 8 == 0 && |Padded(s)| == (|s| + 7) / 8 * 8
  {
    var z := Zeros(Padding(|s|));
    assert forall k :: 0 <= k < |z| + |s| ==> (z + s)[k] == if k < |z| then z[k] else s[k - |z|];
  }

  /** Unpacking packed bits gives the bits back. */
  lemma {:induction false} UnpackPack(bits: string)
    requires IsBits(bits) && |bits| % 8 == 0
    ensures Unpack(Pack(bits)) == bits
    decreases |bits|
  {
    if bits != [] {
      var p := Pack(bits);
      assert IsBits(bits[..8]) && IsBits(bits[8..]) by {
        assert forall k :: 0 <= k < 8 ==> bits[..8][k] == bits[k];
        assert forall k :: 0 <= k < |bits| - 8 ==> bits[8..][k] == bits[k + 8];
      }
      assert p[0] as nat == Value(bits[..8]) && p[1..] == Pack(bits[8..]);
      ToBitsValue(bits[..8]);
      UnpackPack(bits[8..]);
      assert bits == bits[..8] + bits[8..];
    }
  }

  /** The packer loses nothing: the output has ⌈len/8⌉ bytes, and dropping
      the first `padding` bits of their bits gives the compressed bits
      back. */
  lemma PackRoundTrip(s: string)
    requires IsBits(s)
    ensures IsBits(Padded(s)) && |Padded(s)| % 8 == 0
    ensures |Pack(Padded(s))| == (|s| + 7) / 8
    ensures Unpack(Pack(Padded(s)))[Padding(|s|)..] == s
  {
    PaddedBits(s);
    UnpackPack(Padded(s));
  }

  /** memset: the first `n` characters become `c`. */
  method MemSet(a: array<char>, c: char, n: nat)
    requires n <= a.Length
    modifies a
    ensures forall k :: 0 <= k < n ==> a[k] == c
    ensures forall k :: n <= k < a.Length ==> a[k] == old(a[k])
  {
    for i := 0 to n
      invariant forall k :: 0 <= k < i ==> a[k] == c
      invariant forall k :: i <= k < a.Length ==> a[k] == old(a[k])
    {
      a[i] := c;
    }
  }

  /** strcpy(dst + off, src): the string of `src` and its NUL. */
  method StrCpy(dst: array<char>, off: nat, src: array<char>)
    requires dst != src && StrLen(src[..]) < src.Length && off + StrLen(src[..]) < dst.Length
    modifies dst
    ensures dst[off..off + StrLen(src[..])] == CStr(src[..]) && dst[off + StrLen(src[..])] == '\0'
    ensures dst[..off] == old(dst[..off])
  {
    ghost var n := StrLen(src[..]);
    var i := 0;
    while src[i] != '\0'
      invariant i <= n && dst[off..off + i] == src[..i] && dst[..off] == old(dst[..off])
      decreases n - i
    {
      ghost var d0 := dst[..];
      dst[off + i] := src[i];
      assert dst[off..off + i + 1] == d0[off..off + i] + [src[i]];
      assert dst[..off] == d0[..off];
      i := i + 1;
    }
    StrLenBefore(src[..], i);
    dst[off + i] := '\0';
    assert dst[off..off + i] == src[..i];
  }

  /** The padding and copying steps of convertToAscii: `padding` '0's, then
      the compressed string. */
  method PadBits(compressed: array<char>, paddedData: array<char>) returns (paddedLength: nat)
    requires compressed != paddedData
    requires StrLen(compressed[..]) < compressed.Length && IsBits(CStr(compressed[..]))
    requires (StrLen(compressed[..]) + 7) / 8 * 8 < paddedData.Length
    modifies paddedData
    ensures paddedLength == |Padded(CStr(compressed[..]))| <= paddedData.Length
    ensures paddedData[..paddedLength] == Padded(CStr(compressed[..]))
  {
    var length := StrLen(compressed[..]);
    ghost var s := CStr(compressed[..]);
    paddedLength := (length + 7) / 8 * 8;
    var padding := paddedLength - length;
    MemSet(paddedData, '0', padding);
    StrCpy(paddedData, padding, compressed);
    assert paddedData[..padding] == Zeros(padding);
    assert paddedData[..paddedLength] == paddedData[..padding] + paddedData[padding..paddedLength];
  }

  /** The conversion loop of convertToAscii: one byte per eight bits. */
  method PackBytes(paddedData: array<char>, paddedLength: nat, output: array<byte>) returns (index: nat)
    requires paddedLength <= paddedData.Length && paddedLength % 8 == 0
    requires IsBits(paddedData[..paddedLength]) && paddedLength / 8 <= output.Length
    modifies output
    ensures index == paddedLength / 8 && output[..index] == Pack(paddedData[..paddedLength])
  {
    ghost var bits := paddedData[..paddedLength];
    ghost var nBytes := paddedLength / 8;
    assert paddedLength == 8 * nBytes;
    index := 0;
    var i := 0;
    while i < paddedLength
      invariant i == 8 * index && index <= nBytes
      invariant IsBits(bits[..i]) && output[..index] == Pack(bits[..i])
      decreases paddedLength - i
    {
      PackSnoc(bits, i);
      assert paddedData[i..i + 8] == bits[i..i + 8];
      var b := BinaryToChar(paddedData, i);
      ghost var o0 := output[..];
      output[index] := b;
      assert output[..index + 1] == o0[..index] + [b];
      index := index + 1;
      i := i + 8;
    }
    assert bits[..i] == bits;
  }

  /** convertToAscii: pads the compressed string in front with '0's to a
      multiple of eight, copies it behind the padding, and converts each
      group of eight into one output byte. Returns the number of bytes. */
  method ConvertToAscii(compressed: array<char>, paddedData: array<char>, output: array<byte>) returns (index: nat)
    requires compressed != paddedData
    requires StrLen(compressed[..]) < compressed.Length && IsBits(CStr(compressed[..]))
    requires (StrLen(compressed[..]) + 7) / 8 * 8 < paddedData.Length
    requires (StrLen(compressed[..]) + 7) / 8 <= output.Length
    modifies paddedData, output
    ensures index == (StrLen(compressed[..]) + 7) / 8
    ensures paddedData[..|Padded(CStr(compressed[..]))|] == Padded(CStr(compressed[..]))
    ensures PackedOk(CStr(compressed[..])) && output[..index] == Pack(Padded(CStr(compressed[..])))
  {
    var paddedLength := PadBits(compressed, paddedData);
    PaddedBits(CStr(compressed[..]));
    index := PackBytes(paddedData, paddedLength, output);
  }

  /** convertToAscii of huffman_vlad.c: the same steps into buffers
      allocated at the exact sizes, `padded_length + 1` and
      `padded_length / 8`. */
  method ConvertToAsciiLocal(compressed: array<char>) returns (output: array<byte>, index: nat)
    requires StrLen(compressed[..]) < compressed.Length && IsBits(CStr(compressed[..]))
    ensures index == output.Length == (StrLen(compressed[..]) + 7) / 8
    ensures PackedOk(CStr(compressed[..])) && output[..] == Pack(Padded(CStr(compressed[..])))
  {
    var length := StrLen(compressed[..]);
    var paddedLength := (length + 7) / 8 * 8;
    var paddedData := new char[paddedLength + 1];
    var padded := PadBits(compressed, paddedData);
    PaddedBits(CStr(compressed[..]));
    output := new byte[paddedLength / 8];
    index := PackBytes(paddedData, padded, output);
    assert output[..] == output[..index];
  }

  /** The padded bits of `s` form whole bytes. */
  ghost predicate PackedOk(s: string) {
    IsBits(Padded(s)) && |Padded(s)| % 8 == 0
  }

  /** Packing one more group of eight bits appends one byte. */
  lemma {:induction false} PackSnoc(bits: string, i: nat)
    requires IsBits(bits) && |bits| % 8 == 0 && i % 8 == 0 && i + 8 <= |bits|
    ensures IsBits(bits[..i]) && IsBits(bits[..i + 8]) && IsBits(bits[i..i + 8])
    ensures Pack(bits[..i + 8]) == Pack(bits[..i]) + [Value(bits[i..i + 8]) as byte]
    decreases i
  {
    BitsSlice(bits, 0, i);
    BitsSlice(bits, 0, i + 8);
    BitsSlice(bits, i, i + 8);
    if i == 0 {
      assert bits[..8][8..] == [];
      assert bits[..8][..8] == bits[..8];
    } else {
      var b := bits[8..];
      BitsSlice(bits, 8, |bits|);
      PackSnoc(b, i - 8);
      assert bits[..i + 8][8..] == b[..i];
      assert bits[..i][8..] == b[..i - 8];
      assert bits[..i + 8][..8] == bits[..8] && bits[..i][..8] == bits[..8];
      assert b[i - 8..i] == bits[i..i + 8];
    }
  }
}
