# Huffman coding over fixed arrays, verified in Dafny

This project models the core of a small C repository of Huffman coders.
There are three variants of one pipeline:

- `huffman_t2_clock.c`: MAX_CHAR 128, MAX_TREE_HT 100, an EOF symbol `'\0'`, and all storage in globals.
- `huffman.c`: MAX_CHAR 256, MAX_TREE_HT 100, a function-static arena and heap, and a `minHeapify` that breaks ties on the symbol.
- `huffman_vlad.c`: MAX_CHAR 256, MAX_TREE_HT 8000, a recursive code generator, an `strcat` compressor, and variable-length local buffers.

Each variant does the same steps:

1. Count symbol frequencies.
2. List the symbols that occur, in increasing code order.
3. Allocate one leaf per listed symbol from a bump-allocated node arena (`newNode`).
4. Build a Huffman tree over an array-backed binary min-heap keyed on `freq`. The tree is built by repeatedly extracting the two lightest trees and inserting a `'$'` parent that weighs both.
5. Derive the per-symbol code table.
6. Concatenate the codes of the input. `huffman.c` only prints them.
7. Pad the bit string in front with `'0'`s to a whole number of bytes.
8. Pack it eight bits at a time, most significant bit first.

The model keeps the C programs' imperative form:

- **Arena.** The node storage and `nodeIndex` live in the `Arena` class, with `NewNode`. Pointers become indices into `nodes` (`Link = Null | Ref(i)`). Every child index is below its parent's index, so the arena is acyclic by construction.
- **Heap.** The heap is the `MinHeap` class over an `array<nat>` of node indices.
  - `MinHeapify` swaps in place and recurses.
  - `InsertMinHeap` shifts parents down in a `while` loop.
  - `BuildMinHeap` runs from C's truncating `(n - 1) / 2` down to 0.
  - Each method is proved against functions on sequences. `SiftDown` is the contents after heapify. The freq-only heap predicate `IsMinHeap` is the only order that all heap operations preserve, since insert ignores the tie-break of `huffman.c`.
- **Tree builder.** `BuildHuffmanTree` keeps a loop invariant (`Progress`) that ties the following together:
  - the live heap entries;
  - the built slots (`Built`: the leaves, then `'$'` parents whose freq is the sum of their children's, with the first extracted child on the left and no heavier than the right one);
  - the total weight.

  It proves:
  - the number of merges;
  - the root's weight;
  - a height bound;
  - that nothing outside the new slots changes;
  - that the new slots form one tree: a second invariant (`RootsOf`) says the heap entries are the roots of a forest in which no slot has two parents.
- **Iterative code generator.** `generateCodes` (t2) and `printCodes` (huffman.c) are one `GenerateCodes` method over the explicit `stack`, `arr` and `visited` arrays. Its invariant `StackPaths` says that `stack[k]` is the node reached by the first `k` bits of `arr`, and that `top == stackTop`.

  Because `visited[depth]` is set but never cleared, only soundness is proved (`Sound`): every row written is the root path of a leaf with that symbol. Completeness does not hold for this form.
- **Recursive code generator.** The recursive generator of `huffman_vlad.c` is proved to produce exactly the table `Table`. That table gives every leaf its root path, leaves other rows as they were, and is prefix-free.
- **Compression and packing.**
  - The compressors are proved to build `Encode(codes, input)`: the concatenation of the rows in input order. Its length is the weighted sum Σ count(c)·|code(c)|.
  - `convertToAscii` is proved to write `Pack(Padded(bits))`. `PackRoundTrip` shows that unpacking and dropping the padding recovers the bits.
- **Drivers.** Each program's `HuffmanCodes` is a method of a class holding that program's long-lived storage (`ClockProgram`, `PlainProgram`, `VladProgram`). Each one composes these results into one contract.

C strings are `seq<char>` read through `StrLen`/`CStr`. Code rows are `array<string>` whose NUL terminator is implicit. Symbols are naturals below MAX_CHAR.

Files: `arena.dfy`, `heap.dfy`, `forest.dfy`, `builder.dfy`, `frequency.dfy`, `cstring.dfy`, `codes.dfy`, `packer.dfy`, `pipeline.dfy`, `examples.dfy`.

The same operation appears at these lines in the other variants:

| operation | huffman.c | huffman_vlad.c |
|---|---|---|
| `newNode` | 22-30 | 27-33 |
| heap functions | 33-104 | 36-92 |
| `createAndBuildMinHeap` | 120-130 | 95-103 |
| `buildHuffmanTree` | 133-149 | 106-124 |
| `binary_to_char` | — | 150-156 |

The table below names one source location per member.

## Model

| member | source | states |
|---|---|---|
| Arena.Arena.constructor | huffman_t2_clock.c:100-101 | the zeroed static node array and `nodeIndex == 0` |
| Arena.Arena.NewNode | huffman_t2_clock.c:122-129 | returns the old `nodeIndex` and advances it by exactly one; that slot becomes a childless node with the given symbol and freq, and no other slot changes; writing past the array needs `nodeIndex < MAX_CHAR` |
| Arena.Arena.SetChildren | huffman_t2_clock.c:281-282 | only the parent's two child links change, to earlier slots, so the arena stays acyclic |
| Arena.LeafEnds | huffman_t2_clock.c:238 | isLeaf: a node is a leaf exactly when neither bit leads anywhere from it, and then no non-empty path leads anywhere |
| Arena.FollowHeight | huffman_t2_clock.c:109-111 | a node reached by a path of length d sits at least d below the root's height, so a path never outgrows the tree height |
| Arena.CodesPrefixFree | huffman_vlad.c:127-140 | root paths of two leaves with different symbols are not prefixes of one another |
| Heap.CDiv | huffman_t2_clock.c:227-228 | C's truncating division, by the division law: `q·b <= a < q·b + b` for a non-negative `a` (rounded down) and `q·b - b < a <= q·b` for a negative one (rounded up, toward zero) |
| Heap.CDivSmall | huffman_t2_clock.c:227-228 | the start index for heaps of size 0 and 1 is `(-2)/2 == -1` (the loop is skipped) and `(-1)/2 == 0` (the single entry is heapified) |
| Heap.RootIsMin | huffman_t2_clock.c:192-194 | the root of a freq-min-heap has a key no greater than any entry |
| Heap.Smallest | huffman.c:50-63 | picks `idx` or a child in use, which precedes `idx` when it is a child and is preceded by none of the three; the comparison is freq, then symbol when `tieBreak` (huffman.c) |
| Heap.SiftDown | huffman_t2_clock.c:157-176 | minHeapify only permutes the entries in use |
| Heap.SiftDownOutside | huffman_t2_clock.c:157-176 | entries outside the subtree of `idx`, or past `size`, are unchanged, and the new entry at `idx` came from `idx` or a child |
| Heap.SiftDownHeap | huffman_t2_clock.c:157-176 | if every parent at an index above `idx` was ordered, then after heapify every parent from `idx` on is ordered; this covers both callers, extraction at the root and the bottom-up build |
| Heap.MinHeap.constructor | huffman_t2_clock.c:92-96 | the heap struct with its MAX_CHAR-entry array of node references, fresh, with size and capacity 0 |
| Heap.MinHeap.CreateMinHeap | huffman_t2_clock.c:137-141 | size 0 and the capacity recorded |
| Heap.MinHeap.MinHeapify | huffman.c:50-69 | the buffer becomes `SiftDown` of the old one, whether or not ties are broken |
| Heap.MinHeap.ExtractMin | huffman_t2_clock.c:192-199 | with `size >= 1`: returns the old root, which is no heavier than any entry left; size drops by one; the multiset loses exactly that entry; the heap property and the arena bounds hold |
| Heap.MinHeap.MoveLastToRoot | huffman_t2_clock.c:194-196 | returns the old root; the last entry in use now sits at the root, the size drops by one, and no other entry or the capacity changes |
| Heap.MinHeap.InsertMinHeap | huffman_t2_clock.c:207-218 | size grows by one; the multiset gains exactly the new node; the freq-min-heap property is kept by shifting parents down |
| Heap.MinHeap.BuildMinHeap | huffman_t2_clock.c:225-230 | any buffer becomes a freq-min-heap, with the same multiset; size 0 skips the loop |
| Heap.ShiftStep | huffman_t2_clock.c:212-216 | one shift of the sift-up loop moves the hole up and keeps "filling the hole gives the old entries plus the new one" |
| Forest.BuiltStep | huffman_t2_clock.c:280-282 | a `'$'` parent of two built trees, lighter on the left, extends the built slots by one |
| Forest.BuiltHeight | huffman_t2_clock.c:268-288 | a built tree is no higher than the number of merges below its root |
| Forest.SumLeaves | huffman_t2_clock.c:253-254 | the freshly allocated leaves weigh the total frequency |
| Forest.RootsStart | huffman_t2_clock.c:272-273 | the freshly heapified leaves are the roots of a forest: each leaf is in the heap once and nobody's child |
| Forest.RootsStep | huffman_t2_clock.c:275-285 | one merge keeps the heap's entries the roots of the forest: the two extracted roots become the only children of the new slot, which replaces them in the heap, and no slot gains a second parent |
| Forest.RootsEnd | huffman_t2_clock.c:287 | with one root left, the built slots form one tree under it: the root has no parent and every other slot has exactly one |
| Builder.CreateAndBuildMinHeap | huffman_t2_clock.c:248-258 | allocates `size` consecutive leaves for `data`/`freq` and leaves every other slot alone; the heap holds exactly those slots, as a freq-min-heap, with size and capacity `size` |
| Builder.ExtractTwo | huffman_t2_clock.c:277-278 | the two extracted entries leave the multiset; the first is no heavier than the second, which is no heavier than anything left |
| Builder.MakeParent | huffman_t2_clock.c:280-282 | the next slot becomes `Parent(left, right)`: `'$'`, both children, and the sum of their freqs |
| Builder.MergeLightest | huffman_t2_clock.c:275-285 | one loop round: the heap loses `left` and `right`, gains `top`, shrinks by one and stays a heap; `top` is a parent whose left child is no heavier than its right |
| Builder.MergeRound | huffman_t2_clock.c:275-285 | one loop round keeps the loop's invariant: the heap, one entry smaller, holds the roots of the forest built so far and their total weight |
| Builder.BuildHuffmanTree | huffman_t2_clock.c:268-288 | with `size >= 1`: exactly `size - 1` merges (`nodeIndex` advances by `2·size - 1`); the new slots are the leaves and then merged parents; nothing else changes; the root weighs Σ freq; its height is at most `size - 1`; the new slots form one tree under the root, in which every other slot has exactly one parent |
| Frequency.CountPositive | huffman.c:152-155 | a symbol's count is positive exactly when it occurs |
| Frequency.CountsSum | huffman.c:152-155 | over the whole alphabet the counts add up to the input length |
| Frequency.CalculateFrequency | huffman.c:152-155 | each row gains the number of occurrences of its symbol in `data[0..size)` |
| Frequency.CalculateFrequencyInChunks | huffman_t2_clock.c:291-301 | for any `chunkSize > 0`, the same table as one pass: each row gains its symbol's count |
| Frequency.PresentAligned | huffman.c:219-225 | the unique list and its counts have equal length; each listed symbol is in range and comes with its own positive count |
| Frequency.PresentIncreasing | huffman.c:219-225 | the unique list is strictly increasing, so each symbol is listed once |
| Frequency.PresentMembers | huffman.c:219-225 | a symbol is listed exactly when its count is positive |
| Frequency.PresentTotal | huffman_t2_clock.c:440-448 | dropping the zero rows keeps the total weight |
| Frequency.UniqueSymbols | huffman.c:219-225 | fills `uniqueData`/`uniqueFreq` with `Present`/`PresentFreqs` of the table; `uniqueSize` is their length |
| CString.StrLen | huffman_vlad.c:160 | strlen: a NUL-free prefix, stopped at the first NUL |
| CString.StrLenAt | huffman_t2_clock.c:462 | a NUL right after NUL-free content is where strlen stops |
| Codes.Digits | huffman_t2_clock.c:339-340 | `arr[i] + '0'` for each bit: same length, each character the digit of its bit |
| Codes.DepthBound | huffman_t2_clock.c:109-111 | the bit stack never grows past the height of the tree |
| Codes.PushStep | huffman_t2_clock.c:317-322 | pushing `current` with bit 0 keeps `StackPaths` and moves to the left child |
| Codes.TurnStep | huffman_t2_clock.c:326-331 | setting the last bit to 1 makes the right child the node reached by the stack's bits |
| Codes.CodeRow | huffman_t2_clock.c:339-341 | the row written is exactly the digits of `arr[0..top)` |
| Codes.DescendLeft | huffman_t2_clock.c:317-322 | the inner loop keeps `top == stackTop` and `StackPaths`, and ends with a non-empty stack within the height |
| Codes.TurnRight | huffman_t2_clock.c:326-331 | sets the depth's flag, makes the last bit 1 and returns the right child, keeping `StackPaths`; the number of clear flags drops |
| Codes.WriteCode | huffman_t2_clock.c:337-342 | the popped leaf's row becomes its root path and no other row changes |
| Codes.PopNode | huffman_t2_clock.c:332-345 | popping keeps `StackPaths` and soundness; a leaf root gets `""` |
| Codes.GenerateCodes | huffman_t2_clock.c:309-347 | every row is unchanged or is the root path of a leaf with that symbol; a leaf root gets `""`; needs tree height below the stack size |
| Codes.PrintCodes | huffman.c:158-192 | the same soundness with fresh, zeroed local arrays of MAX_TREE_HT entries |
| Codes.TableSpec | huffman_vlad.c:127-140 | below a subtree, rows of its leaves' symbols become prefix plus path, and all other rows are unchanged |
| Codes.CodeHasLeafSymbol | huffman_vlad.c:136-139 | a symbol with a root path is one of the subtree's leaf symbols |
| Codes.GeneratedTable | huffman_vlad.c:127-140 | from the root with an empty prefix: unchanged rows for absent symbols; a root path for every leaf symbol (completeness); rows for distinct symbols are prefix-free |
| Codes.GenerateCodesRec | huffman_vlad.c:127-140 | the table becomes `Table` of the subtree, and the shared `code` prefix is restored |
| Packer.EncodeBits | huffman_t2_clock.c:350-361 | concatenated code rows are code bits |
| Packer.EncodeLength | huffman_t2_clock.c:350-361 | the compressed length is Σ_c count(c)·\|codes[c]\| |
| Packer.CompressInput | huffman_t2_clock.c:350-361 | the buffer's first \|e\| characters are the concatenated rows `e`, and the rest is untouched |
| Packer.EncodeStep | huffman_t2_clock.c:354-359 | one more input symbol appends exactly its row |
| Packer.AppendCode | huffman_t2_clock.c:460-463 | appending the EOF row at `strlen` extends the C string by that row, given the zeroed tail |
| Packer.StrCat | huffman_vlad.c:145 | strcat extends the C string and its length by the source |
| Packer.CompressInputCat | huffman_vlad.c:143-147 | the C string gains the rows of the input up to its first NUL, in order |
| Packer.Value | huffman_t2_clock.c:364-372 | the MSB-first value of a bit string is below 2^length |
| Packer.ValueToBits | huffman_vlad.c:150-156 | value of `ToBits(v, n)` is `v` for `v < 2^n` |
| Packer.ToBitsValue | huffman_vlad.c:150-156 | `ToBits(Value(s), \|s\|) == s` |
| Packer.ValueInjective | huffman_vlad.c:150-156 | distinct 8-bit strings give distinct values |
| Packer.BinaryToChar | huffman_t2_clock.c:364-372 | the byte is the value Σ bit_i·2^(7−i) of the eight characters, in [0, 255] |
| Packer.Padding | huffman_t2_clock.c:377-379 | padding is in [0, 7] and makes the length a multiple of 8 |
| Packer.Pack | huffman_t2_clock.c:384-389 | one byte per eight bits |
| Packer.UnpackPack | huffman_vlad.c:171-173 | unpacking the packed bytes gives back the bits |
| Packer.PackRoundTrip | huffman_vlad.c:159-173 | ⌈len/8⌉ bytes, whose bits with the padding dropped are the compressed string |
| Packer.MemSet | huffman_t2_clock.c:381 | the first `n` characters are set, the rest unchanged |
| Packer.StrCpy | huffman_t2_clock.c:382 | the source string and its NUL land at the offset, and the prefix before it is unchanged |
| Packer.PadBits | huffman_t2_clock.c:377-382 | `padded_data` starts with `Padded(compressed)`, of length ⌈len/8⌉·8 |
| Packer.PackSnoc | huffman_t2_clock.c:386-389 | one more group of eight appends its value as a byte |
| Packer.PackBytes | huffman_t2_clock.c:384-389 | `padded_length / 8` bytes, equal to `Pack` of the padded bits |
| Packer.ConvertToAscii | huffman_t2_clock.c:375-389 | ⌈len/8⌉ bytes equal to `Pack(Padded(compressed))`, and `padded_data` holds the padded bits |
| Packer.ConvertToAsciiLocal | huffman_vlad.c:159-173 | the same with local buffers of `padded_length + 1` and `padded_length / 8` entries |
| Pipeline.ClockTable | huffman_t2_clock.c:437 | the table has MAX_CHAR rows and the EOF row is 1 |
| Pipeline.ClockTotal | huffman_t2_clock.c:431-437 | the table weighs the input minus its NULs, plus the one EOF occurrence |
| Pipeline.SomePresent | huffman_t2_clock.c:437-448 | a positive row (the forced EOF) puts at least one symbol in the unique list |
| Pipeline.InputPresent | huffman.c:211-225 | a non-empty input puts at least one symbol in the unique list |
| Pipeline.BuiltSymbols | huffman_t2_clock.c:444 | every node's symbol, `'$'` included, stays below MAX_CHAR, so it can index `codes` |
| Pipeline.PresentAlphabet | huffman.c:221 | the listed symbols are below the table size |
| Pipeline.SoundRows | huffman_t2_clock.c:107 | a sound table over empty rows has rows of code bits no longer than the tree height |
| Pipeline.ClockFits | huffman_t2_clock.c:108 | codes no longer than `h <= u` keep the input's bits and the EOF code within `u·(size + 1)`, so the driver's bound implies the exact one of `Compress` |
| Pipeline.EncodeBound | huffman_t2_clock.c:108 | the compressed length is at most height times input length |
| Pipeline.ClearCounts | huffman_t2_clock.c:431 | memset of the table to 0 |
| Pipeline.ClockProgram.constructor | huffman_t2_clock.c:100-113 | the zero-initialised globals: empty code rows, an all-NUL `compressed`, index 0 |
| Pipeline.ClockProgram.CountSymbols | huffman_t2_clock.c:431-448 | the table is `ClockTable(input)`, and the unique arrays are its `Present`/`PresentFreqs` |
| Pipeline.ClockProgram.BuildTree | huffman_t2_clock.c:431-451 | the leaves are the unique symbols, the root weighs `size - count(NUL) + 1`, and the height is below the number of symbols |
| Pipeline.ClockProgram.Compress | huffman_t2_clock.c:457-465 | `compressed` holds the input's codes followed by the EOF code, of weighted length; the bytes are `Pack(Padded(...))`; it requires exactly that this length, its NUL, and its padding with NUL fit the 12800-character buffers (at most 12792 bits) |
| Pipeline.ClockProgram.HuffmanCodes | huffman_t2_clock.c:429-466 | the whole t2 pipeline on the first call: table, unique list, built tree, root weight, sound codes, compressed bits + EOF code, and packed bytes |
| Pipeline.CountAndBuild | huffman.c:211-227 | a local zeroed table, one count pass, the unique pass and the build: leaves are exactly the present symbols with their counts, the root weighs `size`, and the height is below the number of symbols |
| Pipeline.CountUnique | huffman_vlad.c:185-199 | the unique arrays are `Present`/`PresentFreqs` of the input's counts |
| Pipeline.PlainProgram.constructor | huffman.c:23-24 | the function-static arena, zeroed, index 0 |
| Pipeline.PlainProgram.HuffmanCodes | huffman.c:211-237 | the tree built from the present symbols, root weight `size`, a sound code table over zeroed rows (leaf root `""`), and the printed codes of the input in order |
| Pipeline.PrintCompressed | huffman.c:234-236 | the rows of the input symbols in order |
| Pipeline.VladEncode | huffman_vlad.c:203-211 | the recursive table over zeroed rows, `compressed` as the encoded input up to its NUL, and the packed bytes; it requires exactly that the encoded input and its NUL fit the 2048000-character buffer |
| Pipeline.VladProgram.constructor | huffman_vlad.c:23-24 | the global arena, zeroed, index 0 |
| Pipeline.VladProgram.HuffmanCodes | huffman_vlad.c:184-212 | the built tree, root weight `size`, the complete prefix-free `Table`, the compressed string and the packed bytes |
| Examples.SampleCountValues | huffman.c:245-248 | in "abracadabra": a:5, b:2, r:2, c:1, d:1, and no other symbol |
| Examples.SampleCounts | huffman.c:245-248 | the unique pass lists "abcdr" with [5, 2, 1, 1, 2], weighing 11, so there are 4 merges |
| Examples.TwoLeavesTable | huffman_vlad.c:127-140 | a `'$'` root over leaves 'a', 'b' gives 'a' "0" and 'b' "1" and changes no other row |
| Examples.PackExample | huffman_t2_clock.c:375-389 | "101" is padded to "00000101" and packs to the single byte 5 |

## Left out

- Printing is not modelled: `printHuffmanCodes`, `printHuffmanCodesAndFrequencies`, `printArr`, and the `printf`/`putchar` tails of `convertToAscii`. The code dump of huffman.c is modelled as the returned string `printed`.
- `main` is not modelled: its timing with `clock()` and `double` arithmetic, and the hard-coded sample arrays. The huffman.c sample is used only as a concrete example.
- Integer widths are not modelled. Frequencies, counts and indices are unbounded naturals, so `int`/`unsigned` overflow is not modelled.
- `char` signedness is not modelled. Symbols are naturals below MAX_CHAR. The `(char)i` of the 256-symbol variants is read back as `i`, as with an unsigned `char`.
- Pointers become arena indices. Pointer identity and the `capacity` field play no part, so `capacity` is only recorded.
- Heap.MinHeap.constructor: `BuildHuffmanTree` allocates a fresh heap buffer per call where huffman.c reuses its function-static one. The difference is not observable, because `createAndBuildMinHeap` writes every entry it reads.
- Codes.GenerateCodes: completeness is not claimed, because it does not hold. `visited` is never cleared on a pop, so a later internal node at an already-flagged depth is popped without its right subtree. Only soundness is proved, plus the leaf-root case.
- Codes.PrintCodes: the same weaker contract for the same reason.
- Pipeline.ClockProgram.HuffmanCodes requires the zeroed code rows and `compressed` of program start. A second call would append to stale compressed bits and could keep stale rows, which the model does not describe.
- Pipeline.ClockProgram.HuffmanCodes: its buffer precondition `(#symbols - 1)·(size + 1) <= 12792` is a sufficient bound, built from the tree height, because the codes are not known before the call. Its compressing part `Pipeline.ClockProgram.Compress` requires the exact bound on the compressed length. Overflowing `compressed` or `padded_data` is undefined behaviour in C.
- Pipeline.VladProgram.HuffmanCodes: the same kind of sufficient bound for its 2048000-character buffer; its back half `Pipeline.VladEncode` requires the exact bound on the encoded length. It also requires `data` to contain a NUL, since reading past the input is undefined. The model, like the C code, compresses only up to that first NUL.
- Pipeline.PlainProgram.HuffmanCodes requires at most 100 distinct symbols. That keeps the tree height below printCodes' MAX_TREE_HT stack.
- In huffman_t2_clock.c, `freq['\0'] = 1` replaces any count of NUL in the input. The model keeps that override (`ClockTable`).
- Decoding is not modelled; no decoder exists. Only the unpack-after-pack round trip is proved.
- Heap order: only the freq-only heap property is proved for huffman.c. Its `minHeapify` breaks ties on the symbol but `insertMinHeap` does not, so no stronger order survives both.
