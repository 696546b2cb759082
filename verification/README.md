# Huffman coder — a verified model

This project models the Huffman coder of `src/Hauffman.java` as pure Dafny
and proves what its five steps promise:

1. **Counting** (`setup`): a table from each character of the input string to
   its number of occurrences.
2. **Tree construction** (`buildTree`): one leaf per table entry goes into a
   min-priority queue ordered by the comparator `x.freq - y.freq`. The loop
   then polls the two lightest trees, the first as the left child and the
   second as the right, and enqueues their parent, until one tree, the root,
   is left.
3. **Code assignment** (`assignCode`): a depth-first walk with one shared
   buffer. It appends `0` before going left and `1` before going right, and
   deletes the digit afterwards. Each leaf records the buffer as its code
   word; with a one-character table it records `0` instead.
4. **Encoding** (`encode`): the code words of the input's characters,
   concatenated in order.
5. **Decoding** (`decode`): a walk over the tree, one bit at a time. With a
   one-character table every bit yields that character. Otherwise `0` goes
   left and `1` goes right; reaching a leaf emits its character and restarts
   at the root.

Modules follow these steps:
- `Frequency` (`frequency.dfy`): counting, and `Total`, the sum of a table's counts.
- `HuffmanTree` (`tree.dfy`): the tree, the comparator, the queue and tree construction.
- `CodeAssignment` (`codes.dfy`): code assignment and the prefix-code properties.
- `Codec` (`codec.dfy`): encoding, decoding, the round trip and the encoded length.
- `Huffman` (`huffman.dfy`): `Alg` (counting, tree construction and code
  assignment, as the constructor runs them) and `Run`, which follows it with
  encoding and decoding.

Representation choices:
- A tree is the immutable datatype `Leaf(c, w) | Node(left, right, w)`. An
  internal node always has both children, and a leaf has none. So the
  source's `isLeaf()`, its `n.left != null` / `n.right != null` tests in
  `assignCode` and its `n.left == null` test in `decode` all become the
  constructor test `Leaf?`.
- The priority queue is a sequence of trees. `Poll` may hand out ANY element
  the comparator ranks lowest: the comparator looks at weights only, and
  `java.util.PriorityQueue` does not say which of several equal minima it
  returns. The leaves are enqueued in an arbitrary key order, because a
  `HashMap`'s iteration order is unspecified too. Every property below
  therefore holds for every tie-break and every enumeration order.
- The comparator is the 32-bit difference of the weights, with Java's
  wrap-around written out (`Wrap32`). Every weight is at most the input's
  length, so it fits in an `int`, and the wrap never changes the comparison.
- A code word is a `seq<bool>`: `false` is the digit `0` (left) and `true`
  is the digit `1` (right).
- The source decides the one-character case by `hm.size() == 1`. The model
  passes that flag to `AssignCode`, as the source does. `BuildTree` proves the
  flag equals "the root is a leaf", and `Decode` tests the root directly.

The code reports no errors, and neither does the model:
- A character with no code word makes `encode` append the text `"null"`
  (line 195). The model's `Encode` instead requires every character to have
  a code word. The table built from the same string always satisfies that.
- Bits that stop part-way down a walk are silently dropped by `decode`
  (lines 213-231). `TruncatedTailDropped` proves the model drops them too.
- The empty string is not accepted. For it, `hm.size()` is 0, and
  `new PriorityQueue<Node>(0, ...)` (line 113) throws
  `IllegalArgumentException`, because the capacity must be at least 1. The
  model requires a non-empty string.

## Model

| member | source | states |
|---|---|---|
| Frequency.Setup | src/Hauffman.java:92-104 | the table holds exactly the characters of `s`, each with its number of occurrences in `s`; every count is positive; the counts sum to `|s|` |
| Frequency.CountStep | src/Hauffman.java:99-102 | counting one more character, by raising its count or inserting it at 1, keeps the table exact for the longer prefix and raises the sum by one |
| Frequency.TotalRemove | src/Hauffman.java:117 | a table's sum is the same whichever entry is taken out first, which is what lets an enumeration in any order account for every count |
| HuffmanTree.Compare | src/Hauffman.java:58-64 | the comparator's 32-bit result is negative, zero or positive exactly when the first weight is below, equal to or above the second, for all weights that fit in an `int` |
| HuffmanTree.LeafIffOneLeaf | src/Hauffman.java:52-54 | a tree is a leaf exactly when it holds one leaf character; an internal node holds at least two |
| HuffmanTree.MinExists | src/Hauffman.java:127-128 | a non-empty queue always has an element that no other element ranks below |
| HuffmanTree.WithoutMultiset | src/Hauffman.java:127-128 | removing the element at a position takes exactly that tree out of the queue |
| HuffmanTree.WithoutWeight | src/Hauffman.java:127-128 | removing the element at a position takes exactly its weight out of the queue's total weight |
| HuffmanTree.WithoutBag | src/Hauffman.java:127-128 | removing the element at a position takes exactly its leaf characters out of the queue's leaves |
| HuffmanTree.MinBelowRest | src/Hauffman.java:127-128 | the polled minimum weighs no more than any tree left in the queue |
| HuffmanTree.Poll | src/Hauffman.java:127-128 | polling removes one tree of the queue that weighs no more than any tree left; the queue shrinks by one, and its trees, weight and leaves split exactly between the polled tree and the rest |
| HuffmanTree.MergeStep | src/Hauffman.java:126-135 | one iteration shrinks the queue by one: the first polled tree weighs no more than the second, which weighs no more than any tree left; the parent weighs their sum; the queue's total weight and its leaf characters are unchanged |
| HuffmanTree.EnqueueLeaves | src/Hauffman.java:117-123 | the queue gets one leaf per table entry, in any order: every leaf's weight is its character's count, the leaf characters are exactly the table's keys, each once, and the weights sum to the table's sum |
| HuffmanTree.MergeKeepsShape | src/Hauffman.java:129-131 | after a merge every tree of the queue still weighs the sum of its children at every internal node and carries table counts at its leaves |
| HuffmanTree.BuildTree | src/Hauffman.java:112-138 | the root weighs the table's sum; every internal node weighs the sum of its children; the leaves are exactly the table's keys, each once, weighted by their counts; the root is a bare leaf exactly when the table has one entry |
| CodeAssignment.Codes | src/Hauffman.java:144-163 | the entries recorded below a subtree are keyed by exactly the subtree's leaf characters |
| CodeAssignment.AssignCode | src/Hauffman.java:144-163 | the shared buffer comes back as it went in, and the table gains exactly the entries of the pure path-by-path definition `Codes` |
| CodeAssignment.CodesArePaths | src/Hauffman.java:153-161 | every recorded code word is the entry path followed by a path that leads down the subtree to a leaf holding that very character |
| CodeAssignment.PathsPrefixFree | src/Hauffman.java:146-161 | if one root-to-leaf path is a prefix of another, the two are the same path to the same leaf |
| CodeAssignment.CodeTableIsPathTable | src/Hauffman.java:144-163 | the built table's keys are the leaf characters; a one-leaf tree maps its character to `0`; otherwise each code word leads from the root to its own leaf; no code word is empty |
| CodeAssignment.CodeTableIsPrefixCode | src/Hauffman.java:146-161 | no code word of the built table is a prefix of another character's code word, and distinct characters get distinct code words, because only leaves receive code words |
| CodeAssignment.CodeTable | src/Hauffman.java:144-150 | the table that the walk from the root with an empty buffer produces has exactly the tree's leaf characters as keys, and maps the sole character of a one-leaf tree to `0` |
| Codec.Encode | src/Hauffman.java:191-197 | the code words of the string's characters, in order, which needs a code word for every character; when no code word is empty, each character contributes at least one bit |
| Codec.EncodeAppend | src/Hauffman.java:194-196 | encoding a concatenation is the concatenation of the encodings, since characters are encoded one at a time, left to right |
| Codec.Decode | src/Hauffman.java:208-236 | decoding starts at the root, emits at most one character per bit, and emits only characters held by the tree's leaves |
| Codec.DecodeInAlphabet | src/Hauffman.java:213-231 | a walk from any node below the root emits only characters of the root's leaves, because it emits only at leaves or at a leaf root |
| Codec.DecodeFrom | src/Hauffman.java:212-231 | the decoder emits at most one character per bit, and exactly one per bit when the root is a leaf |
| Codec.DecodeSingle | src/Hauffman.java:215-218 | with a one-leaf tree every emitted character is the root's character |
| Codec.DecodeAlongPath | src/Hauffman.java:219-229 | following a path down to a leaf emits exactly that leaf's character, then continues from the root on the remaining bits |
| Codec.DecodePartialPath | src/Hauffman.java:213-231 | bits that stop part-way down a path to a leaf emit nothing |
| Codec.DecodeEncode | src/Hauffman.java:208-231 | decoding an encoded string followed by further bits yields the string followed by the decoding of those bits, for any table of root-to-leaf paths |
| Codec.EncodeSingle | src/Hauffman.java:191-197 | with the one-character table `c -> 0`, a string of `c`s encodes to one bit per character |
| Codec.RoundTrip | src/Hauffman.java:208-236 | every string over a tree's leaf characters is encodable with the tree's table, and decoding its encoding gives the string back, for both a one-leaf and a many-leaf tree |
| Codec.TruncatedTailDropped | src/Hauffman.java:219-231 | appending a proper prefix of a code word to an encoding does not change the decoded string: the partial walk is dropped without an error |
| Codec.CostTableCons | src/Hauffman.java:194-196 | one more occurrence of the first character adds exactly its code-word length to the total cost |
| Codec.EncodedLength | src/Hauffman.java:191-197 | the encoding's length is the sum, over the table's characters, of count times code-word length |
| Huffman.LeavesAreAlphabet | src/Hauffman.java:117-120 | leaves holding exactly the counted characters hold each character of the string exactly once, and no other |
| Huffman.Alg | src/Hauffman.java:74-86 | for every non-empty string and every tie-break: the table counts the string; the root weighs the string's length and every internal node weighs the sum of its children; the leaves are the string's characters, each once, weighted by its count; the code table is the tree's, keyed by exactly those characters, and is a prefix code of non-empty code words |
| Huffman.Run | src/Hauffman.java:74-236 | `alg` (lines 74-86) followed by `encode` (191-197) and `decode` (208-236): the table counts the string; the code table is the tree's, keyed by exactly the string's characters; the bits are the string's encoding under it; the result is their decoding, and for every non-empty string and every tie-break that decoding is the string; the encoding's length is the sum of count times code-word length |

## Left out

- `createDot` and `dotPrint` (lines 242-302) are left out: they write a DOT graph file, which is file I/O and formatting for visualisation only.
- `printFreq`, `printCode` and the console output of `alg`, `buildTree`, `encode` and `decode` are left out: they are side effects with no bearing on the results.
- `nodeNum` and `nodeCnt` (lines 23, 39, 46) are left out: they are diagnostic identifiers and never affect the algorithm.
- The internal nodes' placeholder character `'#'` (line 130) is left out: the algorithm never reads it, because the decoder emits characters only at leaves or at a leaf root. Only the console output (line 132), left out above, reads it.
- `main` (lines 305-308) is left out: it is an empty stub.
- The specific tie-break of `PriorityQueue` and the iteration order of `HashMap` are left out. They are library behaviour, so the model admits every minimum and every enumeration order.
- Codec.Encode: does not model appending `"null"` for a character that has no code word (line 195), because it requires every character to have one. The table built from the same string always satisfies that requirement.
- Codec.DecodeFrom: does not model bits other than `'0'` and `'1'`, because code words are booleans. The source treats any character other than `'0'` as a step right (lines 220-224).
- Huffman.Alg: does not model the empty string, because it requires a non-empty input. On empty input the source throws `IllegalArgumentException` from `new PriorityQueue<Node>(0, ...)` (line 113).
- Huffman.Run: does not model the empty string either, because it runs `Alg` first.
- Huffman.Alg: requires the input's length to fit in an `int`, because Java strings cannot be longer than that. It is this bound that keeps the comparator's subtraction from overflowing.
- Huffman.Run: carries the same length bound, for the same reason.
- Frequency.Setup: characters are Unicode scalar values (Dafny's `char`), not Java's UTF-16 code units. So a character outside the Basic Multilingual Plane counts as one character here, where `s.charAt(i)` (line 97) sees two surrogates. A lone surrogate cannot be represented at all. Every proof is generic in the character type, so the properties hold as stated for the model's alphabet.
- Huffman optimality (minimum weighted path length) is not stated: the source neither promises nor tests it.
- The mutable fields that hold state between calls (`s`, `d`, `r`, `hm`, `hc`, `root`, `pq`) are left out. `Alg` and `Run` pass the values along explicitly instead.
