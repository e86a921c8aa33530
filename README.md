# A 64-way radix tree, modelled in Dafny

The repository is a small C++ radix tree (a digit trie) that maps 64-bit
integer keys to opaque `void *` payloads. A key is consumed six bits per
level, most significant digit first. Each internal node has 64 child slots.
A leaf stores what is left of the key below its level (`rest`) and the
payload. `radix_tree_insert_internel` descends recursively and changes the
tree in place:

- if it lands on a leaf, it splits the leaf: a fresh internal node takes the
  leaf's place in the parent's slot, and the leaf is re-hung below it;
- it puts a new leaf in the first empty slot on the key's path;
- it fails with -1 when the slot is already taken at height 0.

`radix_tree_find_internel` is a read-only descent that compares the residual
key with the stored `rest` at a leaf.

The model keeps every node in an arena, a sequence of node records. A C
pointer becomes an index into the arena, the null pointer becomes
`Nodes.Null` (-1), and `malloc` + `memset` becomes appending a zeroed record.
The modules are:

- `Digits`: the header constants and the digit arithmetic.
- `Nodes`: the node layout.
- `Insert`: the insert as functions from arena to arena, one per step of
  the source.
- `Lookup`: the lookup as a function.
- `Shape`: the well-formedness invariant of a subtree, the records a subtree
  reaches, and frame lemmas.
- `Correctness`: the map behaviour of the corrected insert and lookup.
- `RadixTree`: `struct radix_tree` as a class. Its methods perform the
  insert's writes one by one on an arena field, and each is proved to leave
  the state the `Insert` functions describe. It also holds the reference
  scenario of `radix_tree_test`.
- `Findings`: concrete inputs on which the code as written goes wrong.

The code as written does not do what its test expects (see "## Findings").
Every operation therefore takes a `Variant`:

- `AsWritten` follows the source line by line, except the shift of line 43
  from height 2 on, which is undefined there (see "## Left out").
- `Corrected` repairs the defective lines, and each repair is named in a
  comment at the line it changes.

The round trip is proved for `Corrected`. For `AsWritten`, the model shows
inputs on which it fails.

A map is expected to stay unchanged when it is asked to insert a key it
already holds. The code does not behave that way:
if the descent meets the key's leaf above height 0, it splits that leaf first
and only then reports -1. The model follows the code.
`Correctness.InsertLookup` proves that after such a failed insert every
lookup returns what it returned before, but the arena does grow.

## Model

| member | source | states |
|---|---|---|
| Digits.Wrap64 | radix_tree.cpp:31 | an unsigned 64-bit subtraction stores a value below 2^64, congruent to the exact difference modulo 2^64, and equal to it when the difference is in range |
| Digits.Residual | radix_tree.cpp:53-55 | the key handed to the next level, `entry - ((entry >> 6h) << 6h)`, is exactly `entry mod 2^(6h)`: it is below 2^(6h) and no larger than the key |
| Digits.Digit | radix_tree.cpp:35 | the digit `entry >> 6h` is the key's quotient by the digit weight: `d << 6h <= entry < (d << 6h) + 2^(6h)` |
| Digits.DigitBound | radix_tree.cpp:35-36 | a key below 2^(6(h+1)) has its digit at height h below 64, so the assert at line 36 holds, and its residual is below 2^(6h), which re-establishes the bound for the recursive call |
| Digits.DigitResidualDetermine | radix_tree.cpp:66-69 | two keys are equal exactly when their digits at height h and their residuals below it are equal |
| Digits.MaskKeepsLowDigit | radix_tree.h:6-8 | SIZE is 1 << SHIFT (64) and MASK is SIZE - 1 (63); on 64 bits, MASK and SIZE are 63 and 64, a 64-bit value masked with MASK stays below SIZE, and masking with 63 keeps its value modulo 64 |
| Nodes.Zeroed | radix_tree.cpp:20-22 | a record fresh from malloc and memset is internal, has a null parent, a null payload, rest 0, and 64 null slots |
| Insert.Split | radix_tree.cpp:19-33 | the split's writes, as a function: the arena stays closed (every slot and parent is null or a record of it) and grows by exactly the one fresh node; its full effect on each record is stated by Insert.SplitEffect |
| RadixTree.Tree.SplitLeaf | radix_tree.cpp:19-33 | the in-place split leaves exactly the arena of Insert.Split, returns the index of the fresh node, and changes neither the height nor the root |
| Insert.SplitEffect | radix_tree.cpp:19-33 | after a split, the parent's slot holds a fresh internal node whose parent is the leaf's old parent; the leaf sits at the slot of its own digit and every other slot of the new node is null; the leaf keeps its tag and payload; its rest is taken from the new key as written (line 31) or is its own residual when corrected; its parent is unchanged as written (lines 24-29) or is the new node when corrected; no other record changes |
| Insert.SplitIfLeaf | radix_tree.cpp:18-36 | whether or not a split happened, the descent continues from an internal node, at most one record was added, and the child the recursion of line 53 enters is bounded one level down |
| Insert.PlaceLeaf | radix_tree.cpp:38-45 | hanging a fresh leaf keeps the arena closed and grows it by exactly that leaf; its full effect (the leaf's fields, the one slot rewritten, nothing else changed) is stated by Insert.InsertEmptySlot |
| Insert.InsertEmptySlot | radix_tree.cpp:37-46 | on an empty slot exactly one record is appended: a leaf whose parent is the node, with the payload and the rest of line 43 (the key's residual, except as written at height 1); the node differs only in that slot, which now points at the leaf; the call returns 0 and no other record changes |
| Insert.InsertOccupiedAtZero | radix_tree.cpp:49-52 | an occupied slot at height 0 returns -1 and leaves the arena as it was |
| Insert.InsertRec | radix_tree.cpp:16-56 | for heights of at most 10, and on any arena whose leaves along the key's own path fit their levels (Insert.PathBounded), the insert returns 0 or -1; on 0 the arena has grown; it adds at most height + 2 records, one split per level and one leaf |
| Lookup.Find | radix_tree.cpp:64-86 | a payload found is the payload of some leaf; an empty slot on the path gives null; as written, an occupied slot at height 0 gives null |
| Lookup.FindAtLeaf | radix_tree.cpp:68-73 | at a leaf the lookup returns the payload exactly when the residual equals the stored rest: as written, after one more digit is stripped; corrected, the residual handed down |
| Correctness.SplitCorrect | radix_tree.cpp:19-33 | the corrected split keeps the subtree well formed: the new node owns only the leaf and the new node itself, only the parent's slot changes, and every key finds what it found before |
| Correctness.PlaceCorrect | radix_tree.cpp:37-46 | placing a leaf in an empty slot keeps the subtree well formed, touches no record outside it, and makes exactly the new key find the payload |
| Correctness.OccupiedCorrect | radix_tree.cpp:49-52 | an occupied slot at height 0 means the key is already found, and nothing changes |
| Correctness.DescendCorrect | radix_tree.cpp:53-55 | what the recursive call establishes for the child's subtree carries over to the node: well formed, framed, and changing the lookup of the new key alone |
| Correctness.InsertCorrect | radix_tree.cpp:16-56 | the corrected insert at any node of a well-formed subtree keeps it well formed, touches only the subtree's records, fresh records and the parent slot a split rewrites, fails exactly when the key was found, and changes only the new key's lookup, to the payload |
| Correctness.InsertInternalCorrect | radix_tree.cpp:35-56 | the same promise as InsertCorrect, from an internal node |
| Correctness.EmptyTree | radix_tree.cpp:179-183 | the test's fresh tree, a lone internal root with null slots, is well formed and finds no key |
| Correctness.InsertLookup | radix_tree.cpp:58-62 | at the root of a well-formed tree, the corrected insert keeps the tree well formed, succeeds exactly when the key was absent, afterwards finds the payload under that key, and leaves every other lookup unchanged; a failed insert leaves every lookup unchanged |
| Correctness.InsertOrderIrrelevant | radix_tree.cpp:58-62 | inserting two absent keys in either order gives the same lookup for every key |
| RadixTree.Tree.constructor | radix_tree.cpp:179-183 | the test's tree: the given height, a single internal root with null slots, well formed and finding nothing |
| RadixTree.Tree.InsertInternal | radix_tree.cpp:16-56 | the in-place insert leaves exactly the arena and status of Insert.InsertRec and does not change the height or the root |
| RadixTree.Tree.Insert | radix_tree.cpp:58-62 | the insert from the root with parent index -1 leaves the arena and status of Insert.InsertRec; corrected, on a well-formed tree, it keeps the tree well formed, succeeds exactly when the key was absent, and changes only that key's lookup, to the payload |
| RadixTree.Tree.Get | radix_tree.cpp:91-95 | the lookup from the root with the tree's height; whatever it returns is the payload of some leaf |
| RadixTree.ReferenceScenario | radix_tree.cpp:178-191 | corrected, inserting keys 0 to 99 with payload i + 1 into a height-2 tree and then looking each one up returns i + 1 for every key |
| Insert.LeafRestAsWritten | radix_tree.cpp:43 | the new leaf's rest as written, `entry - (index << (height * MASK))` on 64 bits, defined only for heights 0 and 1; it is below 2^64; at height 0 it equals the residual; at height 1 it is the key itself when the key's digit is even and the key plus 2^63 when it is odd, since the 63-bit shift keeps only the digit's lowest bit |
| Digits.ShiftBy63 | radix_tree.cpp:43 | a value shifted left by 63 bits and truncated to 64 bits is 2^63 times its lowest bit |
| Insert.LeafRest | radix_tree.cpp:43 | the rest the insert stores in a new leaf: the key's residual `entry mod 2^(6h)` when corrected, and as written at every height but 1, where it is the 63-bit-shift value |
| Findings.LeafRestShiftByMask | radix_tree.cpp:43 | at height 1, key 64 gets rest 2^63 + 64 as written instead of its residual 0 |
| Findings.FirstInsert | radix_tree.cpp:37-46 | a first insert into the empty height-2 tree puts a leaf with the key in the root's slot 0, and the key is found; line 43 shifts the digit 0 by 126 bits there, which is undefined, and the as-written reading takes it to store the residual |
| Findings.SplitRestFromNewKey | radix_tree.cpp:31 | as written, inserting 0 and then 64 into an empty height-2 tree succeeds but leaves neither key found: key 0's leaf took rest 64 (line 31) and key 64's leaf rest 2^63 + 64 (line 43); the first insert goes through the undefined 126-bit shift of line 43, read as storing the residual |
| Findings.SplitRestHeightOne | radix_tree.cpp:31 | as written, with no undefined shift on the way: inserting 0 and then 1 into an empty height-1 tree succeeds twice, the split at height 0 gives key 0's leaf the new key's residual 1 instead of its own 0, and even the corrected lookup then misses key 0 while it finds key 1 |
| Findings.OtherPathAfterShiftByMask | radix_tree.cpp:35-46 | as written, key 64 leaves a leaf of rest 2^63 + 64 in slot 1 of a height-1 root (line 43), and a later insert of key 0, whose path avoids that leaf, still succeeds and hangs key 0's leaf with rest 0 in slot 0 |
| Findings.FindStripsExtraDigit | radix_tree.cpp:69 | with key 5 alone in a height-1 tree, whose leaf holds rest 5, the as-written lookup misses it and the corrected one finds it |
| Findings.FindGivesUpAtHeightZero | radix_tree.cpp:79-81 | with key 5 alone in a height-0 tree, the as-written lookup misses it and the corrected one finds it |
| Findings.SecondInsertSplits | radix_tree.cpp:19-46 | as written, inserting 64 after 0 splits key 0's leaf at height 1: the new node 2 holds the leaf, now with rest 64, in slot 0 and the new key's leaf with rest 2^63 + 64 (line 43) in slot 1 |
| Findings.TestSecondSplit | radix_tree.cpp:19-33 | as written, a split whose leaf still names the root as parent writes the fresh node into the root's slot 0 and finds the key's slot occupied, returning -1 |
| Findings.TestAsWrittenFails | radix_tree.cpp:24-29 | as written, the test's first two inserts leave the root's slot 0 pointing at the second split's node while node 2 still holds the leaf; the second insert fails and neither key is found |

## Left out

- `radix_tree_delete`, the iterative lookup and the delete drafts (radix_tree.cpp:96-175) have no live definition; they are commented out, and `radix_tree_delete` is only declared.
- The tag bitmap (`RADIX_TREE_TAG_LONGS` and the commented tag API and node layout in radix_tree.h) is unimplemented intent.
- `radix_tree_init` and `radix_tree_node_alloc` are declared without a body.
- Allocation failure and `free` are not modelled: `malloc` always succeeds (a record is appended), and no record is ever released, so orphaned nodes stay in the arena.
- The `printf` output of `radix_tree_test` is left out; `RadixTree.ReferenceScenario` returns the lookups instead.
- Payloads are a generic value type `E`. A null `void *` payload is not modelled: a leaf always holds `Some(item)`, and `None` stands only for "not found".
- Undefined behaviour is excluded by preconditions rather than simulated. These cover keys of 2^64 or more for the insert (`Insert.InsertRec`, `RadixTree.Tree.InsertInternal` and `RadixTree.Tree.Insert` require `entry < WORD`), a digit of 64 or more (the asserts at lines 36 and 67), a split at the root (parent index -1 at line 61, so the root must be internal), a split whose leaf's digit is out of range (line 28-29), and a height above 10 (shifts of 64 bits or more: `Insert.InsertRec`, `Lookup.Find`, `RadixTree.Tree.Insert` and `RadixTree.Tree.Get` require a height of at most 10).
- Insert.InsertRec: as written, line 43 shifts by `height * MASK`. The model does so at heights 0 and 1 (Insert.LeafRest). From height 2 on the shift is 126 bits or more, which is undefined, and the as-written reading stores the residual that `height * SHIFT` gives instead. The first insert of `radix_tree_test`, at height 2, goes through that undefined shift of the digit 0.
- Insert.InsertRec: as written, a split can store a rest that no longer fits its level (line 31), and line 43 at height 1 can store one of 2^63 or more. The insert is modelled on every tree whose leaves on the new key's own path fit their levels (`Insert.PathBounded`); leaves elsewhere may hold any rest, as `Findings.OtherPathAfterShiftByMask` shows. A descent that splits a path leaf whose rest is out of range would index past the 64 slots at line 28-29, which is undefined, so that case alone is excluded by the precondition.
- RadixTree.Tree.Insert: the promises about well-formedness and lookups are stated for the corrected reading only; for the as-written reading the method states its effect through Insert.InsertRec, and the failures are shown in module Findings.
- `Lookup.Find` and `RadixTree.Tree.Get` require only the digit bound `entry < 2^(6(height + 1))`, not `entry < 2^64`. At height 10 they therefore also accept keys from 2^64 to 2^66 - 1, which a `uint64_t` cannot hold; on every key below 2^64 they behave as the source does.
- A leaf's `rest` is an unbounded `nat`, and the split's precondition asks only that it fit its level, so at height 10 a split also accepts rests of 2^64 or more, which a `uint64_t` field cannot hold.
- The shift of `Digits.Shl` is not truncated to 64 bits. In the insert it shifts a digit of a key below 2^64 back into place, so it stays at or below that key and never exceeds 2^64 - 1. In the lookup at height 10, and in a split at height 10 of a rest of 2^64 or more, it can exceed 2^64 - 1; both cases lie outside the `uint64_t` range described in the two lines above.
- Concurrency is absent from the source and from the model.

## Findings

| source | as written | input that shows it | evidently intended | confidence | as-written member | corrected member |
|---|---|---|---|---|---|---|
| radix_tree.cpp:43 | the new leaf's rest is `entry - (index << (height * RADIX_TREE_MAP_MASK))` | key 64 at height 1: rest 2^63 + 64; from height 2 the shift is 126 bits or more, which is undefined | shift by `height * RADIX_TREE_MAP_SHIFT`, storing the residual `entry mod 2^(6h)` (`Insert.LeafRest`, corrected) | high (not executed) | Findings.LeafRestShiftByMask | Correctness.PlaceCorrect |
| radix_tree.cpp:31 | the re-hung leaf's rest is computed from the new key `entry` | insert 0, then 1, into an empty height-1 tree: key 0's leaf gets rest 1 and is no longer found; likewise insert 0, then 64, at height 2 | the leaf's own residual, `node->rest - (index << (height * SHIFT))` | high (not executed) | Findings.SplitRestHeightOne | Correctness.SplitCorrect |
| radix_tree.cpp:24-29 | the re-hung leaf's parent still points at the old parent | insert 0, then 1, into an empty height-2 tree: the second split writes into the root's slot 0, and node 2 becomes unreachable | `node->parent = new_node` after line 29 | high (not executed) | Findings.TestAsWrittenFails | Correctness.SplitCorrect |
| radix_tree.cpp:69 | at a leaf, the lookup strips one more digit than the insert stripped when it stored `rest` | key 5 alone in a height-1 tree (leaf rest 5) is not found | compare the residual handed down with `rest` | high (not executed) | Findings.FindStripsExtraDigit | Correctness.InsertLookup |
| radix_tree.cpp:79-81 | at height 0 the lookup returns null even when the slot holds the key's leaf | key 5 alone in a height-0 tree is not found | return the leaf's payload when its rest matches | high (not executed) | Findings.FindGivesUpAtHeightZero | Correctness.InsertLookup |
| radix_tree.cpp:184-191 | `radix_tree_test` runs the as-written insert and lookup | its first two keys, with the undefined 126-bit shift of line 43 at the first insert taken to give the residual: the second insert returns -1 and neither key 0 nor key 1 is found | every key 0 to 99 is found with payload i + 1 | high (not executed) | Findings.TestAsWrittenFails | RadixTree.ReferenceScenario |
