# MoarVM: JIT expression-tree optimizer and UTF-16 codec, modelled in Dafny

Two independent parts of MoarVM are modelled here, each in its own module.

**`JitOptimize`** (`optimize.dfy`) models the expression-tree optimizer of the JIT
(`src/jit/optimize.c`).
- The expression tree is a flat array of integers. A node is the index of its opcode
  cell, and the cells after that hold its children's node ids (the "slots").
- For every node, the optimizer keeps the edges `(parent, ptr, next)` that refer to it.
  They form a linked list (a "chain") threaded through the `refs` arena, whose edge 0
  is reserved as the terminator. The optimizer also keeps a per-node `info` entry (the
  chain head and `ref_cnt`) and a `replacements` table.
- The classes `ExprTree` and `Optimizer` hold this state:
  - `Optimizer.ReplaceNode` is `replace_node`;
  - `Optimizer.OptimizeChild` is `optimize_child`;
  - `Optimizer.OptimizePostorder` is `optimize_postorder`;
  - the `Optimizer` constructor is the table setup of `MVM_jit_expr_tree_optimize`.
- Each method is proved to leave the state equal to a function of the old state:
  `Replace`, `ChildStep` or `Fold` on the value type `Tables`.
- Each method also preserves the invariant `Consistent`. For every node that has not
  been replaced, walking its chain from `info[n].refs` visits a list of distinct edges
  (ghost field `chains`). The list's length is `ref_cnt`, and the slot of every edge
  on it holds `n`.
- Lemmas state what each step does to the tree and to the tables.

**`Utf16`** (`utf16.dfy`) models `MVM_string_utf16_decode`,
`MVM_string_utf16_encode_substr` and `MVM_string_utf16_encode` (`src/strings/utf16.c`).
This is UTF-16 as defined by RFC 2781:
- section 2.1 for encoding;
- section 2.2 for decoding;
- section 3.2 for the byte-order mark.

`Decode`, `EncodeSubstr` and `Encode` are methods with the source's loops. They are
proved equal to the pure functions `DecodeBytes` and `EncodeUnits`, and the lemmas
prove the following about those functions:
- the error cases;
- the byte-order mark handling;
- the length bounds;
- the round trips in both directions.

Three points of the optimizer's behaviour are worth stating plainly, because they are
easy to misread:
- **When a shared LOAD is wrapped.** `optimize.c:75` tests `ref_cnt > 1` before the
  current slot is registered, so a LOAD is wrapped at its third reference, not its
  second (`WrapEffect`).
- **The LOAD's `info` entry.** `replace_node` never clears the replaced node's count
  (lines 52-55). It changes the node's chain head only in the case below, which a
  wrapped LOAD (at least two edges) never meets, so the LOAD keeps its count and its
  chain after the wrap (`ReplaceEffect`, `AfterWrap`).
- **A node with no edges.** When the replaced node has no edges and the replacement
  has some, the double pointer still points at the node's own `info[node].refs`, and
  the replacement's head is written there (lines 48-51). `Replace` does the same.

The optimizer model follows `optimize.c` everywhere except in the wrap guard. The guard at
`optimize.c:74-75` does not test whether the LOAD has been replaced already. As written,
it wraps the LOAD a second time at its fourth reference, which leaves the tables
inconsistent (the third row under "## Findings"). `WrapGuard`, used by `WrapStep`,
`ChildStep` and `Optimizer.WrapSharedLoad`, also requires `replacements[child] == 0`.
At that fourth reference the model therefore redirects the slot to the existing COPY.
`WrapGuardAsWritten` and `RewrapAsWritten` model the guard as written.

The codec model follows `utf16.c` except in two places, both listed under "## Findings".
The decoding loop ends at the end of the buffer, not at the end computed at
`utf16.c:44` (`DecodeFrom`). The encoder's buffer holds 2 * length + 2 units, not the
`length * 4 + 2` bytes allocated at `utf16.c:103` (`EncodeSubstr`).

In the codec, `encode_substr` computes a `length == -1` default into a variable it never
uses, so `length == -1` is rejected like any negative length (`EncodeSubstr`).

The round trip through bytes holds except when the first codepoint is U+FEFF or
U+FFFE. Their native-order bytes read as a byte-order mark (`RoundTrip`,
`LeadingMarkDropped`).

## Model

| member | source | states |
|---|---|---|
| JitOptimize.ChainNoDuplicates | src/jit/optimize.c:44-46 | a chain never visits an edge twice, so the walk from a head ends |
| JitOptimize.ChainDetermined | src/jit/optimize.c:44-46 | the edges a walk visits are determined by the head: two chain lists with the same head are equal |
| JitOptimize.SpliceChains | src/jit/optimize.c:48-52 | linking the last edge of chain c to the head of a disjoint chain d gives the chain c + d: no edge dropped or duplicated; when c is empty the head is d's |
| JitOptimize.Initial | src/jit/optimize.c:136-151 | the initial tables satisfy Consistent, with no node replaced and every chain empty |
| JitOptimize.Grow | src/jit/optimize.c:40-42 | a table is grown to hold the index, keeping its entries and filling new ones with the empty value |
| JitOptimize.ReplaceKeepsReplacement | src/jit/optimize.c:44-53 | after replace_node the replacement's chain is node's chain followed by its old one, with count the sum of both counts and every slot on it holding the replacement |
| JitOptimize.ReplaceKeepsOther | src/jit/optimize.c:44-53 | replace_node leaves every other node's chain, count and slots valid |
| JitOptimize.ReplaceKeeps | src/jit/optimize.c:33-57 | replace_node preserves Consistent |
| JitOptimize.ReplaceEffect | src/jit/optimize.c:44-56 | replace_node writes the replacement into exactly the slots of node's chain and no other cell; the replacement's chain is node's edges then its own; counts are added, node's count is kept, replacements[node] is set and the counter goes up by one |
| JitOptimize.AppendKeeps | src/jit/optimize.c:77 | appending a node record keeps the tables consistent |
| JitOptimize.WrapStepKeeps | src/jit/optimize.c:74-79 | the LOAD wrap keeps the tables consistent and only grows the tree; the wrap uses WrapGuard, which also requires replacements[child] == 0 (the fix for optimize.c:74-75 under ## Findings) |
| JitOptimize.WrapStepSlot | src/jit/optimize.c:70-79 | after the wrap the slot holds the original child or that child's replacement |
| JitOptimize.PropagateKeeps | src/jit/optimize.c:82-88 | redirecting the slot to the child's replacement keeps the tables consistent and leaves the slot holding the effective child |
| JitOptimize.RegisterKeeps | src/jit/optimize.c:91-101 | a new edge for a slot holding the child keeps the tables consistent |
| JitOptimize.ChildStepKeeps | src/jit/optimize.c:66-103 | optimize_child preserves Consistent |
| JitOptimize.ChildStepEffect | src/jit/optimize.c:82-101 | the slot is redirected by a single replacements lookup; exactly one edge (node, slot) is allocated, becomes the head of the effective child's chain, and that child's count rises by one; the counter rises by one only when redirected |
| JitOptimize.WrapEffect | src/jit/optimize.c:74-86 | a LOAD already referenced twice and not yet replaced (the replacements[child] == 0 test is the fix for optimize.c:74-75 under ## Findings) gets a fresh COPY appended; the LOAD is replaced by it, every earlier slot of the LOAD and the current slot refer to the COPY, and the COPY's chain is the new edge then the LOAD's edges |
| JitOptimize.FoldEffect | src/jit/optimize.c:108-133 | optimize_postorder keeps Consistent; IDX(base, CONST k, scale) gets a new ADDR(base, k * scale) that every slot of the IDX now refers to; any other node leaves tree and tables unchanged |
| JitOptimize.StaleChainBreaks | src/jit/optimize.c:44-46 | replacing a node again while a live node still lists one of its old edges makes the tables inconsistent |
| JitOptimize.AfterWrap | src/jit/optimize.c:74-101 | after the wrap the LOAD is still a LOAD with its old count and chain, and the COPY's chain is the new edge then the LOAD's chain |
| JitOptimize.RewrapAsWritten | src/jit/optimize.c:74-79 | with the guard as written, the reference after a wrap passes the guard again, and wrapping again breaks the tables |
| JitOptimize.Splice | src/jit/optimize.c:48-52 | the arena after the last edge of a chain is linked to a head; what the link achieves is stated by SpliceChains |
| JitOptimize.Replace | src/jit/optimize.c:33-57 | replace_node on the tables; what it does is stated by ReplaceEffect and ReplaceKeeps |
| JitOptimize.WrapGuard | src/jit/optimize.c:74-75 | the corrected guard: a LOAD with ref_cnt > 1 that has not been replaced yet (a definition); RewrapAsWritten states that it does not fire again after a wrap while the guard as written does |
| JitOptimize.WrapGuardAsWritten | src/jit/optimize.c:74-75 | the guard as written: a LOAD with ref_cnt > 1; RewrapAsWritten shows it fires again after a wrap |
| JitOptimize.WrapLoad | src/jit/optimize.c:77-78 | COPY(child) appended and replace_node(child, copy); stated by WrapEffect |
| JitOptimize.WrapStep | src/jit/optimize.c:74-79 | the wrap when WrapGuard holds, no change otherwise; stated by WrapStepKeeps, WrapStepSlot and WrapEffect |
| JitOptimize.Propagate | src/jit/optimize.c:82-88 | the single replacements lookup; stated by PropagateKeeps and ChildStepEffect |
| JitOptimize.Register | src/jit/optimize.c:91-101 | the new edge at the head of the child's chain; stated by RegisterKeeps and ChildStepEffect |
| JitOptimize.ChildStep | src/jit/optimize.c:66-103 | optimize_child on the tables, with the corrected wrap guard; stated by ChildStepKeeps and ChildStepEffect |
| JitOptimize.Fold | src/jit/optimize.c:108-133 | optimize_postorder on the tables; stated by FoldEffect |
| JitOptimize.ExprTree.AppendNode | src/jit/optimize.c:77 | a node record is appended at the end of the tree and its index returned |
| JitOptimize.Optimizer.constructor | src/jit/optimize.c:136-151 | the optimizer starts from Initial(tree.nodes) and is Valid |
| JitOptimize.Optimizer.ReplaceNode | src/jit/optimize.c:33-57 | the new state is Replace(old state) and Valid is kept |
| JitOptimize.Optimizer.RedirectSlots | src/jit/optimize.c:44-46 | the double-pointer walk sets every slot on node's chain to the replacement and stops at the chain's last edge (0 for an empty chain) |
| JitOptimize.Optimizer.TakeOver | src/jit/optimize.c:48-56 | the splice through the walk's final pointer, the takeover of chain and count, and the replacements entry and counter |
| JitOptimize.Optimizer.OptimizeChild | src/jit/optimize.c:66-103 | the slot is node+2+child when nchild < 0 and node+1+child otherwise; the new state is ChildStep(old state) and Valid is kept; ChildStep's wrap guard also requires replacements[child] == 0, the fix for optimize.c:74-75 under ## Findings |
| JitOptimize.Optimizer.WrapSharedLoad | src/jit/optimize.c:74-79 | the new state is WrapStep(old state): COPY(child) is appended and replaces the child when it is a LOAD with ref_cnt > 1 that has not been replaced yet (the last test is the fix for optimize.c:74-75 under ## Findings) |
| JitOptimize.Optimizer.AddReference | src/jit/optimize.c:91-101 | the new state registers one edge (node, slot) at the head of the child's chain |
| JitOptimize.Optimizer.OptimizePostorder | src/jit/optimize.c:108-133 | the new state is Fold(old state) and Valid is kept |
| Utf16.CombineSurrogates | src/strings/utf16.c:72 | a high/low pair yields a codepoint in 0x10000..0x10FFFF that is a scalar value |
| Utf16.UnitAt | src/strings/utf16.c:51 | two bytes make a 16-bit unit |
| Utf16.Units | src/strings/utf16.c:49-51 | an even buffer has half as many units as bytes |
| Utf16.UnitsOfUnitsToBytes | src/strings/utf16.c:51 | reading the bytes of stored units in the same order gives the units back |
| Utf16.UnitRead | src/strings/utf16.c:51 | the unit the loop reads at pos with indices low/high is unit k of the bytes after the mark |
| Utf16.Sniff | src/strings/utf16.c:31-42 | zero or two bytes are skipped |
| Utf16.DecodeLittleEndianMark | src/strings/utf16.c:31-36 | a leading FF FE selects little-endian and is not decoded |
| Utf16.DecodeBigEndianMark | src/strings/utf16.c:37-41 | a leading FE FF selects big-endian and is not decoded |
| Utf16.DecodedValues | src/strings/utf16.c:49-75 | on success one codepoint per unit except one per surrogate pair, and every codepoint is a scalar value |
| Utf16.DecodedLengthBound | src/strings/utf16.c:47 | at most bytes/2 codepoints are decoded |
| Utf16.DecodeUnitsAt | src/strings/utf16.c:51-75 | one loop step on the units from k: error, pair or single unit |
| Utf16.LowSurrogateStep | src/strings/utf16.c:54-56 | a low surrogate without a high one fails |
| Utf16.UnpairedHighSurrogateStep | src/strings/utf16.c:60-70 | a high surrogate at the end, or before a unit that is not a low surrogate, fails |
| Utf16.SurrogatePairStep | src/strings/utf16.c:58-72 | a high/low pair decodes to CombineSurrogates and decoding continues two units on |
| Utf16.SingleUnitStep | src/strings/utf16.c:51-75 | any other unit decodes to itself |
| Utf16.DecodeWithoutMark | src/strings/utf16.c:17-42 | without a leading FF FE or FE FF nothing is skipped and the native order is used |
| Utf16.DecodeUnits | src/strings/utf16.c:49-76 | the decoding loop on code units; stated by DecodeUnitsAt, the step lemmas, DecodedValues and the round-trip lemmas |
| Utf16.DecodeBytes | src/strings/utf16.c:11-83 | decoding of a byte buffer; stated by DecodeWithoutMark, the two mark lemmas, DecodedLengthBound and RoundTrip |
| Utf16.Decode | src/strings/utf16.c:11-83 | the result is DecodeBytes: odd count fails, a mark picks the order, the rest decodes |
| Utf16.DecodeFrom | src/strings/utf16.c:44-76 | the loop from the position after the mark to the end of the buffer yields the decoding of those units |
| Utf16.ReadCodepoint | src/strings/utf16.c:51-73 | one iteration: the error, or the codepoint and the units consumed, agreeing with the decoding of the units from k |
| Utf16.EncodeCodepoint | src/strings/utf16.c:108-117 | one 16-bit unit below 0x10000, otherwise two |
| Utf16.EncodeUnits | src/strings/utf16.c:105-118 | between one and two units per codepoint |
| Utf16.EncodeUnitsAreUnits | src/strings/utf16.c:108-117 | every unit written is a 16-bit value |
| Utf16.EncodeUnitsAppend | src/strings/utf16.c:105-118 | the encoding of s + [v] is that of s followed by that of v |
| Utf16.SplitArithmetic | src/strings/utf16.c:113-115 | for v in 0x10000..0x10FFFF the two units are a high and a low surrogate that recombine to v |
| Utf16.EncodeCodepointUnits | src/strings/utf16.c:108-117 | a scalar value below 0x10000 is one unit equal to itself, any other one a surrogate pair that combines to it |
| Utf16.CombineSurrogatesInverse | src/strings/utf16.c:72 | encoding a combined pair gives the pair back |
| Utf16.DecodeEncodedCodepoint | src/strings/utf16.c:51-75 | decoding the units of a scalar value then the rest gives the value then the rest |
| Utf16.DecodeEncodeUnits | src/strings/utf16.c:105-118 | decoding the encoder's units of scalar values gives them back |
| Utf16.EncodeDecodeUnits | src/strings/utf16.c:49-76 | encoding what the decoder produced gives the units back |
| Utf16.RoundTrip | src/strings/utf16.c:31-75 | the native-order bytes of an encoding decode to the original scalar values when the first is not U+FEFF or U+FFFE |
| Utf16.MarkConsumed | src/strings/utf16.c:31-42 | a mark in the stream's own byte order is consumed whatever the native order |
| Utf16.LeadingMarkDropped | src/strings/utf16.c:31-42 | a leading U+FEFF does not survive the round trip: the rest is decoded |
| Utf16.WriteCodepoint | src/strings/utf16.c:108-117 | the units of one codepoint are stored at pos and pos advances by their number |
| Utf16.EncodeSubstr | src/strings/utf16.c:88-123 | start outside 0..graphs and length < 0 or past the end are the two errors, checked in that order; otherwise the buffer is the units of the substring then two zero units, and the size is twice the number of units before them |
| Utf16.Encode | src/strings/utf16.c:126-128 | the whole string is encoded followed by two zero units |
| Utf16.AllocatedUnits | src/strings/utf16.c:103 | the corrected allocation, 2 * length + 2 units (length * 4 + 4 bytes): the units of every string of that length plus the two zero units of line 119 fit |
| Utf16.AllocatedBytesAsWritten | src/strings/utf16.c:103 | the allocation as written, length * 4 + 2 bytes (a definition); AllocationAsWrittenOverrun states that the encoder can write two bytes more |
| Utf16.DecodeEndAsWritten | src/strings/utf16.c:31-44 | the end as written is the buffer's length, or two bytes past it when a mark was skipped |
| Utf16.EncodingFitsAllocation | src/strings/utf16.c:103 | the units written, terminator included, fit in 2 * length + 2 units |
| Utf16.AllocationAsWrittenOverrun | src/strings/utf16.c:103 | when every codepoint needs a pair, the bytes written exceed length * 4 + 2 by two |
| Utf16.DecodeEndAsWrittenOverrun | src/strings/utf16.c:35-44 | with a mark, the end as written lies two bytes past the buffer |

## Left out

- The traversal driver `MVM_jit_expr_tree_traverse`, its ONCE policy and the empty preorder hook. The optimizer's three operations are methods with preconditions instead. The driver is not part of this model.
- `MVM_jit_expr_op_info` and the `op_info` recompute at the end of `replace_node` (lines 62-63). The model takes `nchild` as a parameter of `OptimizeChild`.
- `MVM_jit_expr_apply_template_adhoc`. It is modelled as appending a node record and returning its index (`ExprTree.AppendNode`); template parsing is not modelled.
- `MVM_VECTOR_*` allocation and the ensure-size of `traverser->visits`. The tables are sequences grown to exactly the needed index. Fresh entries are taken to be zero, the empty value, because the vector header is not part of this model.
- The opcode numbers of LOAD, COPY, IDX, CONST and ADDR. They come from a header that is not part of this model, so they are arbitrary distinct constants here.
- 64-bit integers in the codec: `start` and `length` of `encode_substr` are `MVMint64`, and the overflow of `start + length` (line 99) and `length * 4 + 2` (line 103) for a huge `length` is not modelled. The model's unbounded `start + length > |s|` rejects every such length. Only the 16-bit unit stores are modelled, by the reduction modulo 0x10000 in `EncodeCodepoint`.
- 32-bit integers in the optimizer. Node values and `imm * scale` (line 121) are unbounded integers, so 32-bit wrap-around is not modelled.
- The `_DEBUG` logging and the `MVM_JIT_DEBUG` switch.
- `MVMString` and REPR allocation, `result_type`, the string flags, and `malloc`. Results are sequences.
- `MVM_exception_throw_adhoc`. It is modelled as `Err` values.
- The storage behind `MVM_string_get_codepoint_at_nocheck`. The string is a sequence of codepoints.
- The compile-time `MVM_BIGENDIAN`. It is the `native` parameter.
- The optional `output_size` pointer of `encode_substr`. The size is always returned.
- `lengthu` and `startu` in `encode_substr`. They are computed but never used.
- Utf16.Sniff: its own contract states only that 0 or 2 bytes are skipped. Which order is chosen and what is skipped are stated by DecodeLittleEndianMark, DecodeBigEndianMark and DecodeWithoutMark.

## Findings

| source | as written | input that shows it | evidently intended | confidence | as-written member | corrected member |
|---|---|---|---|---|---|---|
| src/strings/utf16.c:44 | the end pointer is computed after the byte-order mark has been skipped, so the loop runs two bytes past the buffer | bytes FF FE 41 00: after the mark, unit 0x0041 is decoded, and then a second unit is read from the two bytes after the buffer | the loop ends at the end of the buffer | high; not executed | Utf16.DecodeEndAsWritten (Utf16.DecodeEndAsWrittenOverrun) | Utf16.DecodeFrom |
| src/strings/utf16.c:103 | `length * 4 + 2` bytes are allocated, but up to `length * 4 + 4` are written: two units per codepoint, then the two zero units of line 119 | the empty string (2 bytes allocated, 4 written), or the single codepoint U+10000 (6 allocated, 8 written) | one of two readings: `length * 4 + 4` bytes, so that both zero units of line 119 fit; or, as the comment at lines 85-87 ("2 null bytes on the end") suggests, the allocation is right and line 119 should write only one zero unit. The model keeps line 119 as written (`EncodeSubstr`, `Encode`) and corrects the allocation | certain that lines 103 and 119 disagree; uncertain which of the two was meant; not executed | Utf16.AllocatedBytesAsWritten (Utf16.AllocationAsWrittenOverrun) | Utf16.AllocatedUnits (Utf16.EncodingFitsAllocation, Utf16.EncodeSubstr) |
| src/jit/optimize.c:74-75 | the LOAD wrap guard tests only the opcode and `ref_cnt`. A wrapped LOAD is still a LOAD with `ref_cnt > 1`, so it is wrapped again | a LOAD referenced from four slots (in the lemma its node id also differs from the LOAD opcode value, standing in for the fact that no slot is a node's own opcode cell). At the third reference it is wrapped in COPY c1. At the fourth it is wrapped again in COPY c2, which moves the first two slots to c2 while c1's chain still lists them | a LOAD is wrapped once, and later references are redirected to its COPY (the guard also requires `replacements[child] == 0`) | medium; not executed | JitOptimize.WrapGuardAsWritten (JitOptimize.RewrapAsWritten) | JitOptimize.WrapGuard (JitOptimize.ChildStep, JitOptimize.Optimizer.WrapSharedLoad) |
