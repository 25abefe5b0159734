# HSS partition trees and the discrete skeleton of HSS compression

This project models two parts of STRUMPACK's HSS (hierarchically semi-separable) code in Dafny and proves properties of the model.

**The partition tree** (`src/HSS/HSSPartitionTree.hpp`). This is a binary tree of integer sizes in which every node has no children or two. The model covers:

- recursive halving (`refine`);
- the counts `nodes`, `levels` and `min_levels`, and `is_complete`;
- the left-to-right leaf listing;
- the two rebalancings (`truncate_complete`, `expand_complete`);
- the three-column integer wire format (`serialize` and the buffer constructors);
- the serializer for a map of trees.

The tree is stated twice:

- as a value, `PartitionTreeModel.Tree`, where all the lemmas live;
- as the source's mutable class, `HSSPartitionTree.PartitionTree`. Each method is proved equal to the value-level function it implements.

**The compression engine** (`src/HSS/HSSMatrix.compress.hpp`), with the floating-point numerics abstracted away. What remains:

- the per-node state machine: untouched, then partially compressed or compressed;
- the rule that both children must be compressed before their parent is touched;
- the convergence test of `compute_U_V_bases`;
- the mapping of ID pivots `Jr`/`Jc` to the global skeleton lists `Ir`/`Ic`, through the boundary between the two children;
- the index lists and blocks requested for element extraction;
- the sample-width schedule of the two drivers.

How the engine is represented:

- Matrices are shapes plus the global row and column indices their entries come from.
- The interpolative decomposition is an oracle: it answers a list of pivots, and the rank is the length of that list.
- `CompressModel` states every routine on values.
- `CompressLemmas` proves the invariants the routines keep.
- `HSSCompress.HSSNode` is the HSS node as a class. Its state fields are updated in place, and each method is proved equal to its value-level counterpart.

Where the design description and the code differ, the model follows the code:

- `refine` splits only when `size > 2*leaf_size` (HSSPartitionTree.hpp:62).
- A padded leaf in `expand_complete` gets children of sizes `size - 2^(lvls-lvl-1)` and `2^(lvls-lvl-1)` (HSSPartitionTree.hpp:128-130).
- In `compute_U_V_bases` a leaf's column-basis sample has `rows()` rows (HSSMatrix.compress.hpp:470-471), and the model keeps that.

## Model

| member | source | states |
|---|---|---|
| PartitionTreeModel.NodesOf | src/HSS/HSSPartitionTree.hpp:74-79 | a tree has at least one node |
| PartitionTreeModel.LeafCounts | src/HSS/HSSPartitionTree.hpp:74-79 | nodes() = 2·(number of leaves) − 1, and leaf_sizes has one entry per leaf |
| PartitionTreeModel.LevelsOf | src/HSS/HSSPartitionTree.hpp:80-85 | levels(): 1 for a leaf, else one more than the deeper child; at least 1 |
| PartitionTreeModel.MinLevelsOf | src/HSS/HSSPartitionTree.hpp:108-113 | min_levels(): start from levels() and lower it to 1 + each child's min_levels(); the result lies in [1, levels()] |
| PartitionTreeModel.IsCompleteOf | src/HSS/HSSPartitionTree.hpp:98-101 | is_complete() as written; when it holds, both children of an internal root have levels() − 1 levels |
| PartitionTreeModel.LeafSizesOf | src/HSS/HSSPartitionTree.hpp:139-144 | leaf_sizes_rec: the children's leaf sizes left to right, or the node's own size at a leaf; LeafCounts and LeafSizesSum state its length and sum |
| PartitionTreeModel.LevelsIsDeepestLeaf | src/HSS/HSSPartitionTree.hpp:80-85 | levels() − 1 is the depth of the deepest leaf: no leaf is deeper and one leaf is at that depth |
| PartitionTreeModel.MinLevelsShape | src/HSS/HSSPartitionTree.hpp:108-113 | 1 ≤ min_levels() ≤ levels(), and for an internal node min_levels() = 1 + the smaller of the children's |
| PartitionTreeModel.MinLevelsIsShallowestLeaf | src/HSS/HSSPartitionTree.hpp:108-113 | min_levels() − 1 is the depth of the shallowest leaf: no leaf is shallower and one leaf is at that depth |
| PartitionTreeModel.BalancedIffMinLevelsIsLevels | src/HSS/HSSPartitionTree.hpp:108-113 | all leaves lie at one depth if and only if min_levels() == levels() |
| PartitionTreeModel.IsCompleteAcceptsUnbalanced | src/HSS/HSSPartitionTree.hpp:98-101 | is_complete() as written accepts a six-leaf tree whose leaves lie at depths 4, 4, 3, 3, 4, 4 |
| PartitionTreeModel.BalancedIsComplete | src/HSS/HSSPartitionTree.hpp:98-101 | every tree with all leaves at one depth passes is_complete() |
| PartitionTreeModel.LeafSizesSum | src/HSS/HSSPartitionTree.hpp:139-144 | when children's sizes add up to the parent's, the leaf sizes sum to the root size |
| PartitionTreeModel.Refined | src/HSS/HSSPartitionTree.hpp:60-69 | the tree refine builds below a childless node: it keeps the node's size and splits exactly when size > 2·leaf_size |
| PartitionTreeModel.RefinedShape | src/HSS/HSSPartitionTree.hpp:60-69 | refine keeps the root size; children sum to their parent; every leaf is ≤ 2·leaf_size; after a split every leaf is ≥ leaf_size |
| PartitionTreeModel.TruncateFrom | src/HSS/HSSPartitionTree.hpp:114-119 | truncate_complete_rec: keeps the root size and never adds nodes |
| PartitionTreeModel.Truncated | src/HSS/HSSPartitionTree.hpp:86-88 | truncate_complete: keeps the root size and never adds nodes |
| PartitionTreeModel.TruncateFromShape | src/HSS/HSSPartitionTree.hpp:114-119 | cutting at depth lvls (not below the shallowest leaf) puts every leaf at depth lvls and keeps the surviving nodes and their sizes |
| PartitionTreeModel.TruncatedShape | src/HSS/HSSPartitionTree.hpp:86-88 | after truncate_complete every leaf is at the old min_levels(), levels() equals it, the tree is balanced, and surviving nodes keep their sizes |
| PartitionTreeModel.TruncateFromBalanced | src/HSS/HSSPartitionTree.hpp:114-119 | truncating a tree whose leaves already lie at the cut depth changes nothing |
| PartitionTreeModel.ExpandFrom | src/HSS/HSSPartitionTree.hpp:120-138 | expand_complete_rec: keeps the root size; the root is internal afterwards iff it was, or sat above depth lvls |
| PartitionTreeModel.Expanded | src/HSS/HSSPartitionTree.hpp:89-91 | expand_complete: keeps the root size and whether the root is a leaf |
| PartitionTreeModel.ExpandFromShape | src/HSS/HSSPartitionTree.hpp:120-138 | expanding to depth lvls puts every leaf at depth lvls, keeps every old node and size, and keeps children summing to their parent |
| PartitionTreeModel.ExpandedShape | src/HSS/HSSPartitionTree.hpp:89-91 | after expand_complete levels() is unchanged, every leaf lies at that depth, and the old tree is a prefix of the new one |
| PartitionTreeModel.PaddedLeafSizes | src/HSS/HSSPartitionTree.hpp:121-134 | an expanded leaf of size s gets leaves [s, 0, …, 0] when zero nodes are allowed, else [s − (2^k − 1), 1, …, 1] with k the missing levels |
| PartitionTreeModel.ExpandFromBalanced | src/HSS/HSSPartitionTree.hpp:120-138 | expanding a tree whose leaves already lie at the target depth changes nothing |
| PartitionTreeModel.BalancedUnchanged | src/HSS/HSSPartitionTree.hpp:86-91 | both rebalancings leave a balanced tree unchanged |
| PartitionTreeModel.TruncateAfterExpand | src/HSS/HSSPartitionTree.hpp:86-91 | truncate_complete after expand_complete changes nothing |
| PartitionTreeModel.SerializeFrom | src/HSS/HSSPartitionTree.hpp:145-154 | the three columns of a subtree each have one slot per node |
| PartitionTreeModel.Serialized | src/HSS/HSSPartitionTree.hpp:92-97 | serialize(): a buffer of exactly 3·nodes() entries |
| PartitionTreeModel.SerializeRoot | src/HSS/HSSPartitionTree.hpp:92-97 | the root sits in the last slot; a leaf has lchild = rchild = −1; an internal node links to its left root and to the slot just before it |
| PartitionTreeModel.SerializeLinks | src/HSS/HSSPartitionTree.hpp:145-154 | every slot has either no links or two links to earlier slots of its subtree, rchild being the slot just before it |
| PartitionTreeModel.DeserializeFrom | src/HSS/HSSPartitionTree.hpp:155-162 | reading from slot pid consumes slots downward and reports a next slot in [−1, pid); the tree read has exactly one node per consumed slot |
| PartitionTreeModel.DeserializeSerializeFrom | src/HSS/HSSPartitionTree.hpp:155-162 | reading back a serialized subtree from its root slot rebuilds it exactly, using only sizes and rchild |
| PartitionTreeModel.Deserialized | src/HSS/HSSPartitionTree.hpp:47-56 | the buffer constructors: n = size / 3 slots, reading from slot n − 1; a tree read has at most n nodes |
| PartitionTreeModel.RoundTrip | src/HSS/HSSPartitionTree.hpp:47-56 | constructing a tree from serialize(t) gives t back |
| PartitionTreeModel.SerializedMap | src/HSS/HSSPartitionTree.hpp:165-176 | the map buffer starts with the number of trees and holds at least two entries (key, length) per tree |
| PartitionTreeModel.ParseMap | src/HSS/HSSPartitionTree.hpp:165-176 | the inverse of the map serializer: a parse yields exactly as many entries as the leading count says |
| PartitionTreeModel.EntriesBufferAppend | src/HSS/HSSPartitionTree.hpp:169-174 | one more map entry appends its key, its buffer length and its buffer |
| PartitionTreeModel.SerializedMapLength | src/HSS/HSSPartitionTree.hpp:165-176 | the map buffer has length 1 + Σ(2 + 3·nodes) |
| PartitionTreeModel.ParseEntriesRoundTrip | src/HSS/HSSPartitionTree.hpp:169-174 | parsing the entries of a map buffer gives every key and tree back, in order |
| PartitionTreeModel.MapRoundTrip | src/HSS/HSSPartitionTree.hpp:165-176 | parsing a map buffer gives back the count and every (key, tree) entry |
| HSSPartitionTree.PartitionTree.Empty | src/HSS/HSSPartitionTree.hpp:45 | a new leaf of size 0 |
| HSSPartitionTree.PartitionTree.constructor | src/HSS/HSSPartitionTree.hpp:46 | a new leaf of size n |
| HSSPartitionTree.PartitionTree.Copy | src/HSS/HSSPartitionTree.hpp:57-59 | a deep copy with the same sizes and shape, in fresh nodes |
| HSSPartitionTree.PartitionTree.FromVector | src/HSS/HSSPartitionTree.hpp:47-51 | the tree read from a vector buffer, starting at slot n − 1 |
| HSSPartitionTree.PartitionTree.FromBuffer | src/HSS/HSSPartitionTree.hpp:52-56 | the tree read from the first buf_size entries of an array |
| HSSPartitionTree.PartitionTree.Refine | src/HSS/HSSPartitionTree.hpp:60-69 | a childless node becomes Refined(size, leaf_size), with fresh child nodes |
| HSSPartitionTree.PartitionTree.RefinedChild | src/HSS/HSSPartitionTree.hpp:63-67 | a new child of the given size, refined in turn |
| HSSPartitionTree.PartitionTree.SetChildren | src/HSS/HSSPartitionTree.hpp:63-67 | c.resize(2) and filling both slots: the node keeps its size and gets exactly the two given children |
| HSSPartitionTree.PartitionTree.Nodes | src/HSS/HSSPartitionTree.hpp:74-79 | nodes() of the abstract tree |
| HSSPartitionTree.PartitionTree.Levels | src/HSS/HSSPartitionTree.hpp:80-85 | levels() of the abstract tree |
| HSSPartitionTree.PartitionTree.MinLevels | src/HSS/HSSPartitionTree.hpp:108-113 | min_levels() of the abstract tree |
| HSSPartitionTree.PartitionTree.IsComplete | src/HSS/HSSPartitionTree.hpp:98-101 | is_complete() as written: the root's two children have equal levels |
| HSSPartitionTree.PartitionTree.TruncateComplete | src/HSS/HSSPartitionTree.hpp:86-88 | the tree becomes Truncated(old tree) and keeps only old nodes |
| HSSPartitionTree.PartitionTree.TruncateCompleteRec | src/HSS/HSSPartitionTree.hpp:114-119 | the subtree becomes its truncation at depth lvls |
| HSSPartitionTree.PartitionTree.ExpandComplete | src/HSS/HSSPartitionTree.hpp:89-91 | the tree becomes Expanded(old tree); added nodes are fresh |
| HSSPartitionTree.PartitionTree.ExpandCompleteRec | src/HSS/HSSPartitionTree.hpp:120-138 | the subtree becomes its expansion to depth lvls |
| HSSPartitionTree.PartitionTree.ExpandChildren | src/HSS/HSSPartitionTree.hpp:135-137 | both existing children are expanded one level deeper |
| HSSPartitionTree.PartitionTree.ExpandedChild | src/HSS/HSSPartitionTree.hpp:123-133 | a new padding child of the given size, expanded in turn |
| HSSPartitionTree.PartitionTree.LeafSizes | src/HSS/HSSPartitionTree.hpp:102-106 | the leaf sizes, left to right |
| HSSPartitionTree.PartitionTree.LeafSizesRec | src/HSS/HSSPartitionTree.hpp:139-144 | appends this subtree's leaf sizes to lf |
| HSSPartitionTree.PartitionTree.Serialize | src/HSS/HSSPartitionTree.hpp:92-97 | the buffer is sizes, then lchild, then rchild of the post-order layout, 3·nodes() long |
| HSSPartitionTree.PartitionTree.SerializeRec | src/HSS/HSSPartitionTree.hpp:145-154 | writes the subtree's columns from slot pid on in all three columns; returns pid + nodes() |
| HSSPartitionTree.PartitionTree.SerializeChildren | src/HSS/HSSPartitionTree.hpp:146-149 | the left subtree goes from pid, the right from the left root's slot + 1 |
| HSSPartitionTree.PartitionTree.WriteSlot | src/HSS/HSSPartitionTree.hpp:150-153 | one node's size, lchild and rchild land in slot pid of their columns |
| HSSPartitionTree.PartitionTree.DeSerializeRec | src/HSS/HSSPartitionTree.hpp:155-162 | a default node becomes the subtree read from slot pid; the next slot to read is returned |
| HSSPartitionTree.PartitionTree.DeserializedChild | src/HSS/HSSPartitionTree.hpp:158-160 | a new child read from slot pid |
| HSSPartitionTree.SerializeMap | src/HSS/HSSPartitionTree.hpp:165-176 | the count, then each key, buffer length and tree buffer, in iteration order |
| HSSPartitionTree.AppendEntry | src/HSS/HSSPartitionTree.hpp:169-174 | one loop iteration of the map serializer appends exactly one entry |
| CompressModel.Range | src/HSS/HSSMatrix.compress.hpp:149-152 | offset, offset + 1, …: one index per row (or column) |
| CompressModel.Shift | src/HSS/HSSMatrix.compress.hpp:281-283 | every index moved by the extraction offset |
| CompressModel.ChildPivots | src/HSS/HSSMatrix.compress.hpp:492-497 | one global index per pivot of an internal node |
| CompressModel.Converged | src/HSS/HSSMatrix.compress.hpp:481-483 | the acceptance test: d − p ≥ max_rank, or both ranks below d − p; BasesOutcome states its use |
| CompressModel.Bases | src/HSS/HSSMatrix.compress.hpp:450-505 | compute_U_V_bases leaves the states alone; on acceptance Ir/Ic grow by exactly the new ranks; on rejection fields, Ir and Ic are unchanged |
| CompressModel.SplitWork | src/HSS/HSSMatrix.compress.hpp:157 | split (assumed) creates the children once and keeps the node's own offsets, level and skeleton lists |
| CompressModel.Finish | src/HSS/HSSMatrix.compress.hpp:193-205 | the common tail leaves D/B01/B10, offsets and children alone; a compressed node stays compressed with its ranks and lists |
| CompressModel.Join | src/HSS/HSSMatrix.compress.hpp:175-205 | after both children: the children are unchanged, offsets and compressed state are kept, and the node is touched once both children are compressed |
| CompressModel.CompressRec | src/HSS/HSSMatrix.compress.hpp:139-207 | offsets, level and shape are kept, and a compressed node keeps its state, ranks and skeleton lists |
| CompressModel.CompressLevel | src/HSS/HSSMatrix.compress.hpp:209-254 | the same guarantees as CompressRec for the level-by-level pass; work that was split stays split |
| CompressModel.ExtractDB | src/HSS/HSSMatrix.compress.hpp:332-361 | extract_D_B keeps the split work reachable, the dimensions, and the states and ranks |
| CompressModel.Extraction | src/HSS/HSSMatrix.compress.hpp:256-330 | as many row lists, column lists and blocks are appended as self grows by; offsets and skeleton lists are kept |
| CompressModel.ResetNode | src/HSS/HSSMatrix.compress.hpp:134 | reset (assumed): dimensions and blocks kept, the node untouched with zero ranks |
| CompressLemmas.BasesOutcome | src/HSS/HSSMatrix.compress.hpp:481-503 | accepts iff d − p ≥ max_rank or both ranks < d − p; on acceptance the ranks are the pivot counts and Ir/Ic grow by offset + pivot (leaf) or the child skeleton index the pivot names; on rejection only Jr/Jc are cleared |
| CompressLemmas.ChildPivotsInRange | src/HSS/HSSMatrix.compress.hpp:492-497 | the mapped index is c0.Ir[j] for j < \|c0.Ir\| and c1.Ir[j − \|c0.Ir\|] otherwise, and lies inside the parent's rows |
| CompressLemmas.FinishStates | src/HSS/HSSMatrix.compress.hpp:193-205 | the root becomes compressed; a compressed node stays so; any other node ends with U state = V state, compressed iff the bases are accepted, else partially compressed |
| CompressLemmas.JoinGate | src/HSS/HSSMatrix.compress.hpp:175-191 | a node with an uncompressed child returns unchanged; an untouched one gets B01 = U_rank(c0)×V_rank(c1) at (c0.Ir, c1.Ic) and B10 = U_rank(c1)×V_rank(c0) at (c1.Ir, c0.Ic) |
| CompressLemmas.PristineCore | src/HSS/HSSMatrix.compress.hpp:51 | a fresh WorkCompress on an untouched tree satisfies the compression invariant |
| CompressLemmas.SplitCore | src/HSS/HSSMatrix.compress.hpp:157 | splitting keeps the invariant and gives each child its own, at the partitioned offsets |
| CompressLemmas.FinishCore | src/HSS/HSSMatrix.compress.hpp:193-205 | the common tail keeps the per-node invariant: equal states, lists as long as the ranks, indices inside the node's range |
| CompressLemmas.JoinCore | src/HSS/HSSMatrix.compress.hpp:175-205 | finishing an internal node keeps the whole-tree invariant |
| CompressLemmas.CompressRecCore | src/HSS/HSSMatrix.compress.hpp:139-207 | compress_recursive_original keeps the whole-tree invariant |
| CompressLemmas.WideCompressesAll | src/HSS/HSSMatrix.compress.hpp:481 | once d − p ≥ max_rank one pass compresses every node |
| CompressLemmas.CompressedIsAll | src/HSS/HSSMatrix.compress.hpp:175-176 | under the invariant a compressed root means every node is compressed |
| CompressLemmas.CompressRecWindows | src/HSS/HSSMatrix.compress.hpp:196-198 | a touched node updates its samples from column 0 if it was untouched, else from where its last update stopped, up to d |
| CompressLemmas.ResetPristine | src/HSS/HSSMatrix.compress.hpp:134 | after reset (assumed) no node is touched and all ranks are zero |
| CompressLemmas.ExtractionMatching | src/HSS/HSSMatrix.compress.hpp:291-330 | the k-th block collected has the shape and indices of the k-th row and column lists |
| CompressLemmas.ExtractionFollows | src/HSS/HSSMatrix.compress.hpp:291-330 | extraction keeps offsets, shape and compressed nodes |
| CompressLemmas.ExtractionCore | src/HSS/HSSMatrix.compress.hpp:291-330 | extraction with blocks keeps the whole-tree invariant |
| CompressLemmas.ExtractionSplits | src/HSS/HSSMatrix.compress.hpp:256-289 | get_extraction_indices at level lvl splits the work of every internal node extract_D_B and compress_level_original visit at that level |
| CompressLemmas.ExtractionWorkCore | src/HSS/HSSMatrix.compress.hpp:256-289 | the overload without blocks keeps the whole-tree invariant on the split work |
| CompressLemmas.ExtractDBFollows | src/HSS/HSSMatrix.compress.hpp:332-361 | extract_D_B keeps offsets, shape and compressed nodes |
| CompressLemmas.ExtractDBCore | src/HSS/HSSMatrix.compress.hpp:332-361 | extract_D_B keeps the whole-tree invariant |
| CompressLemmas.ExtractDBReady | src/HSS/HSSMatrix.compress.hpp:354-359 | after extract_D_B every untouched internal node from lvl down has its coupling blocks at its children's skeleton indices |
| CompressLemmas.CompressLevelCore | src/HSS/HSSMatrix.compress.hpp:209-254 | compress_level_original keeps the whole-tree invariant |
| CompressLemmas.LevelPass | src/HSS/HSSMatrix.compress.hpp:209-361 | get_extraction_indices, extract_D_B and compress_level_original at one level chain: each meets the next one's requirement, and the invariant holds at the end |
| CompressLemmas.WidthStep | src/HSS/HSSMatrix.compress.hpp:76-79 | the next width is 2·(d − p) + p: the useful part d − p doubles |
| CompressLemmas.WidthUseful | src/HSS/HSSMatrix.compress.hpp:44 | every width exceeds p by at least d0 |
| CompressLemmas.AttemptsTile | src/HSS/HSSMatrix.compress.hpp:57-67 | attempt 0 samples columns [0, d0 + p); attempt k samples the d0·2^(k−1) columns right after attempt k − 1's |
| CompressLemmas.AttemptsSnoc | src/HSS/HSSMatrix.compress.hpp:76-79 | the schedule grows one attempt at a time |
| CompressLemmas.ResumedAttemptFacts | src/HSS/HSSMatrix.compress.hpp:73-75 | one incremental attempt keeps the invariant, resumes every node's samples where they stopped, and compresses all once d − p ≥ max_rank |
| CompressLemmas.ScheduleNext | src/HSS/HSSMatrix.compress.hpp:76-79 | logging the next attempt after a narrow one keeps the log on schedule |
| CompressLemmas.PendingStep | src/HSS/HSSMatrix.compress.hpp:76-79 | after logging an attempt the useful width is ≥ d0, and a narrow attempt is followed by d_old := d, d := 2·(d − p) + p on schedule |
| HSSCompress.HSSNode.NewLeaf | src/HSS/HSSMatrix.compress.hpp:144-155 | a new untouched leaf with zero ranks |
| HSSCompress.HSSNode.NewInner | src/HSS/HSSMatrix.compress.hpp:157 | a new untouched internal node over two disjoint subtrees |
| HSSCompress.HSSNode.IsCompressedNode | src/HSS/HSSMatrix.compress.hpp:175-176 | is_compressed (assumed): both bases compressed, the model's IsCompressed |
| HSSCompress.HSSNode.IsUntouchedNode | src/HSS/HSSMatrix.compress.hpp:145 | is_untouched (assumed): both bases untouched, the model's IsUntouched |
| HSSCompress.HSSNode.ComputeUVBases | src/HSS/HSSMatrix.compress.hpp:450-505 | the ranks, row counts and work lists become those of Bases on the old node |
| HSSCompress.HSSNode.FinishNode | src/HSS/HSSMatrix.compress.hpp:193-205 | the node's fields and work become those of Finish on the old node |
| HSSCompress.HSSNode.CompressRecursive | src/HSS/HSSMatrix.compress.hpp:139-207 | the subtree and work become CompressRec of the old subtree |
| HSSCompress.HSSNode.CompressLeaf | src/HSS/HSSMatrix.compress.hpp:144-155 | an untouched leaf gets D at its offset rows and columns, then the common tail |
| HSSCompress.HSSNode.JoinNode | src/HSS/HSSMatrix.compress.hpp:175-205 | the node and work become Join of the old node and its compressed children |
| HSSCompress.HSSNode.CompressLevelNode | src/HSS/HSSMatrix.compress.hpp:209-254 | the subtree and work become CompressLevel of the old subtree |
| HSSCompress.HSSNode.ExtractDBNode | src/HSS/HSSMatrix.compress.hpp:332-361 | the subtree becomes ExtractDB of the old subtree |
| HSSCompress.HSSNode.GetExtractionIndices | src/HSS/HSSMatrix.compress.hpp:256-289 | I, J and self grow by exactly what Extraction appends; the node is not changed |
| HSSCompress.HSSNode.ExtractChildren | src/HSS/HSSMatrix.compress.hpp:274-277 | left child's lists first, then the right child's |
| HSSCompress.HSSNode.GetExtractionIndicesWithBlocks | src/HSS/HSSMatrix.compress.hpp:291-330 | I, J, B and self grow as Extraction says, and D/B01/B10 are allocated for the entries |
| HSSCompress.HSSNode.ExtractChildrenWithBlocks | src/HSS/HSSMatrix.compress.hpp:311-314 | left child first, then the right child, with blocks |
| HSSCompress.HSSNode.LeafIndices | src/HSS/HSSMatrix.compress.hpp:262-271 | an untouched leaf's row and column ranges shifted by its offset and off |
| HSSCompress.HSSNode.CouplingIndices | src/HSS/HSSMatrix.compress.hpp:279-287 | the pairs (c0.Ir, c1.Ic) and (c1.Ir, c0.Ic), shifted by off |
| HSSCompress.HSSNode.SetCoupling | src/HSS/HSSMatrix.compress.hpp:324-327 | B01 and B10 are set and nothing else changes |
| HSSCompress.HSSNode.Reset | src/HSS/HSSMatrix.compress.hpp:134 | every node of the subtree becomes untouched with zero ranks and row counts (assumed contract of reset) |
| HSSCompress.HSSNode.ResetLocal | src/HSS/HSSMatrix.compress.hpp:134 | the node's own states, ranks and row counts are cleared; the children are unchanged |
| HSSCompress.HSSNode.ResumedAttempt | src/HSS/HSSMatrix.compress.hpp:73-75 | one attempt on the threaded work with dd = d − d_old keeps the invariant and resumes samples at d_old; a failed attempt had d − p < max_rank |
| HSSCompress.HSSNode.FreshAttempt | src/HSS/HSSMatrix.compress.hpp:100-135 | one attempt on a fresh work tree with dd = d: on success the invariant holds and every touched node below the root sampled columns [0, d); on failure the tree is reset and d − p < max_rank |
| HSSCompress.HSSNode.CompressOriginal | src/HSS/HSSMatrix.compress.hpp:42-81 | the loop ends with every node compressed and the invariant on the returned work; the attempts follow the schedule d = d0 + p, then 2·(d − p) + p, and every attempt but the last had d − p < max_rank; an already compressed matrix is left unchanged with no attempt |
| HSSCompress.HSSNode.CompressHardRestart | src/HSS/HSSMatrix.compress.hpp:90-137 | the same outcome, schedule and no-op on an already compressed matrix, with a fresh work tree and a reset after every failed attempt |
| HSSCompress.IndexRange | src/HSS/HSSMatrix.compress.hpp:149-152 | the push_back loop builds offset, offset + 1, … |
| HSSCompress.PushShifted | src/HSS/HSSMatrix.compress.hpp:489-490 | the loop appends every pivot plus the offset |
| HSSCompress.PushChildPivots | src/HSS/HSSMatrix.compress.hpp:492-497 | the loop appends the child skeleton index each pivot names |

## Left out

- Floating-point numerics are not modelled: the random samples, `gemm` in `compute_local_samples`, the interpolative decomposition, `applyC` in `reduce_local_samples` and the tolerances `rel_tol()/w.lvl`. The ID is an oracle parameter that answers pivots. A node only records the window of sample columns its local samples were last updated with.
- `Amult` and `Aelem` are not called. Each block records the row and column indices its entries are requested for.
- The OpenMP tasks are not modelled. The recursion is sequential, left child first, as in the untasked branch.
- `WorkCompress::split`, `reset`, `is_compressed` and `is_untouched` are defined in files that are not part of this model. Their contracts are assumed: split gives the left child the parent's offset and the right child the offset shifted by the left child's dimensions, both one level deeper. WorkCompress is modelled as a value.
- `CompressModel.ChildPivot`: a pivot outside both children's lists gets −1. A sound oracle never produces one (see ChildPivotsInRange).
- `HSSCompress.HSSNode.CompressOriginal` requires `d0 ≥ 1`; with d0 ≤ 0 the source's width never grows and its loop need not end. It also requires square leaf blocks: the source sizes a leaf's column-basis sample by `rows()` and its samples by `cols()`, which agree only on square leaves. It starts from a matrix that is either untouched everywhere or compressed everywhere; a partially compressed starting tree is not modelled. The returned work satisfies the invariant only when an attempt ran: on an already compressed matrix the work is a fresh, empty one.
- `HSSCompress.HSSNode.CompressHardRestart` has the same `d0 ≥ 1`, square-leaf and starting-state requirements.
- The compression drivers do not model 32-bit overflow of `d`, which doubles on every failed attempt; widths are unbounded integers.
- `PartitionTreeModel.Refined` (and `HSSPartitionTree.PartitionTree.Refine`) computes `2*leaf_size` on unbounded integers; the source's `int` product overflows for `leaf_size` above 2^30.
- `PartitionTreeModel.ExpandFrom` (and `HSSPartitionTree.PartitionTree.ExpandCompleteRec`) computes `Pow2(lvls - lvl - 1)` where the source shifts `1 << (lvls - lvl - 1)` on a 32-bit `int`, which is undefined for trees of 32 or more levels; the model gives the exact power.
- `PartitionTreeModel.SerializedMap` (and `HSSPartitionTree.SerializeMap`) keeps keys, the map size and buffer lengths as unbounded integers; the source narrows the `integer_t` key and the `size_t` lengths to `int`.
- The copies of earlier samples into fresh matrices in the hard-restart driver (`R2`, `Sr2`, `Sc2`) are not modelled, because they carry only values.
- `HSSPartitionTree.PartitionTree.Refine` requires `leaf_size ≥ 1`. With `leaf_size ≤ 0` the source recurses forever whenever `size > 2*leaf_size`, since a node of size 1 splits into sizes 0 and 1. Otherwise it does nothing, but the model excludes that case as well.
- `HSSPartitionTree.PartitionTree.FromVector` and `FromBuffer` require a well-formed buffer. On a malformed one the source reads out of bounds, and `PartitionTreeModel.Deserialized` returns `Malformed`.
- The deserializer never reads the `lchild` column, and neither does the model.
- The map serializer iterates an `unordered_map`, whose order is unspecified. The model takes the entries as a sequence in some order.
- `print`, the verbose output, the flop counters and the timers are not modelled.

## Findings

| source | as written | input that shows it | evidently intended | confidence | as-written member | corrected member |
|---|---|---|---|---|---|---|
| src/HSS/HSSPartitionTree.hpp:98-101 | `is_complete()` compares only the levels of the root's two children | a tree of six leaves at depths 4, 4, 3, 3, 4, 4: both children have 3 levels, yet the leaves lie at two depths | every leaf at the same depth, which holds iff `min_levels() == levels()` | medium, not executed | PartitionTreeModel.IsCompleteAcceptsUnbalanced | PartitionTreeModel.BalancedIffMinLevelsIsLevels |
