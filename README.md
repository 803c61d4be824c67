# llvm-tutor passes, modelled in Dafny

This project models the core of llvm-tutor, a set of small LLVM passes
written in C++. Each pass reads or rewrites the IR of a module. The model
covers these passes:

- **Reachable integer values** (`riv::BuildRiv`). For every basic block it
  computes the integer-typed values defined in the blocks that dominate
  it. It works in three steps:
  - it collects the integer values each block defines;
  - it seeds the entry block with the integer globals and arguments;
  - it walks the dominator tree with a worklist.
- **DuplicateBB**. It picks, for every eligible block, one reachable value
  as a context. It then turns the block into an if-then-else diamond:
  - both arms run clones of the block's instructions;
  - the tail merges the two clones of every value with a phi.
- **MergeBB**. Two blocks may branch unconditionally to the same
  successor and hold instructions that match pairwise. The pass redirects
  the first block's incoming edges to the second, then deletes the first
  once every block has been scanned. The model runs the pass in two
  versions: the code as written, and the code with two tests doing what
  its comments say they do.
- **MBA add / MBA sub**. MBA stands for mixed boolean arithmetic.
  - MBA add replaces an 8-bit `add` by
    `(((a ^ b) + 2 * (a & b)) * 39 + 23) * 151 + 111`.
  - MBA sub replaces an integer `sub` by `(a + ~b) + 1`.
- **OpcodeCounter**. It builds a histogram of opcode names per function.
- **StaticCallCounter**. It builds a histogram of the direct callees over
  the whole module, with its keys kept in first-seen order.

The IR is modelled with datatypes in `ir.dfy`:

- a value is an instruction, argument, global, constant, block or function;
- an instruction has a number, an opcode, a type, operands and phi incoming blocks;
- a block has a number, a body and a terminator.

The address identity of LLVM values is modelled as these numbers. New
instructions and blocks take numbers from a counter passed in by the
caller.

`exec.dfy` gives the meaning of a straight-line run of instructions:

- an environment maps each value to an integer;
- integer binary operators compute on words of their result width;
- every other instruction computes an uninterpreted function of its opcode, type, phi incoming blocks and operand values.

`arith.dfy` defines bitwise xor, and and or on words. `histogram.dfy`
holds what both counters share: the count map, the first-seen order of
the keys, and the sum of the counts.

The passes that change IR are methods. Each method loops as the source
does and returns the new function or block. Its postcondition ties the
result to a specification function, for example:

- `MbaAdd.RewriteAdds`
- `DuplicateBB.Cloned`
- `MergeBB.Retargeted`
- `Histogram.Tally`

Lemmas then state the promises of the source about those functions:

- the rewritten block computes what the old block computed;
- each arm of a cloned block computes what the original instructions computed;
- the counts add up to the number of instructions counted;
- the cloned block's arms and tail have the shape the comments describe.

`MergeBB.LockstepReverseIterator` is a class because the source's
iterator updates its fields in place.

## Model

| member | source | states |
|---|---|---|
| Riv.IntDefsExactly | llvm-tutor/riv/riv.cc:48-54 | a value is a local definition of a block exactly when it is an integer-typed instruction of that block |
| Riv.LocalDefinitions | llvm-tutor/riv/riv.cc:48-54 | the local-definitions map has a key for every block of the function, and each entry is exactly the block's integer-typed instructions |
| Riv.DefsInOfBlock | llvm-tutor/riv/riv.cc:48-54 | with distinct block numbers, the definitions looked up for a block are those of that block's own instructions |
| Riv.IntGlobalsExactly | llvm-tutor/riv/riv.cc:60-63 | a global seeds the entry block exactly when it has integer type |
| Riv.IntArgsExactly | llvm-tutor/riv/riv.cc:65-67 | an argument seeds the entry block exactly when it has integer type |
| Riv.EntrySeeds | llvm-tutor/riv/riv.cc:56-67 | before propagation, the entry block's set holds exactly the integer-typed globals and the integer-typed arguments |
| Riv.VisitChildren | llvm-tutor/riv/riv.cc:81-94 | visiting a parent pushes all its children onto the worklist, in order, and adds the parent's local definitions to each child's set, as the code does |
| Riv.VisitChild | llvm-tutor/riv/riv.cc:84-93 | after one child the map is the as-written result for one more tree edge: the child's set gains exactly the parent's local definitions, and every other set is unchanged |
| Riv.BuildRiv | llvm-tutor/riv/riv.cc:38-98 | as written: keys are the entry block plus every tree child. Each set is the entry seeds (for the entry block) plus the local definitions of the tree parent. Every tree node is processed exactly once, and each parent before its children |
| Riv.ParentsFirstDone | llvm-tutor/riv/riv.cc:70-95 | in the processing order every child of a node comes after that node |
| Riv.BuildRivIntended | llvm-tutor/riv/riv.cc:87-93 | as the comment at line 91 intends: every tree child's set is its parent's local definitions united with the parent's own set, and the entry block's set is the seeds |
| Riv.VisitChildIntended | llvm-tutor/riv/riv.cc:84-93 | with the intended second insert, one child keeps the map intended for the processed edges. The visited blocks, the worklist and the children not yet pushed still make up the tree, each block once |
| Riv.VisitChildrenIntended | llvm-tutor/riv/riv.cc:83-94 | with the intended second insert, all children are pushed in order. The map is the intended one for the parent's edges as well, and the parent's own set is left as it was |
| Riv.AsWrittenSubsetOfIntended | llvm-tutor/riv/riv.cc:79-93 | the as-written and intended results have the same keys, and each as-written set is contained in the intended one |
| Riv.IntendedAlongPath | llvm-tutor/riv/riv.cc:91-93 | with the intended propagation, a set includes the set of every dominator above it and the local definitions of every block on the tree path to it |
| Riv.IntendedSeedsEverywhere | llvm-tutor/riv/riv.cc:56-67 | with the intended propagation, every block reachable in the tree from the entry holds all integer globals and arguments |
| Riv.ChainDiffers | llvm-tutor/riv/riv.cc:92-93 | on a three-block chain, a value defined in the entry block is missing from the third block as written but present as intended |
| DuplicateBB.Advance | llvm-tutor/duplicate_bb/duplicate_bb.cc:134-136 | advancing an iterator over the reachable set by a drawn index below its size lands on a member of the set, whatever the iteration order |
| DuplicateBB.FindBBsToDuplicate | llvm-tutor/duplicate_bb/duplicate_bb.cc:108-151 | every target is a block that is not a landing pad and has a non-empty reachable set (a missing key reads as empty). Its context is a member of that set and is not a global. Targets appear once each, in block order. Every eligible block whose set holds no global is a target |
| DuplicateBB.TargetsFacts | llvm-tutor/duplicate_bb/duplicate_bb.cc:117-147 | the targets name distinct blocks of the function, and every eligible block whose set holds no global is among them |
| DuplicateBB.CloneInstructions | llvm-tutor/duplicate_bb/duplicate_bb.cc:196-242 | the loop over the instructions after the phis gives two arm bodies of clones, a tail in which each value-producing instruction has become a phi, the positions of the void instructions to remove, the tail map, and the re-mapper extended by the tail map |
| DuplicateBB.Purge | llvm-tutor/duplicate_bb/duplicate_bb.cc:244-245 | erasing the recorded positions leaves exactly the tail phis |
| DuplicateBB.VoidPositionsExactly | llvm-tutor/duplicate_bb/duplicate_bb.cc:224-227 | a position is scheduled for removal exactly when its instruction is void |
| DuplicateBB.CloneBB | llvm-tutor/duplicate_bb/duplicate_bb.cc:153-248 | the function after CloneBB is the diamond built from the block, and the re-mapper and counters advance as the loop does |
| DuplicateBB.CloneHead | llvm-tutor/duplicate_bb/duplicate_bb.cc:158-174 | the head keeps the block's number and phis. It then compares the context with 0, using the re-mapper's entry when the context is a key. It ends in a conditional branch to the two arms |
| DuplicateBB.CloneArmsJoin | llvm-tutor/duplicate_bb/duplicate_bb.cc:171-174 | the then and else blocks both end in a branch to the same tail block |
| DuplicateBB.CloneArm | llvm-tutor/duplicate_bb/duplicate_bb.cc:209-221 | each arm holds one clone of every non-phi instruction, in order. A clone's operand naming an earlier instruction of the block names that instruction's clone in the same arm; any other operand is unchanged |
| DuplicateBB.CloneTail | llvm-tutor/duplicate_bb/duplicate_bb.cc:224-245 | the tail holds one two-input phi per value-producing instruction, with incoming blocks then and else and operands the two clones. Void instructions are gone. The terminator is kept with its operands remapped |
| DuplicateBB.TailPhisFacts | llvm-tutor/duplicate_bb/duplicate_bb.cc:229-237 | every tail phi has exactly two operands and the incoming blocks then and else, and the phi of each value-producing instruction sits at its rank among them |
| DuplicateBB.ReplacedExactly | llvm-tutor/duplicate_bb/duplicate_bb.cc:236-241 | the tail map sends every value-producing instruction to its phi, has no void instruction as a key, and has no other key |
| DuplicateBB.ReMappedGrows | llvm-tutor/duplicate_bb/duplicate_bb.cc:236 | the re-mapper only grows: old keys stay, each value-producing instruction maps to its phi, and the entries of other keys are unchanged |
| DuplicateBB.CloneRedirects | llvm-tutor/duplicate_bb/duplicate_bb.cc:171-174 | every other block keeps its place, its number and its instructions, with every use of a replaced value now naming its phi. Terminators that named the block still name the head, which keeps its number. In a successor of the block, a phi's incoming block moves from the block to the tail |
| DuplicateBB.CloneKeepsIdsUnique | llvm-tutor/duplicate_bb/duplicate_bb.cc:171-174 | block numbers stay distinct after the split |
| DuplicateBB.CloneKeepsFresh | llvm-tutor/duplicate_bb/duplicate_bb.cc:153-248 | every number used after CloneBB is below the advanced counter, so the next clone's numbers are new |
| DuplicateBB.CloneKeepsBlock | llvm-tutor/duplicate_bb/duplicate_bb.cc:104-105 | every block survives CloneBB, the cloned block now ends in a conditional branch, and every other block keeps the kind of its terminator |
| DuplicateBB.CloneComputesAlike | llvm-tutor/duplicate_bb/duplicate_bb.cc:209-221 | once every earlier clone holds its original's value, the next clone reads the same operand values as its original and computes the same result |
| DuplicateBB.ArmStep | llvm-tutor/duplicate_bb/duplicate_bb.cc:209-221 | running one more instruction and its clone keeps every clone beside its original, leaves the values below the counter alone in the arm, and changes only the originals' own values in the block |
| DuplicateBB.RunFromIsRun | llvm-tutor/duplicate_bb/duplicate_bb.cc:196 | running a block from its `k`-th instruction on is running the suffix from `k` |
| DuplicateBB.ArmComputes | llvm-tutor/duplicate_bb/duplicate_bb.cc:196-242 | whichever arm the test of the context selects, running its clones gives each clone the value its original computes in the block, and changes no value numbered below the counter |
| DuplicateBB.ClonedArmBody | llvm-tutor/duplicate_bb/duplicate_bb.cc:209-221 | when every operand naming an instruction of the block names an earlier one, each arm of the diamond holds exactly the clones, untouched by the replacement of the originals by phis |
| DuplicateBB.ClonedArmComputes | llvm-tutor/duplicate_bb/duplicate_bb.cc:153-248 | in SSA form, each arm of the diamond returned by CloneBB, run from any environment, gives each clone the value its original computes and changes no value numbered below the counter |
| DuplicateBB.ClonedTailBlock | llvm-tutor/duplicate_bb/duplicate_bb.cc:224-245 | the tail block of the diamond holds exactly the tail phis, and its terminator is the block's terminator with replaced operands remapped to their phis |
| DuplicateBB.RunOnFunction | llvm-tutor/duplicate_bb/duplicate_bb.cc:92-106 | the reachable sets are those of the as-written `BuildRiv` (duplicate_bb.cc:26-86 is a copy of riv.cc:38-98). Every target's context is a non-global member of its block's set, and every eligible block whose set holds no global is a target. Each target's block is turned into a diamond adding three blocks. Block numbers stay unique, every original block remains, and every target's block ends in a conditional branch |
| MergeBB.CanRemoveInst | llvm-tutor/merge_bb/merge_bb.h:22-27 | the test the header describes: when it accepts, some user of the instruction is in its block or is the successor's phi fed by it along this block's edge |
| MergeBB.CanRemoveInstAsWritten | llvm-tutor/merge_bb/merge_bb.cc:33-46 | the test as written: it accepts nothing the header's test refuses, except an instruction that is itself a phi |
| MergeBB.CanRemoveInstIff | llvm-tutor/merge_bb/merge_bb.h:22-27 | the instruction can be removed exactly when its single user is in the same block, or is a phi of the first successor whose incoming value along this block's edge is the instruction |
| MergeBB.AsWrittenOnlySameBlock | llvm-tutor/merge_bb/merge_bb.cc:33-46 | as written, for an instruction that is not a phi, the test holds exactly when the single user is in the same block |
| MergeBB.AsWrittenMissesPhiUser | llvm-tutor/merge_bb/merge_bb.cc:36-45 | when the single user is a phi of the successor fed by the instruction, the intended test accepts but the test as written refuses |
| MergeBB.AsWrittenMissesPhiUserExample | llvm-tutor/merge_bb/merge_bb.cc:36 | a concrete two-block function where an add feeds only the successor's phi: removable as intended, refused as written |
| MergeBB.GetNumNonDbgInstInBB | llvm-tutor/merge_bb/merge_bb.cc:271-277 | the count is the number of non-debug instructions of the block, terminator included |
| MergeBB.NonDbgIdxFacts | llvm-tutor/merge_bb/merge_bb.cc:271-277 | the positions counted are exactly the non-debug ones, in increasing order |
| MergeBB.LockstepReverseIterator.constructor | llvm-tutor/merge_bb/merge_bb.cc:218-242 | each position starts at the last non-debug instruction strictly before the block's terminator, and the iterator is invalid from the start when either block has none |
| MergeBB.LockstepReverseIterator.Current | llvm-tutor/merge_bb/merge_bb.cc:267-269 | a valid iterator points at a body instruction of each block |
| MergeBB.LockstepReverseIterator.Decrement | llvm-tutor/merge_bb/merge_bb.cc:248-265 | once invalid it stays invalid and unchanged. Otherwise the first position moves back to the previous non-debug instruction, and the second moves only if the first found one. The iterator becomes invalid exactly when a block has no earlier non-debug instruction |
| MergeBB.CanMergeInstructions | llvm-tutor/merge_bb/merge_bb.cc:48-79 | the two instructions merge exactly when they are the same operation on the same type with pairwise identical operands, and either both have no users or both have exactly one use that the chosen version's `CanRemoveInst` accepts |
| MergeBB.InstructionsMatch | llvm-tutor/merge_bb/merge_bb.cc:181-188 | the iterator loop ends invalid exactly when every pair of non-debug body instructions, aligned from the terminators back, can be merged |
| MergeBB.NextPair | llvm-tutor/merge_bb/merge_bb.cc:183-185 | one step back from a pair that merges moves to the next pair, or fails exactly when the shorter block is used up. All pairs passed so far merge, and the loop test says whether the new pair does |
| MergeBB.PairTableAll | llvm-tutor/merge_bb/merge_bb.cc:181-188 | the table the loop consults records, for every aligned pair, whether it merges |
| MergeBB.RetargetTerminator | llvm-tutor/merge_bb/merge_bb.cc:94-101 | every operand naming the erased block now names the retained one, every other operand is unchanged, and the count is the number of operands replaced |
| MergeBB.RedirectSlots | llvm-tutor/merge_bb/merge_bb.cc:95-101 | after the loop over a terminator's operands, every slot that named the erased block names the retained one, every other slot is unchanged, and the count is the number of slots that named the erased block |
| MergeBB.RedirectSlot | llvm-tutor/merge_bb/merge_bb.cc:97-100 | one turn keeps the visited slots redirected and the others untouched, and counts the slot just visited when it named the erased block |
| MergeBB.UpdateBranchTargets | llvm-tutor/merge_bb/merge_bb.cc:81-105 | the function after the update retargets every terminator, and the count returned is the number of terminator operands that named the erased block |
| MergeBB.RetargetOpsOccurrences | llvm-tutor/merge_bb/merge_bb.cc:95-101 | after retargeting, no operand names the erased block, the retained block gains exactly those slots, and every other value keeps its count |
| MergeBB.RetargetedEdges | llvm-tutor/merge_bb/merge_bb.cc:81-105 | a block branches to the retained block after the update exactly when it branched to the erased or retained block before. It never branches to the erased block, and other edges are unchanged |
| MergeBB.TargetCountZero | llvm-tutor/merge_bb/merge_bb.cc:192 | the count is zero exactly when no block branches to the erased block |
| MergeBB.AllPredsBrOrSwitch | llvm-tutor/merge_bb/merge_bb.cc:118-122 | the loop answers whether every predecessor of the block ends in a branch or a switch |
| MergeBB.IsPartner | llvm-tutor/merge_bb/merge_bb.cc:140-188 | the tests on a candidate partner hold exactly when it passes the partner test of the chosen version. It must branch to the same successor, must not be the entry block or the block itself, and must end in an unconditional branch. In the intended version only, its predecessors must end in branches or switches; as written, that loop rejects nothing. It must not be marked, must have the same non-debug count, must agree on the successor's phi, and must match instruction by instruction |
| MergeBB.FirstPartnerIsPartner | llvm-tutor/merge_bb/merge_bb.cc:140-198 | the block the scan stops at passes every partner test |
| MergeBB.FirstPartnerIsFirst | llvm-tutor/merge_bb/merge_bb.cc:140-200 | no block scanned before the one the scan stops at is a partner; when the scan finds none, no block is a partner |
| MergeBB.MergeDuplicatedBlock | llvm-tutor/merge_bb/merge_bb.cc:107-201 | it merges exactly when the block is not refused (entry, no unconditional branch, a predecessor ending in neither a branch nor a switch, two phis in the successor) and a partner exists under the chosen version of the tests. On success the edges are redirected to the partner and the block is added to the delete list. Otherwise nothing changes |
| MergeBB.PartnerAsWrittenIgnoresInvoke | llvm-tutor/merge_bb/merge_bb.cc:150-154 | on a concrete function, a partner reached through an `invoke` passes the tests as written but not the corrected ones |
| MergeBB.InvokeExamplePartnerFound | llvm-tutor/merge_bb/merge_bb.cc:140-160 | as written, the first partner of the second block of `InvokeExample` is its fourth block |
| MergeBB.InvokeExampleNoneFound | llvm-tutor/merge_bb/merge_bb.cc:140-160 | with the intended predecessor test, the second block of `InvokeExample` has no partner |
| MergeBB.InvokeExampleScan | llvm-tutor/merge_bb/merge_bb.cc:107-210 | offered the second block of `InvokeExample`, the pass as written redirects its edges to the fourth block and marks it; the intended pass changes nothing |
| MergeBB.MergeStep | llvm-tutor/merge_bb/merge_bb.cc:107-201 | one call of `MergeDuplicatedBlock` keeps the number of blocks |
| MergeBB.ScanUpTo | llvm-tutor/merge_bb/merge_bb.cc:208-210 | offering the blocks in turn keeps the number of blocks |
| MergeBB.ScanUpToStep | llvm-tutor/merge_bb/merge_bb.cc:208-210 | a call of `MergeDuplicatedBlock` on the next block extends the scan by one merge step |
| MergeBB.MergeKeepsUnreferenced | llvm-tutor/merge_bb/merge_bb.cc:190-197 | one merge keeps the blocks' numbers and bodies and leaves every block on the delete list without incoming edges |
| MergeBB.MergeAll | llvm-tutor/merge_bb/merge_bb.cc:208-210 | the function and delete list are those of offering every block in turn to `MergeDuplicatedBlock`, each seeing the merges before it. Every block keeps its number and body, every marked block is a non-entry block listed once, and no block branches to a marked one |
| MergeBB.WithoutMembers | llvm-tutor/merge_bb/merge_bb.cc:212 | a block survives deletion exactly when it is not on the delete list |
| MergeBB.DeleteBlocks | llvm-tutor/merge_bb/merge_bb.cc:212 | deleting removes exactly the blocks on the delete list |
| MergeBB.DeleteKeepsEntry | llvm-tutor/merge_bb/merge_bb.cc:110 | the entry block is never deleted and stays first |
| MergeBB.DeleteKeepsUnmarked | llvm-tutor/merge_bb/merge_bb.cc:212 | the blocks left after deletion are exactly the unmarked blocks, with their numbers and bodies |
| MergeBB.DeleteLeavesNoEdge | llvm-tutor/merge_bb/merge_bb.cc:207-213 | after deletion no terminator names a deleted block |
| MergeBB.DeleteAfterScan | llvm-tutor/merge_bb/merge_bb.cc:207-213 | deleting the marked blocks after a complete scan leaves the function `RunOnFunction` promises |
| MergeBB.RunOnFunction | llvm-tutor/merge_bb/merge_bb.cc:207-213 | the delete list is the one the scan of every block builds, and the result is the scanned function with those blocks deleted. Every block on the delete list is a non-entry block of the function, listed once. The surviving blocks are exactly the unlisted ones, with their bodies. The entry block stays first. No terminator names a deleted block |
| MbaAdd.Substitute | llvm-tutor/mba_add/mba_add.cc:73-103 | the replacement is eight instructions. The first seven take new numbers. The last is an 8-bit add of the seventh and the constant 111, and keeps the original's number |
| MbaAdd.RunOnBasicBlock | llvm-tutor/mba_add/mba_add.cc:35-105 | the block after the loop is the block rewritten by the filter-and-replace specification, and the counter advances past the new numbers |
| MbaAdd.WalkKeep | llvm-tutor/mba_add/mba_add.cc:44-60 | skipping an instruction that is not an 8-bit add, or whose draw exceeds `kRatio`, keeps the walk in step with the specification; a draw is used only for an 8-bit add |
| MbaAdd.WalkReplace | llvm-tutor/mba_add/mba_add.cc:64-103 | replacing an 8-bit add whose draw does not exceed `kRatio` by its eight instructions, and moving past them, keeps the walk in step with the specification |
| MbaAdd.RunOnFunction | llvm-tutor/mba_add/mba_add.cc:31-33 | every block of the function is rewritten in turn, each with fresh numbers and the draw restarted |
| MbaAdd.RewriteBlocksAt | llvm-tutor/mba_add/mba_add.cc:31-33 | the k-th block of the result is the k-th block rewritten from its own start number |
| Arith.XorAndSum | llvm-tutor/mba_add/mba_add.cc:84-93 | for words of any width, `(a ^ b) + 2 * (a & b) == a + b` |
| MbaAdd.AffineInverse | llvm-tutor/mba_add/mba_add.cc:73-97 | modulo 256, multiplying by 39, adding 23, multiplying by 151 and adding 111 gives back the input |
| MbaAdd.SubstituteComputes | llvm-tutor/mba_add/mba_add.cc:73-103 | running the eight replacement instructions stores under the original's number exactly what the original add computed, and changes no older value |
| MbaAdd.FirstHalf | llvm-tutor/mba_add/mba_add.cc:84-93 | the first four replacement instructions store `a + b` modulo 256 in the fourth new value and change no older value |
| MbaAdd.SecondHalf | llvm-tutor/mba_add/mba_add.cc:76-97 | the last four instructions, `((x * 39 + 23) * 151 + 111)` on bytes, store under the original's number the byte `x` the fourth new value holds, and change no other older value |
| MbaAdd.RewritePreserves | llvm-tutor/mba_add/mba_add.cc:35-105 | the rewritten block leaves every pre-existing value as the original block leaves it |
| MbaAdd.FunctionPreserves | llvm-tutor/mba_add/mba_add.cc:31-33 | every rewritten block keeps its number and terminator and computes every pre-existing value as before |
| MbaAdd.RewriteInPlace | llvm-tutor/mba_add/mba_add.cc:46-56 | the original instructions keep their order and numbers. Non-candidates are unchanged. A replaced candidate becomes an 8-bit add of a new value and 111 |
| MbaAdd.EveryCandidateReplaced | llvm-tutor/mba_add/mba_add.cc:60 | with `kRatio` 1 and draws in [0, 1), every 8-bit add is replaced |
| MbaSub.Substitute | llvm-tutor/mba_sub/mba_sub.cc:50-54 | the replacement is three integer binary operators of the original's type, two with new numbers and the last keeping the original's number |
| MbaSub.RewriteLength | llvm-tutor/mba_sub/mba_sub.cc:36-61 | the block grows by two instructions per integer sub |
| MbaSub.RunOnBasicBlock | llvm-tutor/mba_sub/mba_sub.cc:32-62 | the block after the loop is the block rewritten by the specification, and the counter advances by two per integer sub |
| MbaSub.WalkKeep | llvm-tutor/mba_sub/mba_sub.cc:36-44 | skipping an instruction that is not an integer sub keeps the walk in step with the specification |
| MbaSub.WalkReplace | llvm-tutor/mba_sub/mba_sub.cc:48-60 | replacing an integer sub by its three instructions, and moving past them, keeps the walk in step with the specification |
| MbaSub.RunOnFunction | llvm-tutor/mba_sub/mba_sub.cc:28-30 | every block of the function is rewritten in turn with fresh numbers |
| MbaSub.RewriteBlocksAt | llvm-tutor/mba_sub/mba_sub.cc:28-30 | the k-th block of the result is the k-th block rewritten from its own start number |
| MbaSub.SubIdentity | llvm-tutor/mba_sub/mba_sub.cc:50-54 | for words of any width, `(a + ~b) + 1 == a - b` |
| MbaSub.SubstituteComputes | llvm-tutor/mba_sub/mba_sub.cc:50-60 | running the three replacement instructions stores under the original's number exactly what the original sub computed, and changes no older value |
| MbaSub.SubstituteRun | llvm-tutor/mba_sub/mba_sub.cc:51-54 | running the replacement stores `~b`, then `a + ~b`, then `(a + ~b) + 1` modulo `2^w`, and changes nothing else |
| MbaSub.IncIsSub | llvm-tutor/mba_sub/mba_sub.cc:50-54 | the value the substitute stores last, `(a + ~b) + 1` on `w`-bit words, is what the original sub computes |
| MbaSub.RewritePreserves | llvm-tutor/mba_sub/mba_sub.cc:32-62 | the rewritten block leaves every pre-existing value as the original block leaves it |
| MbaSub.FunctionPreserves | llvm-tutor/mba_sub/mba_sub.cc:28-30 | every rewritten block keeps its number and terminator and computes every pre-existing value as before |
| MbaSub.RewriteInPlace | llvm-tutor/mba_sub/mba_sub.cc:38-60 | the original instructions keep their order. Non-candidates are unchanged. Every integer sub becomes an add, of its own number and type, of a new value and 1 |
| MbaSub.NoCandidateLeft | llvm-tutor/mba_sub/mba_sub.cc:36-61 | no integer sub remains among the original instructions |
| OpcodeCounter.Names | llvm-tutor/opcode_counter/opcode_counter.cc:30 | one opcode name per instruction, in order |
| OpcodeCounter.NamesAt | llvm-tutor/opcode_counter/opcode_counter.cc:30 | the name at each position is the opcode name of the instruction at that position |
| OpcodeCounter.Increment | llvm-tutor/opcode_counter/opcode_counter.cc:31-35 | a name not in the map gets count 1, a name in it gets one more, and every other entry is unchanged |
| OpcodeCounter.CountBlock | llvm-tutor/opcode_counter/opcode_counter.cc:29-36 | the loop over a block extends the histogram by that block's opcode names |
| OpcodeCounter.CountStep | llvm-tutor/opcode_counter/opcode_counter.cc:30-35 | counting one more instruction sets a new name's count to 1 and adds 1 to a known one |
| OpcodeCounter.CountOpcodes | llvm-tutor/opcode_counter/opcode_counter.cc:27-37 | the nested loops leave the histogram of the opcode names of all the function's instructions |
| OpcodeCounter.RunOnModule | llvm-tutor/opcode_counter/opcode_counter.cc:24-42 | there is one fresh histogram per function, each the histogram of that function alone |
| OpcodeCounter.HistogramKeys | llvm-tutor/opcode_counter/opcode_counter.cc:28-36 | a name is a key exactly when some instruction of the function has that opcode name |
| OpcodeCounter.HistogramCounts | llvm-tutor/opcode_counter/opcode_counter.cc:28-36 | every count is the number of instructions with that opcode name, and so at least 1 |
| OpcodeCounter.HistogramOrder | llvm-tutor/opcode_counter/opcode_counter.cc:56-59 | one row per key: listing the keys in first-counted order, each once, gives exactly the keys of the histogram |
| OpcodeCounter.HistogramSum | llvm-tutor/opcode_counter/opcode_counter.cc:28-37 | the counts add up to the number of instructions in the function |
| Histogram.TallyIsMultiset | llvm-tutor/opcode_counter/opcode_counter.cc:31-35 | a key is counted exactly when it occurs, and its count is its number of occurrences |
| Histogram.FirstSeenKeys | llvm-tutor/static_call_counter/static_call_counter.h:10-11 | the first-seen order lists every key once and nothing else |
| Histogram.SnocStep | llvm-tutor/static_call_counter/static_call_counter.cc:41-47 | counting one more entry bumps its count, and appends it to the first-seen order exactly when it had no count yet |
| Histogram.TallySum | llvm-tutor/static_call_counter/static_call_counter.cc:44-47 | the counts of the keys, in first-seen order, add up to the number of entries counted |
| StaticCallCounter.CountCall | llvm-tutor/static_call_counter/static_call_counter.cc:34-47 | anything but a direct call leaves the result unchanged. A callee seen for the first time is appended to the keys with count 0 and then incremented; a known one is incremented |
| StaticCallCounter.CountInstructions | llvm-tutor/static_call_counter/static_call_counter.cc:32-48 | the loop over a block extends the keys and counts by that block's direct calls |
| StaticCallCounter.CountBlocks | llvm-tutor/static_call_counter/static_call_counter.cc:31-49 | the loop over a function extends the keys and counts by that function's direct calls |
| StaticCallCounter.RunOnModule | llvm-tutor/static_call_counter/static_call_counter.cc:27-52 | the result is one map for the whole module: its keys are the direct callees in first-call order, and its counts are their numbers of direct calls |
| StaticCallCounter.CalleesMembers | llvm-tutor/static_call_counter/static_call_counter.cc:34-40 | a callee is listed exactly when some call-base instruction calls it directly |
| StaticCallCounter.CalleesCount | llvm-tutor/static_call_counter/static_call_counter.cc:34-40 | there are as many callees listed as direct call sites |
| StaticCallCounter.ResultKeys | llvm-tutor/static_call_counter/static_call_counter.h:10-11 | the printed keys are listed once each and are exactly the keys of the counts |
| StaticCallCounter.ResultCallees | llvm-tutor/static_call_counter/static_call_counter.cc:34-47 | a function has a count exactly when some instruction of the module calls it directly |
| StaticCallCounter.ResultCounts | llvm-tutor/static_call_counter/static_call_counter.cc:44-47 | every count is the number of direct calls of that function, and so at least 1 |
| StaticCallCounter.ResultSum | llvm-tutor/static_call_counter/static_call_counter.cc:30-50 | the counts add up to the number of direct call sites in the module |
| StaticCallCounter.ModuleWide | llvm-tutor/static_call_counter/static_call_counter.cc:29-50 | counts accumulate across functions: the calls counted after one more function are the earlier calls plus that function's |

## Left out

- The `main` functions are I/O and are not modelled: parsing the IR file, `verifyModule`, and writing the module back.
- The printing helpers (`PrintRivResult`, `PrintOpcodeCounterResult`, `PrintStaticCallCounterResult`) and every `errs()`/`dbgs()` message are output only.
- The pass statistics `num_deduplicate_bbs`, `overall_num_of_updated_branch_targets` and `duplicate_bb_count` only feed messages and block names, so they are not modelled.
- Building the dominator tree (`DominatorTree(func)`) is an LLVM library call. `Riv.BuildRiv` receives the tree as a parameter and requires only that it is rooted at the entry block, as a dominator tree is. The lemmas about the intended sets, and `DuplicateBB.RunOnFunction`, also assume that the tree names each block at most once.
- `SplitBlockAndInsertIfThenElse`, `Instruction::clone`, `RemapInstruction` and `ReplaceInstWithInst` are LLVM library calls. They are modelled by their effect on the block list:
  - a split gives head, then, else and tail blocks;
  - a clone is a copy with a new number;
  - remapping substitutes operands;
  - in MBA add and MBA sub, the replacement's last instruction keeps the original's number, which stands for `ReplaceInstWithInst` and its replace-all-uses step;
  - in CloneBB, each tail phi takes a fresh number, and the replace-all-uses step is a substitution through the tail map over every block of the function.
- `DeleteDeadBlock` is modelled as removing the block. Its cleanup of phi entries in successors is not modelled.
- The random number generators are replaced by injected draws.
  - In FindBBsToDuplicate, the draw for block `k` is a raw number taken modulo the set size.
  - In MBA add, `draw(c)` is the `c`-th number of the distribution. It restarts for every block, as the generator is reseeded with 1234 in every call.
- MbaAdd.Substitute: the source creates the xor and the and as two arguments of one call. C++ leaves their evaluation order, and so their order in the block, unspecified; the model places the xor first.
- MbaAdd.Substitute and MbaSub.Substitute: `IRBuilder` folds an instruction whose operands are all constants into a constant. The model always emits the full instruction sequence; the value computed is the same.
- MbaSub.Substitute: `CreateNot` is modelled as xor with the constant -1, which is what `IRBuilder` emits.
- `RunOnModule` of riv, DuplicateBB, MergeBB, MBA add and MBA sub only calls `RunOnFunction` once per function, and functions share no state in these passes. Only the per-function operation is modelled.
- riv::RunOnFunction only builds the tree and prints, so it is not modelled.
- GlobalVariable types: in LLVM, `GlobalVariable::getType()` is always an address type (`ptr`), so riv.cc:60-63 never inserts a global. The model keeps a type on each global and follows the test as written, so it covers a global of integer type as well.
- Functions are named by their name rather than by address in the call counter. The names in a module are unique, so keys and counts are the same.
- OpcodeCounter.CountOpcodes: counts are unbounded naturals, whereas the source's `unsigned` counts would wrap after 2^32 occurrences. StaticCallCounter.RunOnModule has the same limit.
- OpcodeCounter.RunOnModule: the statement that the module is only read is not written as a contract. Modules are values here, so it holds by construction.
- MergeBB.MergeDuplicatedBlock: partners are tried in function block order rather than the order of `predecessors(bb_succ)`, which depends on use lists the model does not keep. A partner must branch to the same successor, so the candidates are the same blocks; only which one wins can differ.
- MergeBB.CanMergeInstructions: `isSameOperationAs` is modelled as the same opcode, the same result type and the same number of operands. Flags and operand types are not compared.
- MergeBB.CanRemoveInst: the uses of a value are counted over the operands of the function's instructions. Uses by constants or metadata are not modelled.
- DuplicateBB.RunOnFunction: the result is stated by its shape: three new blocks per target, unique block numbers, every original block kept, and every target ending in a conditional branch. The exact function is the composition of the `CloneBB` steps, whose result `DuplicateBB.Cloned` states.
- `riv::BuildRiv` in duplicate_bb.cc:26-86 is a copy of riv.cc:38-98, with the same defect at duplicate_bb.cc:80-81, so `DuplicateBB.RunOnFunction` calls `Riv.BuildRiv`.
- OpcodeCounter.HistogramOrder: the source prints the histogram by walking a `StringMap`, whose order is a hashing detail. The model lists the keys in first-counted order instead; the rows printed are the same, only their order can differ.
- Exec.Result: an instruction other than an integer binary operator computes an uninterpreted function of its opcode, its type, its phi incoming blocks and its operand values. Memory, calls with side effects and phis choosing by the incoming edge are not modelled beyond that.
- DuplicateBB.ClonedArmComputes: the semantic equivalence of the arms is proved under SSA form (`DefinedBefore`: an operand naming an instruction of the block names an earlier one), which LLVM's verifier enforces and the model does not derive. What the tail's phis and the rest of the function compute after the diamond is not stated.
- MergeBB: the pass is parameterised by `Version`. `AsWritten` runs the tests of merge_bb.cc:36 and merge_bb.cc:150-154 as they behave; `Intended` runs them as the header and the comments describe (see Findings).
- Opcodes the passes do not test are `Other(name)`: they count under their name and are otherwise opaque. One of them is `callbr`, which LLVM also treats as a `CallBase`, so a direct `callbr` is not counted by the call counter.

## Findings

| source | as written | input that shows it | evidently intended | confidence | as-written member | corrected member |
|---|---|---|---|---|---|---|
| llvm-tutor/riv/riv.cc:92-93 | The second insert adds `parent_defs` again, and `parent_rivs` (line 79) is never read. A block only gets its immediate dominator's definitions. | Blocks 0 → 1 → 2 in a chain. Block 0 defines integer value 1. Block 2's set lacks value 1. | Insert `parent_rivs`, as the comment at line 91 says, so that definitions of every dominator reach the block. | not executed | Riv.ChainDiffers | Riv.BuildRivIntended |
| llvm-tutor/merge_bb/merge_bb.cc:150-154 | The `continue` sits inside the inner `for`, so it only moves on to the next predecessor. The test that `bb2`'s predecessors end in a branch or switch rejects nothing. | `InvokeExample`: the fourth block (number 2) is entered only from an `invoke`, yet it passes as the partner of the second block (number 1). | Skip `bb2` when a predecessor ends in neither a branch nor a switch, as is done for `bb1` at lines 118-122. | not executed | MergeBB.PartnerAsWrittenIgnoresInvoke | MergeBB.IsPartner |
| llvm-tutor/merge_bb/merge_bb.cc:36 | `dyn_cast<PHINode>(*(inst->use_begin()))` looks through the `Use` to the used value, which is `inst` itself. So the phi test holds only when `inst` is itself a phi. | Block 1 holds `%10 = add` and branches to block 2. Block 2's phi takes `%10` from block 1. The add is refused. | Test the user (`*inst->user_begin()`), as the header comment at merge_bb.h:22-26 describes. | not executed | MergeBB.AsWrittenMissesPhiUserExample | MergeBB.CanRemoveInstIff |
