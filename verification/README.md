# Verified models from llvm-project

This project models, in Dafny, the parts of llvm-project that carry the most
state: the profile runtime of BOLT, libunwind, and a delta debugger. Every
module holds a specification on values, the proofs about it, and, where the
original changes things in place, classes and loops proved against it.

- **BOLT's profile runtime** (`FlowSpec`, `FlowWalk`, `FlowValues`,
  `ProfileGraph`). Counters are kept only on the edges outside a spanning
  forest of the control flow graph; `computeEdgeFrequencies` fills in the rest
  by an explicit-stack walk of the forest, bottom-up. The reconstruction is
  exact precisely if flow is conserved where it is inferred.
  `BumpAllocator` and `GraphMemory` model its stack-like allocator, which stops
  the program unless blocks are given back last first. `MixedRadix`,
  `HashTrie` and `HashTable` show that its chained hash table is a map;
  `CounterProtocol` and `Locks` show that counters are right in every
  interleaving of threads.
- **DWARF unwinding** (`Leb128`, `AddressSpace`, `CfiDecode`, `CfiAssembler`,
  `CfiRules`, `CfiWriters`, `CfiParser` for call frame instructions;
  `Expressions`, `WordMeanings`, `ExpressionTrees`, `ExpressionChains`,
  `EvaluateExpression` for expressions).
- **Lookups** (`Chains`, `HeaderCache`, `SectionLookup` for the cache of
  unwind sections; `CompactIndex`, `CompactSearch`, `CompactLayout` for the
  two-level index of the compact unwind section).
- **Unwinding protocols and steps** (`UnwindProtocol`, `UnwindOutcomes`,
  `UnwindLevel1`, `SjljUnwind`; `EhabiOpcodes`, `EhabiUndo`, `Ehabi` for ARM; `Permutations`,
  `FramelessStep`, `CompactUnwinder` for x86-64).
- **Delta debugging** (`DeltaSpec`, `DeltaAlgorithm`).
- `Words` holds what all of them share about machine words; `Wrappers` and
  `Sequences` hold an optional value and lists without repetitions.

`dafny verify dfyconfig.toml` checks everything.

## What the code does differently from its promise

Each is stated with the exact condition, or a concrete input.

- `BumpPtrAllocator::deallocate` has a second check for pointers from `new[]`,
  which are one word further on. It compares with a top that is off by that
  word, so it never accepts one (`BumpAllocator.AcceptsOnlyLast`).
- The flags `initialStateSaved` survive from the CIE's instructions to the
  FDE's, and so does the stack of remembered rows, while the captured rules do
  not. `DW_CFA_restore` then reads uninitialized memory: of a register that the
  CIE has set (`CfiRules.RestoreReadsGarbage`), and of one whose flag is clear,
  once the FDE recalls a row of the CIE in which it is not
  (`CfiRules.RecallReadsGarbage`). It is right after every stream exactly for
  registers with a clear flag and the same rule in all rows left on the stack
  (`CfiRules.RestoreIsRightIff`).
- The second phase knows the marked frame by its stack pointer. A frame above
  it with the same one is taken for it (`UnwindProtocol.SafeIffDistinct`). The
  setjmp/longjmp variant compares contexts and has no such case.
- DWARF's order comparisons are of signed numbers (section 2.5.1.5 of DWARF 3),
  the evaluator's of unsigned ones (`ExpressionTrees.ComparisonIsSignedIff`): -1
  is not below 0 (`ExpressionTrees.MinusOneIsNotBelowZero`).
- A failed pop of double registers goes unnoticed by the ARM interpreter, and
  leaves SP where it was (`EhabiUndo.FailedPopGoesOn`), as for the bytes 0xB3 0xF1
  (`EhabiUndo.PopOfMissingDouble`).

## Assumptions

- A description BOLT writes refers to counters that exist and to nodes of its
  graph, counters are 64-bit, and on a real execution sums of frequencies are
  below 2^63 (`FlowSpec.FlowOf`). A forest has at most one uninstrumented edge
  into a node, and no tree cycles.
- Keys of the hash table are not zero and below 2^63; the two sizes are at
  least 2 and otherwise arbitrary.
- The delta debugger's test is deterministic and its changes are distinct.
- Segments of loaded objects do not overlap or wrap around; the loader's two
  counters tell loaded states apart, and are not both at their maximum at the
  first lookup.
- Locations are looked up no further than 2^64 - 2^32 from a function's start,
  so that no offset overflows in a stream; streams compared with their table
  have no `DW_CFA_set_loc`.
- A compact unwind section is well formed: pages in order, non-empty, with
  a sentinel, and within 4 GiB of the image's base without wrapping around.
- The memory a prologue used is unchanged when it is undone, and the stack does
  not reach below address zero.

## Model

| member | source | states |
|---|---|---|
| FlowSpec.OutEdgesAreListed | bolt/runtime/instr.cpp:954-978 | A node's list holds exactly its out-edges of the kind asked for, each once, in the order of the description |
| FlowSpec.InEdgesAreListed | bolt/runtime/instr.cpp:954-978 | The same for in-edges |
| FlowSpec.RootHasNoTreeInEdge | bolt/runtime/instr.cpp:1157-1160 | A node has an empty list of uninstrumented in-edges exactly if no uninstrumented edge enters it |
| FlowSpec.ForestHasOneParent | bolt/runtime/instr.cpp:1244-1250 | In a forest every other node has exactly one such in-edge, and its list gives it |
| FlowSpec.LeafIsLastRecord | bolt/runtime/instr.cpp:1141-1149 | The count looked up for a node is the counter of the last leaf record for it, and zero if there is none |
| FlowSpec.EntryIsLastRecord | bolt/runtime/instr.cpp:1150-1156 | The address looked up for a node is that of the last entry record for it, and zero if there is none |
| FlowSpec.MaxCallCounterIsLargest | bolt/runtime/instr.cpp:1085-1104 | The value taken from the calls of a node is the largest of their private counters, and zero if they have none |
| FlowSpec.ExactIffConserved | bolt/runtime/instr.cpp:1212-1271 | For any edge flow that the counters outside a spanning forest measure: the reconstruction returns it on every edge if and only if, at every node with a parent, what is observed going out equals what came in (or falls short with nothing on the parent edge, where the clamp hides it) |
| FlowSpec.NodesAndCallsAreExact | bolt/runtime/instr.cpp:1212-1234 | Then every node has the frequency observed: its last leaf record's counter or else its out-flow, bumped to its largest private call counter; every call its own counter, or else that frequency before the bump |
| FlowSpec.FlowIsConserved | bolt/runtime/instr.cpp:1212-1262 | A real execution, with node frequencies that its flow explains, meets that condition at every node |
| FlowSpec.ReconstructionIsExact | bolt/runtime/instr.cpp:1212-1271 | On a real execution every edge, node and uninstrumented call gets its frequency, and neither clamp to zero changes anything; what the leaf records count is said record by record |
| FlowSpec.CountersDetermineFlow | bolt/runtime/instr.cpp:1128-1131 | Two executions with the same counters outside a spanning forest are the same on every edge and node: those counters are enough |
| FlowWalk.WalkStarts | bolt/runtime/instr.cpp:1157-1160 | The walk starts with exactly the roots on the stack and nothing marked |
| FlowWalk.PushStep | bolt/runtime/instr.cpp:1187-1208 | Opening a node keeps the walk's invariant (stack without repetitions, no finished node on it, children above their open parents) and the stack within the number of nodes |
| FlowWalk.FinishStep | bolt/runtime/instr.cpp:1187-1210 | Closing a node keeps the invariant, finishes the node once, and all its tree children were finished before |
| FlowWalk.WalkEnds | bolt/runtime/instr.cpp:1187-1210 | When the stack is empty the finished nodes are the roots and everything below them |
| FlowWalk.AllFinished | bolt/runtime/instr.cpp:1187-1210 | Without tree cycles that is every node |
| FlowWalk.RootAbove | bolt/runtime/instr.cpp:1157-1163 | A graph with nodes and no tree cycle has a root, so the walk is not skipped |
| FlowValues.NodeIsFinal | bolt/runtime/instr.cpp:1212-1262 | When a node is closed, what the loop reads from the partly filled array gives its final frequencies |
| FlowValues.FinishKeepsEdges | bolt/runtime/instr.cpp:1244-1271 | Writing the parent edge keeps every edge below a finished node final and every other tree edge zero |
| FlowValues.FinishKeepsCalls | bolt/runtime/instr.cpp:1225-1226 | Closing a node makes its calls final and leaves the others |
| FlowValues.WorkDrops | bolt/runtime/instr.cpp:1187-1210 | Every turn of the loop makes the work left smaller, so it ends even on a description that is no forest |
| FlowValues.StateEnds | bolt/runtime/instr.cpp:1187-1272 | The loop's invariant at its end: all nodes below roots finished, all arrays final |
| FlowValues.RealFlowIsRecovered | bolt/runtime/instr.cpp:1117-1272 | Final arrays of a real execution hold its flow on every edge, its node's frequency on every call without a counter and at the address of every entry record; other entries of the table stay as they were |
| ProfileGraph.NodeToCallsMap.constructor | bolt/runtime/instr.cpp:1053-1071 | The map lists, for every node, exactly the calls made in it |
| ProfileGraph.NodeToCallsMap.VisitAllCallsIn | bolt/runtime/instr.cpp:1080-1105 | Sets the calls of one node and no others, adds what it set to the totals of their targets, and returns the largest private counter of the calls made there |
| ProfileGraph.Graph.constructor | bolt/runtime/instr.cpp:882-981 | The nodes counted are those that occur; both adjacency arrays are filled as the lists above say |
| ProfileGraph.Graph.AddEdge | bolt/runtime/instr.cpp:954-978 | One edge goes to the end of four lists at most, and nothing else changes |
| ProfileGraph.Graph.PushRoots | bolt/runtime/instr.cpp:1157-1160 | The stack holds the roots, in ascending order |
| ProfileGraph.Graph.LoadLeafFrequencies | bolt/runtime/instr.cpp:1139-1149 | The array holds, for every node, the counter of its last leaf record, or zero |
| ProfileGraph.Graph.LoadEntryAddresses | bolt/runtime/instr.cpp:1150-1156 | The array holds, for every node, the address of its last entry record, or zero |
| ProfileGraph.Graph.PushChildren | bolt/runtime/instr.cpp:1203-1207 | The stack grows by the tree children, in order, or the assertion about its size fails, exactly if they do not fit |
| ProfileGraph.Graph.OpenNode | bolt/runtime/instr.cpp:1188-1208 | One turn of the loop at a new node keeps the invariant; on a forest the assertion about the stack never fails |
| ProfileGraph.Graph.SetParentEdge | bolt/runtime/instr.cpp:1244-1271 | Writes the parent edge and nothing else; fails exactly if a node has two parents |
| ProfileGraph.Graph.FinishNode | bolt/runtime/instr.cpp:1212-1271 | Closing a node on the real arrays keeps everything final that was, and makes the node final |
| ProfileGraph.Graph.Walk | bolt/runtime/instr.cpp:1187-1272 | The explicit-stack loop; on a forest no assertion in it fails |
| ProfileGraph.Graph.ComputeEdgeFrequencies | bolt/runtime/instr.cpp:1117-1281 | The whole function on arrays: nothing is computed without a root; on a forest no assertion fails and all nodes below roots are finished; without tree cycles all results are those of the specification |
| BumpAllocator.BlocksAreDisjoint | bolt/runtime/instr.cpp:124-153 | Live blocks never overlap |
| BumpAllocator.AcceptsOnlyLast | bolt/runtime/instr.cpp:160-180 | Of the pointers that can be given for a live block, its own or the one `new[]` returns, `deallocate` accepts exactly the last block's own: the second check, written for `new[]`, never accepts one |
| BumpAllocator.BumpPtrAllocator.Allocate | bolt/runtime/instr.cpp:133-153 | Fails exactly when the reservation is used up; else one more block on top, with its magic word and size; no other word changes |
| BumpAllocator.BumpPtrAllocator.Store | bolt/runtime/instr.cpp:124-130 | A store into a live payload harms no metadata |
| BumpAllocator.BumpPtrAllocator.Deallocate | bolt/runtime/instr.cpp:160-180 | Takes the last block off, or stops the program, exactly as AcceptsOnlyLast says |
| GraphMemory.GraphPointers.AllocateNodes | bolt/runtime/instr.cpp:917-978 | What the constructor allocates, in order: both node arrays, and a buffer exactly for each kind of edges that a node has |
| GraphMemory.GraphPointers.ComputeFrequencies | bolt/runtime/instr.cpp:1117-1178 | On every path through `computeEdgeFrequencies` no deallocation is refused, and only its two results stay |
| GraphMemory.GraphPointers.Destroy | bolt/runtime/instr.cpp:983-1002 | The destructor gives back everything, in exact reverse order, with no deallocation refused |
| GraphMemory.WriteFunctionProfile | bolt/runtime/instr.cpp:1286-1366 | Whatever the description: no deallocation is refused, and unless memory runs out the allocator ends with the blocks and the top it started with |
| MixedRadix.SameResidue | bolt/runtime/instr.cpp:384-390 | Two keys that agree in all digits below a level are equal unless one of them reaches that level's weight |
| HashTrie.FindIsLookup | bolt/runtime/instr.cpp:384-410 | A search ends in the slot its key routes to, with the key's value if it has one |
| HashTrie.FillVacant | bolt/runtime/instr.cpp:398-403 | Filling a vacant slot gives the key value zero and changes no other key |
| HashTrie.SplitKeeps | bolt/runtime/instr.cpp:412-430 | Making a new level for a conflict changes no key's value, and leaves fewer levels to go |
| HashTrie.OneSlotKeeps | bolt/runtime/instr.cpp:384-431 | A change of one slot changes only keys that go through it |
| HashTrie.DepthBound | bolt/runtime/instr.cpp:384-431 | No table is ever at level 63 or deeper, whatever the two sizes |
| HashTrie.VisitIsExact | bolt/runtime/instr.cpp:358-374 | A traversal visits every key that has a value exactly once, with that value, and nothing else |
| HashTable.SimpleHashTable.GetEntry | bolt/runtime/instr.cpp:384-431 | The recursive method on arrays of slots ends, finds the key's one slot, adds the key if it was not there, and changes no other key |
| HashTable.SimpleHashTable.GetOrAllocEntry | bolt/runtime/instr.cpp:433-440 | The table is a finite map: the key gets value zero if it had none, all others stay |
| HashTable.SimpleHashTable.IncrementVal | bolt/runtime/instr.cpp:311-323 | One more for the key, modulo 2^64, starting from zero; all others stay |
| HashTable.SimpleHashTable.ForEachElement | bolt/runtime/instr.cpp:339-374 | Visits every key once with its value |
| CounterProtocol.MutualExclusion | bolt/runtime/common.h:647-692 | In every interleaving of any number of threads, at most one is inside a table |
| CounterProtocol.ValuesAreCalls | bolt/runtime/instr.cpp:311-323 | In every interleaving a target's value never exceeds the calls that got the lock; once all threads are done it equals them: all calls in conservative mode, else all but those dropped |
| CounterProtocol.FewAttempts | bolt/runtime/common.h:679-685 | No thread makes more than 99 attempts for a `TryLock` |
| CounterProtocol.OwnerLeaves | bolt/runtime/common.h:655-692 | A lock that is taken is given back within three steps of its owner |
| Locks.Mutex.Acquire | bolt/runtime/common.h:651 | Takes the lock exactly if it was free |
| Locks.Lock.constructor | bolt/runtime/common.h:661-665 | Takes the lock at the first test that finds it free, and tests no further |
| Locks.TryLock.constructor | bolt/runtime/common.h:679-685 | Tests less than 100 times; locked exactly if one of the first 99 tests finds the lock free |
| DeltaSpec.SplitCuts | clang/utils/token-delta.py:50-63 | Splitting cuts a list into two halves in order, the first rounded down, or leaves it if it has one element at most |
| DeltaSpec.RefineCuts | clang/utils/token-delta.py:77-80 | Splitting all pieces cuts the same list, and makes no more pieces only when none can be split |
| DeltaSpec.RefineAt | clang/utils/token-delta.py:77-80 | Every piece is replaced by its halves, the shorter first, in its place |
| DeltaSpec.SearchIsMinimal | clang/utils/token-delta.py:84-95 | What a search finds is 1-minimal |
| DeltaSpec.SearchGoesInside | clang/utils/token-delta.py:84-95 | The search goes into the first piece that passes alone, or else out of the first piece that can be left out of more than two, whichever comes first; what it finds is a 1-minimal part of that |
| DeltaSpec.DeltaIsMinimal | clang/utils/token-delta.py:65-82 | From a passing list whose empty part fails, the result is a part of it, and taking any one change out of it makes the test fail; the recursion ends |
| DeltaSpec.RunIsMinimal | clang/utils/token-delta.py:35-48 | Without `force`, a run fails exactly on failing changes, and otherwise returns a 1-minimal part of them |
| DeltaSpec.ForcedRun | clang/utils/token-delta.py:35-48 | With `force` a run never fails: of passing changes it returns what it does without; of failing ones a 1-minimal part, or all of them if the test fails without any one |
| DeltaSpec.MonotoneRunIsMinimum | clang/utils/token-delta.py:35-48 | If taking more changes never makes the test fail, no proper part of the result passes at all |
| DeltaAlgorithm.DeltaAlgorithm.GetTestResult | clang/utils/token-delta.py:22-33 | The cache never changes an answer, and the test is not run twice on a set that failed |
| DeltaAlgorithm.DeltaAlgorithm.DeltaFrom | clang/utils/token-delta.py:65-82 | The cached recursion computes what the uncached one does |
| DeltaAlgorithm.DeltaAlgorithm.SearchSets | clang/utils/token-delta.py:84-95 | So does the cached search |
| DeltaAlgorithm.DeltaAlgorithm.RunDelta | clang/utils/token-delta.py:35-48 | So does a whole run |
| HeaderCache.ListsAfterMove | libunwind/src/FrameHeaderCache.hpp:104-110 | Relinking entry `i` moves it to the front of the used list and leaves both lists acyclic, disjoint and together complete |
| HeaderCache.ToFrontIsPermutation | libunwind/src/FrameHeaderCache.hpp:104-110 | Moving to the front loses and repeats nothing |
| HeaderCache.LatestFirst | libunwind/src/FrameHeaderCache.hpp:88-146 | After any accesses the entries come in the order of their last accesses, the latest first |
| HeaderCache.EvictsOldest | libunwind/src/FrameHeaderCache.hpp:122-146 | A new entry takes the place of the one least recently used, if all eight are used, and of no other |
| HeaderCache.ListsAfterTake | libunwind/src/FrameHeaderCache.hpp:125-127 | Taking the first unused entry keeps the lists so |
| HeaderCache.ListsAfterEvict | libunwind/src/FrameHeaderCache.hpp:128-142 | With no unused entry all eight are used, and cutting off the last and putting it in front keeps the lists so |
| HeaderCache.FrameHeaderCache.ResetCache | libunwind/src/FrameHeaderCache.hpp:54-62 | All entries are unused |
| HeaderCache.FrameHeaderCache.CacheNeedsReset | libunwind/src/FrameHeaderCache.hpp:64-85 | Resets exactly when a counter of the loader has changed |
| HeaderCache.FrameHeaderCache.Find | libunwind/src/FrameHeaderCache.hpp:88-120 | On the sequence of contents: a hit is the first entry that covers the pc, which moves to the front; a miss changes nothing; a change of the counters empties the cache and misses |
| HeaderCache.FrameHeaderCache.Add | libunwind/src/FrameHeaderCache.hpp:122-146 | The new sections in front; of eight the least recently used goes |
| SectionLookup.OnlySegment | libunwind/src/AddressSpace.hpp:459-466 | With disjoint segments the first segment a pc lies in is the only one, in its object and in all others |
| SectionLookup.AnswersAreRight | libunwind/src/AddressSpace.hpp:440-485 | What is found for one pc is what is found for every pc in the same segment, so it may be remembered |
| SectionLookup.ScanSays | libunwind/src/AddressSpace.hpp:394-485 | An object's answer: address and size of the first loaded segment that holds the pc; address and size of the last `.eh_frame_hdr` that can be decoded, and the frames it names, of unknown size; an answer exactly if there are both |
| SectionLookup.SearchSays | libunwind/src/AddressSpace.hpp:652-654 | The search's answer is that of the first object that has one |
| SectionLookup.SectionFinder.ScanObject | libunwind/src/AddressSpace.hpp:453-479 | The two loops over the program headers give the first text segment and the last unwind header |
| SectionLookup.SectionFinder.FindUnwindSectionsByPhdr | libunwind/src/AddressSpace.hpp:440-485 | With the cache an object answers what the scan of some object answers, and never misses what its own scan would find |
| SectionLookup.SectionFinder.FindUnwindSections | libunwind/src/AddressSpace.hpp:652-654 | Over all objects, and any sequence of lookups and loads, the answer is that of the search without a cache |
| Leb128.TooLong | libunwind/src/AddressSpace.hpp:225-248 | Once a digit does not fit 64 bits, whatever follows is refused |
| Leb128.GetUnsigned | libunwind/src/AddressSpace.hpp:225-248 | The loop accepts exactly the terminated encodings of at most ten bytes of a number below 2^64, gives the number, and ends after its last byte |
| Leb128.GetSigned | libunwind/src/AddressSpace.hpp:250-268 | The loop gives the signed number of every terminated encoding of at most ten bytes, modulo 2^64 |
| Leb128.UnsignedRoundTrip | libunwind/src/AddressSpace.hpp:225-248 | Decoding inverts encoding for every 64-bit number and consumes exactly its bytes |
| Leb128.SignedRoundTrip | libunwind/src/AddressSpace.hpp:250-268 | The same for every signed 64-bit number |
| CfiAssembler.DirectiveDecodes | libunwind/src/DwarfParser.hpp:459-845 | Every directive of section 6.4.2 but the location to set, in its shortest form, is read back as what it means at its address, and exactly its bytes are consumed |
| CfiAssembler.StreamDecodes | libunwind/src/DwarfParser.hpp:454-847 | So is a stream of directives, in order |
| CfiAssembler.UnknownRegisterIsMalformed | libunwind/src/DwarfParser.hpp:490-845 | Every directive for a register above the highest one is malformed, whatever its other operands |
| CfiAssembler.OtherOpcodes | libunwind/src/DwarfParser.hpp:842-845 | Every other opcode is malformed; a location is set to what the reader of pointers finds |
| CfiRules.TableAscends | libunwind/src/DwarfParser.hpp:454-480 | The rows of the expanded table come in order of their offsets |
| CfiRules.RunIsLookup | libunwind/src/DwarfParser.hpp:439-847 | Running a stream up to a location gives the last row of its expanded table below that location; nothing after matters, malformed or not |
| CfiRules.SameRowSameRules | libunwind/src/DwarfParser.hpp:433-437 | Locations between the same two row boundaries have the same rules |
| CfiRules.RunAppend | libunwind/src/DwarfParser.hpp:454-847 | A run of two pieces is a run of the first, then of the second from where that ended; nothing if the location has been reached |
| CfiRules.BalancedBlock | libunwind/src/DwarfParser.hpp:557-583 | What follows a balanced block between a remember and its restore goes on from the row and the stack of rows that there were before the block, unless the location is inside it |
| CfiRules.LazyIsEager | libunwind/src/DwarfParser.hpp:101-127 | Over a whole stream and any interleaving of sets, remembers and restores, capturing rules on first change goes on agreeing with a snapshot taken at the start, on any set of registers that it agrees on there |
| CfiRules.StreamStarts | libunwind/src/DwarfParser.hpp:445-447 | Every stream starts in agreement on its clean registers: those whose flag is clear and whose rule every row left on the stack shares; whatever the uninitialized captured rules hold |
| CfiRules.RestoreIsRightIff | libunwind/src/DwarfParser.hpp:123-127 | Every restore, after every stream that leads up to it and whatever the uninitialized captured rules hold, gives a register the rule it had at the start of the stream, if and only if its flag is clear there and every row left on the stack by the stream before has that same rule |
| CfiRules.RestoreReadsGarbage | libunwind/src/DwarfParser.hpp:439-447 | A CIE that sets register 6 and an FDE that restores it, three bytes in all: the register gets what was by chance in uninitialized memory |
| CfiRules.RecallReadsGarbage | libunwind/src/DwarfParser.hpp:557-583 | A CIE that sets register 6, remembers the row and restores the register, and an FDE that recalls the row and restores, six bytes in all: the flag is clear when the FDE starts, and still the register gets what was in uninitialized memory |
| CfiRules.BothStreams | libunwind/src/DwarfParser.hpp:433-848 | Both streams together: the last row of the FDE's table below the location, with the rules of a snapshot where the FDE starts for every register that is clean there |
| CfiWriters.FrameIsSaid | libunwind/src/DwarfParser.hpp:584-622 | After any stream, the register, offset and expression of the frame's address and the size of the arguments are each what the last instruction that gives it says, unless a later restore takes it back; each is unchanged otherwise |
| CfiWriters.RuleIsSaid | libunwind/src/DwarfParser.hpp:101-127 | So are the place and the value of every register that can be restored; restoring it gives back its rule at the start |
| CfiWriters.RunEndsAt | libunwind/src/DwarfParser.hpp:465-488 | A stream ends at the location last set, or else where it started, moved on by the advances since |
| CfiWriters.RunFailsIff | libunwind/src/DwarfParser.hpp:455-847 | The parser gives up exactly if it arrives at a malformed instruction or at one that restores a row too many, and the program stops exactly if it arrives at one that reads outside memory |
| CfiParser.PrologInfo.CheckSaveRegister | libunwind/src/DwarfParser.hpp:101-106 | Captures the rule once |
| CfiParser.PrologInfo.SetRegister | libunwind/src/DwarfParser.hpp:107-112 | Sets one rule, capturing it first |
| CfiParser.PrologInfo.SetRegisterLocation | libunwind/src/DwarfParser.hpp:113-117 | The same for the place alone |
| CfiParser.PrologInfo.RestoreRegisterToInitialState | libunwind/src/DwarfParser.hpp:123-127 | Restores from what was captured, if anything was |
| CfiParser.Step | libunwind/src/DwarfParser.hpp:455-845 | One turn of the loop does to the description, the stack and the offset what the decoded instruction means |
| CfiParser.RunStream | libunwind/src/DwarfParser.hpp:440-847 | The loop over bytes runs the decoded stream up to the location |
| CfiParser.ParseFDEInstructions | libunwind/src/DwarfParser.hpp:417-849 | Both streams, on the description updated in place; what the uninitialized captured rules hold is arbitrary |
| UnwindProtocol.SearchVisitsAll | libunwind/src/UnwindLevel1.c:77-169 | A search calls every personality function down to where it ends once, in order, and marks the frame that answers |
| UnwindProtocol.PassVisitsAll | libunwind/src/UnwindLevel1.c:173-306 | A pass of cleanups calls them once, in order, says `_UA_HANDLER_FRAME` at the marked frame only, never goes past it, and aborts exactly if that frame goes back on its word |
| UnwindProtocol.RunIsSafe | libunwind/src/UnwindLevel1.c:419-470 | Over every run of raise, landings and resumes, whatever the personality functions answer: after the search, frames never get shallower, none is beyond the marked one, and exactly that one is told it has the handler |
| UnwindProtocol.EventsInOrder | libunwind/src/UnwindLevel1.c:173-306 | Frames of cleanups and landings never get shallower |
| UnwindProtocol.CooperationLands | libunwind/src/UnwindLevel1.c:173-306 | If personality functions keep to what the search was told and steps work, a run neither fails nor aborts |
| UnwindProtocol.DistinctIsNeeded | libunwind/src/UnwindLevel1.c:255-259 | Where a frame above the marked one has its stack pointer and a personality function, there is a run in which that frame is told it has the handler and the program aborts |
| UnwindProtocol.SafeIffDistinct | libunwind/src/UnwindLevel1.c:255-274 | All runs that mark a frame are safe if and only if no frame above it has its stack pointer and a personality function |
| UnwindOutcomes.SearchOutcome | libunwind/src/UnwindLevel1.c:77-169 | A search ends at the first frame that it does not go past, and as that frame says: handler found, end of the stack, or an error of the first phase |
| UnwindOutcomes.SearchEndsOnce | libunwind/src/UnwindLevel1.c:77-169 | Only one frame and one code fit that |
| UnwindOutcomes.UncaughtReturns | libunwind/src/UnwindLevel1.c:77-88 | If no frame has a handler, raising returns that the stack has ended, and no cleanup has been run |
| UnwindOutcomes.PassOutcome | libunwind/src/UnwindLevel1.c:173-306 | A pass ends at the first frame that it does not go past, and as that frame says: control transferred, end of the stack, an error of the second phase, or abort |
| UnwindOutcomes.PassesOutcome | libunwind/src/UnwindLevel1.c:419-470 | Raising returns an error of the second phase only if no landing pad has got control; after that a failure stops the program |
| UnwindOutcomes.RaiseOutcome | libunwind/src/UnwindLevel1.c:419-470 | The whole run: by its search, then by what its log shows |
| UnwindLevel1.Process.UnwindPhase1 | libunwind/src/UnwindLevel1.c:77-169 | The loop makes the calls of the search and leaves the marked stack pointer in the exception |
| UnwindLevel1.Process.UnwindPhase2 | libunwind/src/UnwindLevel1.c:173-306 | The loop makes the calls of a pass |
| UnwindLevel1.Process.RaiseException | libunwind/src/UnwindLevel1.c:419-439 | A search, then a pass if it marked a frame; `private_1` is cleared |
| UnwindLevel1.Process.Resume | libunwind/src/UnwindLevel1.c:454-470 | A pass from the landing frame; if it returns, the program aborts |
| UnwindLevel1.Process.Throw | libunwind/src/UnwindLevel1.c:419-470 | A whole run on the mutable exception object is a run of the protocol |
| SjljUnwind.ChainIsDistinct | libunwind/src/Unwind-sjlj.c:106-110 | A list of contexts that ends visits none twice |
| SjljUnwind.RunIsSafe | libunwind/src/Unwind-sjlj.c:121-246 | The same safety for every list of contexts, with no condition on stack pointers |
| SjljUnwind.FaithfulRunLands | libunwind/src/Unwind-sjlj.c:180-246 | If personality functions keep to what the search was told, a run neither fails nor aborts: walking the list and jumping cannot go wrong |
| SjljUnwind.UncaughtIff | libunwind/src/Unwind-sjlj.c:121-176 | The search reports the end of the stack exactly if every personality function on the list lets it go on |
| SjljUnwind.ContextStack.Register | libunwind/src/Unwind-sjlj.c:106-110 | The context goes on top, the list below stays |
| SjljUnwind.ContextStack.Unregister | libunwind/src/Unwind-sjlj.c:114-117 | The list is the one below again |
| SjljUnwind.ContextStack.Perform | libunwind/src/Unwind-sjlj.c:106-117 | Any well-nested calls of functions that register and unregister leave the list as it was, top, contexts and links |
| SjljUnwind.ContextStack.UnwindPhase1 | libunwind/src/Unwind-sjlj.c:120-176 | The search over the linked contexts; the list and its top stay |
| SjljUnwind.ContextStack.CleanUp | libunwind/src/Unwind-sjlj.c:199-239 | What a pass does at one context |
| SjljUnwind.ContextStack.UnwindPhase2 | libunwind/src/Unwind-sjlj.c:179-246 | A pass; the top moves exactly to the context that control goes to |
| SjljUnwind.ContextStack.Throw | libunwind/src/Unwind-sjlj.c:334-379 | Whole runs of throws and resumes: the top is the context of the last landing, and no context is altered |
| EvaluateExpression.GetOperand | libunwind/src/DwarfInstructions.hpp:424-510 | Operands of all instructions that push |
| EvaluateExpression.ChangeTop | libunwind/src/DwarfInstructions.hpp:572-650 | Instructions on the top, in place: only that slot changes |
| EvaluateExpression.CombineTop | libunwind/src/DwarfInstructions.hpp:580-738 | Instructions on the two topmost words, in place |
| EvaluateExpression.MoveWords | libunwind/src/DwarfInstructions.hpp:512-562 | Copies, drops and rotations of the stack |
| EvaluateExpression.Rotate | libunwind/src/DwarfInstructions.hpp:554-562 | The top goes below the two words under it |
| EvaluateExpression.DoJump | libunwind/src/DwarfInstructions.hpp:681-696 | Both jumps |
| EvaluateExpression.DoStep | libunwind/src/DwarfInstructions.hpp:396-915 | One turn of the loop on the array of 100 slots is one step of the stack machine |
| EvaluateExpression.RunLoop | libunwind/src/DwarfInstructions.hpp:396-918 | So is the whole loop |
| EvaluateExpression.Evaluation | libunwind/src/DwarfInstructions.hpp:380-918 | With the length in front of the expression |
| ExpressionTrees.SignedProduct | libunwind/src/DwarfInstructions.hpp:610-616 | Multiplying words as signed numbers and as unsigned ones is the same |
| ExpressionTrees.BinaryIsApply | libunwind/src/DwarfInstructions.hpp:580-738 | Every opcode computes its operator, modulo 2^64 |
| WordMeanings.BitWordBits | libunwind/src/DwarfInstructions.hpp:580-680 | Each bit of a conjunction, disjunction or difference is that of the bits there |
| WordMeanings.DivisionDivides | libunwind/src/DwarfInstructions.hpp:587-609 | Quotient and remainder of signed numbers: x = q y + r with the remainder smaller than the divisor and of the sign of x; no meaning exactly by zero and for the one that overflows |
| WordMeanings.PatternExtends | libunwind/src/DwarfInstructions.hpp:431-470 | A signed number of fewer bytes keeps its value |
| ExpressionTrees.TreeWorks | libunwind/src/DwarfInstructions.hpp:396-918 | The code of a tree, wherever it stands and whatever is on the stack, leaves exactly the tree's value on top; branches go to the right arm |
| ExpressionTrees.EvaluateIsEval | libunwind/src/DwarfInstructions.hpp:380-918 | For every tree of constants and addresses of all formats, registers, dereferences, operators and conditionals whose postfix form fits the stack, evaluating its encoding gives the tree's value, or ends as the tree does |
| ExpressionChains.EvaluateIsChained | libunwind/src/DwarfInstructions.hpp:380-918 | For every chain of instructions that work on the initial word, changing it or combining it with the value of a tree: evaluating its encoding gives what the chain makes of that word |
| ExpressionChains.WordsMove | libunwind/src/DwarfInstructions.hpp:512-562 | Where every word is after a copy, a drop, a swap or a rotation, counted from the top |
| ExpressionChains.CountsDown | libunwind/src/DwarfInstructions.hpp:681-696 | A loop that jumps back counts any number down to zero, in four instructions each turn |
| ExpressionChains.RunsForever | libunwind/src/DwarfInstructions.hpp:681-687 | A jump back to itself has not ended after any number of instructions |
| ExpressionChains.UnknownStops | libunwind/src/DwarfInstructions.hpp:896-915 | Any opcode of DWARF 3 that the evaluator does not know stops the program |
| ExpressionTrees.UnsignedOrderIff | libunwind/src/DwarfInstructions.hpp:705-731 | Order comparisons are of unsigned words, where section 2.5.1.5 of DWARF 3 has signed ones: they come out the same if and only if both words have the same sign |
| ExpressionTrees.ComparisonIsSignedIff | libunwind/src/DwarfInstructions.hpp:705-731 | Evaluating an encoded comparison of two signed numbers gives the signed answer if and only if both have the same sign |
| ExpressionTrees.MinusOneIsNotBelowZero | libunwind/src/DwarfInstructions.hpp:726-731 | The six bytes that ask whether -1 is below 0 evaluate to 0 |
| Ehabi.WordIsBigEndian | libunwind/src/Unwind-EHABI.cpp:30-41 | The bytes of every word are taken from the most significant down |
| Ehabi.GetAddend | libunwind/src/Unwind-EHABI.cpp:322-338 | The loop decodes a number of variable length in 32-bit arithmetic, and fails where the data ends |
| Ehabi.VirtualRegisters.PopCoreRegisters | libunwind/src/Unwind-EHABI.cpp:1067-1094 | Pops the registers of a mask in ascending order; a popped SP stays |
| Ehabi.VirtualRegisters.PopDoubleRegisters | libunwind/src/Unwind-EHABI.cpp:1099-1131 | Pops double registers, or stops at the first that does not exist |
| Ehabi.VirtualRegisters.InterpretOne | libunwind/src/Unwind-EHABI.cpp:266-425 | One instruction on the registers updated in place |
| Ehabi.VirtualRegisters.InterpretAll | libunwind/src/Unwind-EHABI.cpp:260-444 | The whole loop, with its failures, and PC set at the end |
| EhabiOpcodes.CodeDecodes | libunwind/src/Unwind-EHABI.cpp:266-425 | Every code the ABI has for undoing a push, a move of SP or a copy of it to a frame pointer decodes to that, and consumes exactly its bytes |
| EhabiOpcodes.OnlyCodesDecode | libunwind/src/Unwind-EHABI.cpp:266-425 | Nothing else decodes: an instruction is a code of what it undoes, or says that the code ends |
| EhabiOpcodes.MaskNames | libunwind/src/Unwind-EHABI.cpp:277-289 | The registers that the bytes of a mask name, bit by bit |
| EhabiOpcodes.RunNames | libunwind/src/Unwind-EHABI.cpp:301-307 | The registers that a run names: r4 up to r4 + n, and r14 if asked for |
| EhabiUndo.PopWordsRestores | libunwind/src/Unwind-EHABI.cpp:1067-1094 | Popping gives back exactly the registers of the set; SP goes where they end, unless it is one of them |
| EhabiUndo.PopPairsRestores | libunwind/src/Unwind-EHABI.cpp:1099-1131 | The same for double registers, with the extra word of the extended format |
| EhabiUndo.UndoOne | libunwind/src/Unwind-EHABI.cpp:259-444 | One instruction undoes one save, keeping all registers restored before |
| EhabiUndo.PrologueKeeps | libunwind/src/Unwind-EHABI.cpp:259-444 | What a whole prologue stores is still where unwinding looks, if the words it wrote are unchanged and no save overwrote an earlier one |
| EhabiUndo.LoweringFits | libunwind/src/Unwind-EHABI.cpp:259-444 | No save overwrites an earlier one if SP is never raised and the stack does not wrap around |
| EhabiUndo.UndoesPrologue | libunwind/src/Unwind-EHABI.cpp:259-444 | For any prologue of pushes, moves of SP and copies of it to frame pointers, and any of its codes, last save first, wherever SP is if the last thing was to copy it: every saved register and SP come back, all others stay, PC is the popped PC or else LR |
| EhabiUndo.PopPairsMovesIff | libunwind/src/Unwind-EHABI.cpp:1110-1130 | An extended pop moves SP past what was pushed if and only if no register of it is beyond the sixteenth |
| EhabiUndo.FailedPopGoesOn | libunwind/src/Unwind-EHABI.cpp:343-349 | Interpreting 0xB3 with any operand goes on to the end, never failing; SP moves past what was pushed if and only if the registers exist, and else stays |
| EhabiUndo.PopOfMissingDouble | libunwind/src/Unwind-EHABI.cpp:343-349 | The bytes 0xB3 0xF1: unwinding goes on with SP unmoved |
| CompactIndex.FlatAscends | libunwind/src/UnwindCursor.hpp:1724-1888 | The flat table that a well-formed section stands for is sorted |
| CompactIndex.ScanIsUnique | libunwind/src/UnwindCursor.hpp:1774-1775 | The linear scan's answer contains the offset, and no other entry does |
| CompactIndex.LinearIsTheFunction | libunwind/src/UnwindCursor.hpp:1954-1964 | An answer is of the one function of the flat table that contains the pc, with its start, end and encoding |
| CompactLayout.LaidOutIsWellFormed | libunwind/include/mach-o/compact_unwind_encoding.h:398-472 | A linker's table in order, laid out in memory as the header file has it, is a well-formed section |
| CompactLayout.FunctionIsFound | libunwind/include/mach-o/compact_unwind_encoding.h:398-472 | Of such a table the lookup gives, for every pc in a function, that function: its bounds, its own encoding whether common or of its page, its language-specific data and its personality routine |
| CompactLayout.OutsideIsNotFound | libunwind/include/mach-o/compact_unwind_encoding.h:398-472 | And nothing for a pc in none |
| CompactSearch.SearchIndex | libunwind/src/UnwindCursor.hpp:1729-1747 | The first loop finds the last page that starts at or before the offset |
| CompactSearch.SearchRegular | libunwind/src/UnwindCursor.hpp:1780-1801 | The second finds the entry of a regular page, and its end |
| CompactSearch.SearchCompressed | libunwind/src/UnwindCursor.hpp:1834-1850 | The third finds the entry of a compressed page |
| CompactSearch.SearchLsda | libunwind/src/UnwindCursor.hpp:1899-1917 | The fourth finds what a scan of the page's LSDA table does |
| CompactSearch.Finish | libunwind/src/UnwindCursor.hpp:1895-1964 | What follows the searches: LSDA, personality, result |
| CompactSearch.FoundIsLinear | libunwind/src/UnwindCursor.hpp:1767-1888 | An entry of a page that contains the offset is the one the linear scan of all pages finds |
| CompactSearch.OutsideIsNone | libunwind/src/UnwindCursor.hpp:1804-1819 | Before the first page and from the sentinel on the linear scan finds nothing |
| CompactSearch.GetInfoFromCompactEncodingSection | libunwind/src/UnwindCursor.hpp:1712-1965 | In a well-formed section the two-level search answers what the linear scan of the flat table answers, for every pc and both kinds of page |
| Permutations.DecodeOfEncode | libunwind/include/mach-o/compact_unwind_encoding.h:135-182 | Decoding inverts the documented encoding, for every choice and order of at most six registers, which fits ten bits |
| Permutations.DecodesIff | libunwind/src/CompactUnwinder.hpp:367-433 | A number decodes to registers if and only if it is below the count of orders; then they are different, and encoding them gives the number back |
| FramelessStep.EncodingNames | libunwind/src/CompactUnwinder.hpp:353-360 | The encoding of a choice of registers names them |
| FramelessStep.NamesAreDistinct | libunwind/src/CompactUnwinder.hpp:418-433 | Any encoding that names registers names different ones |
| FramelessStep.StepUndoesPrologue | libunwind/src/CompactUnwinder.hpp:349-488 | For every choice and order of saved registers, every register file, memory and stack size: the step gives back exactly those registers, SP before the call and the return address, and touches nothing else |
| FramelessStep.FunctionIsLeft | libunwind/include/mach-o/compact_unwind_encoding.h:195-231 | The same with registers by name and the stack by its size: eight bytes for each unit, or what the function's instruction subtracts and eight for each unit of adjustment |
| CompactUnwinder.DecompressPermutation | libunwind/src/CompactUnwinder.hpp:367-417 | The divisions give the digits of the number |
| CompactUnwinder.TakeRegister | libunwind/src/CompactUnwinder.hpp:421-433 | Counting unused registers finds the one the digit stands for, and marks it alone |
| CompactUnwinder.Renumbered | libunwind/src/CompactUnwinder.hpp:418-433 | All digits turn into registers, or none is usable |
| CompactUnwinder.RegisterFile.FramelessUnwind | libunwind/src/CompactUnwinder.hpp:480-488 | Takes the return address from its slot and SP from after it |
| CompactUnwinder.RegisterFile.StepWithCompactEncodingFrameless | libunwind/src/CompactUnwinder.hpp:349-465 | The whole step on registers updated in place; undefined encodings change nothing |

## Left out

- FlowSpec.ExactIffConserved: frequencies are compared in 64-bit signed arithmetic as the code does it, but the counters' own wrap-around while the program runs is not modelled.
- ProfileGraph.Graph.constructor: node numbers are below 2^31 as the code's casts suppose; larger ones are not modelled.
- ProfileGraph.CallFlowTable.AddCalls: the global call flow table is a map from addresses to calls and frequencies, as `HashTable` shows; its own allocator is not modelled.
- GraphMemory.WriteFunctionProfile: the decision that a function is cold is a parameter, and what is written to the file is not modelled.
- HashTable.SimpleHashTable.GetEntry: a pointer to a table is its position in a pool, so the assertions about circular references have nothing to check; `resetCounters` and running out of memory are not modelled.
- CounterProtocol.ValuesAreCalls: taking or adding the entry of a target, which happens under the lock, is one step; the allocator's own lock and the masking of signals are not modelled.
- Locks.Lock.constructor: waits for ever if the lock is never free; the model supposes that some test finds it free.
- HeaderCache.FrameHeaderCache.Find: the cache is called under the loader's lock, so it is not modelled as concurrent.
- SectionLookup.SectionFinder.FindUnwindSections: decoding an unwind header is an arbitrary function of the header's place.
- Leb128.GetSigned: a shift by 64 or more, which C++ leaves undefined, counts as stopping.
- CfiAssembler.DirectiveDecodes: `DW_CFA_set_loc`, whose operand is decoded by other code, is decoded by the parser's model but has no directive.
- CfiParser.Step: where `DW_CFA_set_loc` goes is arbitrary; `DW_CFA_AARCH64_negate_ra_state` and the SPARC instruction of the same number count as malformed; `setRegisterValue` is only used by them. Reading outside memory, and a block whose length wraps around, stop the program. Offsets wrap around where C++ leaves signed overflow undefined.
- CfiParser.ParseFDEInstructions: an allocation that fails while remembering a row is not modelled.
- CfiRules.RunIsLookup: not for streams with `DW_CFA_set_loc`, which stores an address where offsets are expected, and not where an offset overflows.
- EvaluateExpression.Evaluation: takes a bound on the number of instructions, because expressions may loop; what C++ leaves undefined (the stack's limits, division by zero, shifts by 64 or more) ends it as undefined. Signed products, absolute values and sums wrap around.
- UnwindLevel1.Process.Throw: stack pointers and personality functions of frames stay the same during a run; forced unwinding, tracing and the shadow stack are not modelled.
- UnwindLevel1.Process.Resume: not for forced unwinding.
- Ehabi.VirtualRegisters.InterpretAll: coprocessor registers (WMMX), pointer authentication and the flags that say how double registers were saved are not modelled; all of memory is readable.
- EhabiUndo.UndoesPrologue: a push of registers both below and above r4 counts as two; no register is pushed after it has become a frame pointer.
- EhabiOpcodes.OnlyCodesDecode: not for the opcode with a number of variable length, which has longer forms too.
- CompactSearch.GetInfoFromCompactEncodingSection: the overflow of the midpoint, with 2^31 or more entries, is not modelled; all of memory is readable.
- CompactUnwinder.RegisterFile.StepWithCompactEncodingFrameless: the mode with a frame pointer and 64-bit ARM are not modelled; a count of seven registers, for which the code reads digits never set, has no meaning.
- `EHHeaderParser::findFDE`, `DwarfFDECache` and `lookupIndCallTarget`: single binary searches or filters, easier than the two-level search.
- Strings, files, signals, `mmap`, and the watcher process of BOLT's runtime: input and output. A mapping is a region of fresh zeros.
- LLDB, the drivers' scripts, `hugify.cpp` and the headers of lld: no algorithm with an invariant of its own.
