# ImpulseGraph virtual machine, assembler and snapshot tools: a verified model

The repository specifies a graph virtual machine, assembles programs for it, writes test snapshots and
generates random programs from opcode contracts. This project models those parts in Dafny and proves
what they are for. `dafny verify dfyconfig.toml` checks everything.

| files | what they model |
|---|---|
| `Binary`, `Bytes`, `Sequences`, `Options` | bitwise operators on unbounded integers, little-endian bytes, concatenation, optional values |
| `Words`, `Graphs` | 64-bit lane words as sets of lanes; CSR topology and reachability over a set of arcs |
| `LaneWalks`, `LaneReductions`, `SetCover` | the multi-lane opcodes 0xC0 to 0xC9, over arrays of words and loops |
| `Machine`, `Programs` | the register machine and three programs run on it: N-1 screening, quorum search, delta-frontier search |
| `Crc`, `CrcBytes`, `Snapshots` | CRC-16 as a shift register and as GF(2) division; the v0.9 snapshot writer and a reader by the format rules |
| `Operands`, `Instructions`, `Execution`, `InlineData` | operand packing, one- and two-word emission and decoding, control flow over the emitted words, inline data and symbols |
| `Loading` | from an inline graph in the text to the topology the machine walks |
| `Interpreter`, `Screening` | running emitted words on the register machine; N-1 screening from its text to its answer |
| `Fuzzer` | the contract-guided program generator and its type tracker |

## How the model reads the sources

- A lane frontier is one 64-bit word per node. Specifications speak of the set of nodes a lane holds
  and of reachability over the arcs a lane may use, never of words. `bv64` is boxed in `Words.Word`.
- The narrower physical widths of section 6.11.1 are not distinguished: with k lanes no bit from k up is
  ever set, so the words of every width tier hold the same numbers.
- CSC walks follow the edges of the CSR topology backwards, under the same edge indices, so a trip mask
  means the same edge in both directions. A walk hands the trip masks of its source on.
- FIXPOINT keeps the seeds: the vector `tdd_45_multilane_init_and_walk_pos.impas` holds only for the
  reflexive closure. INIT_GROUPS drops group numbers from k up, which the unused-upper-bits rule forces.
- ACCUMULATE of a one-bit walk is a boolean operand: docs/VM_SPECIFICATION.md:119 gives it flag bit 1, the contract
  table (tools/contracts.json) flags value 4.
- Mov copies deeply: docs/VM_SPECIFICATION.md:381-382 alone could be read as copying a handle, but
  test-vectors/vm-impas/05_extended/tdd_04_mov_shallow_copy_bug.impas:1-25 demands that later writes stay apart.
- ReduceAttr follows docs/VM_SPECIFICATION.md:517: a lane that no non-null value reaches gets 0 under every fold, also
  MIN and MAX. The general rule at docs/VM_SPECIFICATION.md:151, which gives all-null MIN and MAX reductions MAX_INT
  and MIN_INT, speaks of scalar destination registers and is not the one modelled here.
- Section 6.3 says set operations need bit sets; the contract table and the vectors also pass node IDs,
  integers, node vectors and NULL. The model follows the table.
- The prose of JMP, JZ and JNZ reads as absolute while `tc03_control_flow_pos.impas` is relative, so the
  branch target is an arbitrary function of opcode, position and payload. RET resumes after the CALL
  whose position was saved. What registers and data decide (branch taken, instruction faults) is an
  arbitrary choice at each step in `Execution`, so its theorems hold for every program state and every data fault.
  `Interpreter` takes the fault from the register machine and decides JZ and JNZ by ZF.
- CRC-16 runs on unbounded integers as Python does; its checksum is stored little-endian in the header
  although it is the high-then-low order that makes the checksum of the whole vanish.
- Assembled flags are cut to eight bits, registers to sixteen and payloads to thirty-two, as ctypes does.
- Inline blocks are given by their names, rows and 32-bit words; the model keeps whatever order the three
  scans produce, and where `struct.pack` raises the assembler method reports failure.
- Contract masks are the integers of the table; a drawn random number is a natural number taken modulo the
  length of the list it picks from. A printed line is judged by the contract of the flags it assembles
  with, which for three variants is not the contract it was drawn from.

## Findings

- tools/run_vm_asm_suite.py:603-611: the four-operand 2-hop walk masks its first relation to sixteen bits at shift 8,
  where the second relation starts at bit 16. Read as fields of 8, 8 and 16 bits, a first relation from 256 up
  corrupts the second one (`Operands.TwoHopOverlap`, `Operands.TwoHopRoundTrip`). That reading is an assumption: the
  repository documents no decoder for the four-operand form, and 8/8/16 are the widths its shifts leave.
- tools/run_vm_asm_suite.py:486-488: symbol payloads `offset | count << 16` are not masked, so an offset or count
  beyond sixteen bits does not reach the decoder (`InlineData.SymbolRoundTrip`, `InlineData.SymbolReachesDecoder`).
- tools/fuzz_vm_contracts.py:165-231: three generator variants print or track something their governing contract does
  not allow (`Fuzzer.LineAdmissible`, `Fuzzer.ExcludedIsDrawable`). ADAPTIVE_WALK tracks a bit set
  (tools/fuzz_vm_contracts.py:217-218) although its contract writes nothing; FLOAT_VECTOR_SCALE drawn with flags 0
  prints the NULL register R0 under flags 1 (tools/fuzz_vm_contracts.py:262-263); VECTOR_ANN_SEARCH drawn with
  flags 1 is printed with flags 0 (tools/fuzz_vm_contracts.py:276-277).

## Model

| member | source | states |
|---|---|---|
| `Words.ActiveMaskOfAny` | docs/VM_SPECIFICATION.md:463-464 | as a number active_mask(k) is 2^min(k,64) - 1 for every positive k and 0 otherwise, although computed without a 64-bit shift |
| `Words.ActiveMaskLanes` | docs/VM_SPECIFICATION.md:463-464 | as a set of lanes active_mask(k) is exactly the lanes below k, for k up to 64 |
| `Words.WithinLanes` | docs/VM_SPECIFICATION.md:466 | `(w & ~active_mask(k)) == 0` holds exactly when every lane of w is below k |
| `Words.PopCountIsSize` | docs/VM_SPECIFICATION.md:503-504 | popcount, taken bit by bit, is the size of the set of lanes |
| `LaneWalks.MarkLanes` | docs/VM_SPECIFICATION.md:469-482 | after or-ing all marks, lane g holds exactly the nodes marked g, and no bit from k up is set |
| `LaneWalks.InitSeeds` | docs/VM_SPECIFICATION.md:470-473 | min(64, len) lanes, lane b holding only the b-th seed |
| `LaneWalks.FirstMembers` | docs/VM_SPECIFICATION.md:474 | of a bit set, the b-th entry has exactly b smaller members; the first 64 are taken |
| `LaneWalks.InitSeedRun` | docs/VM_SPECIFICATION.md:475 | a scalar seeds one lane, or min(64, count) contiguous ones under flag bit 0 |
| `LaneWalks.InitDefaultSeeds` | docs/VM_SPECIFICATION.md:476 | without a seed register k lanes are made, seeded 0..k-1 or only lane 0 with node 0 |
| `LaneWalks.InitGroups` | docs/VM_SPECIFICATION.md:478-482 | lane g holds exactly the nodes u that some entry pairs with g, or packs with it as g * 2^32 + u |
| `LaneWalks.SetEdgeMask` | docs/VM_SPECIFICATION.md:483-487 | an edge is tripped in a lane afterwards exactly when it was before or is listed; the lanes are unchanged |
| `LaneWalks.Hop.PushSlice` | docs/VM_SPECIFICATION.md:489-490 | after any number of edges lane b alone is the start set plus the image of its nodes over its own untripped edges |
| `LaneWalks.Walk` | docs/VM_SPECIFICATION.md:488-495 | after one step lane b holds v exactly when an edge not tripped in lane b leads there from a node the lane held, from row to target going forwards and from target to row in reverse, or v was held and ACCUMULATE is set; the upper-bits invariant stays |
| `LaneWalks.WalkToFixpoint` | docs/VM_SPECIFICATION.md:488-494 | the loop ends, and lane b holds v exactly when v is reachable in zero or more steps from lane b's nodes over the edges not tripped in lane b, each turned round in reverse |
| `LaneWalks.UnsetFalls` | docs/VM_SPECIFICATION.md:494 | absorbing a round that reaches anything new strictly shrinks the set of unset node/lane bits |
| `LaneWalks.ExploringRound` | docs/VM_SPECIFICATION.md:494 | exploring only newly reached nodes keeps the invariant that everything explored has its successors found |
| `LaneWalks.ExploringDone` | docs/VM_SPECIFICATION.md:494 | with nothing newly reached, the found set is exactly what the start set reaches |
| `LaneWalks.ReverseReaches` | docs/VM_SPECIFICATION.md:488-494 | reaching v backwards from s is reaching s forwards from v, under the same trips |
| `LaneReductions.DenyPerNode` | docs/VM_SPECIFICATION.md:498 | a deny vector removes, per node, exactly its lanes |
| `LaneReductions.DenyNodes` | docs/VM_SPECIFICATION.md:498 | a deny set removes every lane of its nodes and nothing else |
| `LaneReductions.DenyLanes` | docs/VM_SPECIFICATION.md:498 | a scalar mask removes its lanes from every node and nothing else |
| `LaneReductions.PruneSplitHalves` | docs/VM_SPECIFICATION.md:499 | a node keeps all its lanes when some lane of each half reaches it, and loses all otherwise |
| `LaneReductions.PruneWeakHubs` | docs/VM_SPECIFICATION.md:500 | a node loses its lanes exactly when more edges leave it than the bound and fewer lanes than the quorum hold it |
| `LaneReductions.FilterQuorum` | docs/VM_SPECIFICATION.md:502-506 | the bit set holds exactly the nodes held by at least min_k required lanes and by no forbidden lane |
| `LaneReductions.FilterAnyQuorum` | docs/VM_SPECIFICATION.md:505 | in standard mode min_k counts all lanes and 0 means 1 |
| `LaneReductions.ReduceAnd` | docs/VM_SPECIFICATION.md:507-509 | the mask has exactly the active lanes that hold every node u with max_nodes 0 or u below it |
| `LaneReductions.ReduceIslanded` | docs/VM_SPECIFICATION.md:507-510 | the mask has exactly the active lanes that miss some node u with max_nodes 0 or u below it |
| `LaneReductions.CountUniversal` | docs/VM_SPECIFICATION.md:507-511 | the count is the number of nodes u, with max_nodes 0 or u below it, that every active lane holds |
| `LaneReductions.ReduceAttr` | docs/VM_SPECIFICATION.md:513-517 | for each lane, over just its non-null values in node order: 0 without any, else their sum, their product, their number, or a member that bounds them all |
| `LaneReductions.ValuesInOrder` | docs/VM_SPECIFICATION.md:513-517 | a lane's list of values has one entry for each of its nodes that carries a value, in ascending node order |
| `LaneReductions.FoldExtreme` | docs/VM_SPECIFICATION.md:517 | the MIN and MAX folds return an element that bounds all others |
| `LaneReductions.FoldSumProductCount` | docs/VM_SPECIFICATION.md:517 | the ADD fold is the sum, the MUL fold the product and the COUNT fold the length |
| `LaneReductions.ReduceArg` | docs/VM_SPECIFICATION.md:518 | ARGMIN/ARGMAX return the least node ID among a lane's extremal non-null values, -1 for a lane without any |
| `SetCover.FindBest` | docs/VM_SPECIFICATION.md:520 | the scan returns a node of greatest gain, and the lowest such node ID |
| `SetCover.GreedyCover` | docs/VM_SPECIFICATION.md:519-522 | every pick is the greedy one and covers a new lane, there are at most min(max_k, k) picks, the loop stops early only when no node helps, and ZF is set exactly when lanes stay uncovered |
| `SetCover.GreedyBound` | docs/VM_SPECIFICATION.md:520 | if some m nodes cover all lanes, then m^t * u_t <= (m-1)^t * k after t greedy picks |
| `SetCover.GainBound` | docs/VM_SPECIFICATION.md:520 | the best gain is at least the uncovered count divided by the size of any cover |
| `SetCover.GreedyPrefix` | docs/VM_SPECIFICATION.md:520 | the bound holds along the run: every prefix of a greedy run is greedy |
| `SetCover.StuckMeansCovered` | docs/VM_SPECIFICATION.md:520-522 | when no node gains anything and some cover exists, nothing is uncovered |
| `Machine.SeedLanes` | docs/VM_SPECIFICATION.md:469-477 | for every allowed source type the lanes start at the seeds that type stands for |
| `Machine.Vm.LaneInitSeeds` | docs/VM_SPECIFICATION.md:469-477 | writes such a frontier to dst only, sets ZF exactly when it is empty, traps exactly on a lane frontier or a missing register; a NULL source makes 8 lanes or as many as asked for, up to 64 |
| `Machine.Vm.LaneSetEdgeMask` | docs/VM_SPECIFICATION.md:483-487 | dst gets src's lanes with exactly the edges its scalar, vector, packed vector or NULL edge register names tripped in the lanes it names; other tags trap |
| `Machine.Vm.LaneWalk` | docs/VM_SPECIFICATION.md:488-495 | the walk by its modifier flags, per lane and over rows, targets and trip masks of the bound relation, forwards for 0xC3 and in reverse for 0xC4; traps unless src is a lane frontier and rel is bound |
| `Machine.Vm.LaneFilterQuorum` | docs/VM_SPECIFICATION.md:502-506 | extended mask mode on registers: dst becomes the nodes that meet the quorum under the two Int64 masks, ZF when there are none |
| `Machine.Vm.LaneReduceIslanded` | docs/VM_SPECIFICATION.md:507-512 | bit b of dst is set exactly when active lane b misses some node u with max_nodes 0 or u below it, with ZF exactly when there is none |
| `Machine.Vm.CsrWalk` | docs/VM_SPECIFICATION.md:207-216 | dst becomes the targets of all edges leaving a node the source value names, together with the bit set dst held under ACCUMULATE; ZF when there are no targets; a lane frontier traps |
| `Machine.Vm.SetUnion` | docs/VM_SPECIFICATION.md:258-260 | dst becomes the nodes that either source value names, also when dst is a source |
| `Machine.Vm.SetDifference` | docs/VM_SPECIFICATION.md:264-266 | dst becomes the nodes that the first source value names and the second does not, also when dst is a source |
| `Machine.Vm.Mov` | docs/VM_SPECIFICATION.md:381-382 | dst gets value and tag of src; writing either later leaves the other |
| `Machine.Step` | docs/VM_SPECIFICATION.md:212-216 | the row loop computes the image of the source set over all arcs |
| `Programs.ScreenContingencies` | test-vectors/vm-impas/07_ocaml_generated/gen_domain_powergrid_n1_screening_pos.impas:34-47 | for every network, seed set, edge list and node bound: bit b of R6 is set exactly when some node u, with the bound 0 or u below it, is unreachable from seed b once lane b's edges are removed; ZF says there is none |
| `Programs.TripAll` | test-vectors/vm-impas/07_ocaml_generated/gen_domain_powergrid_n1_screening_pos.impas:37-44 | the reused registers R2 and R4 end with every listed outage attached and none else |
| `Programs.SearchByQuorum` | docs/VM_SPECIFICATION.md:469-506 | seeding from a bit set, fixpoint walk and quorum filter select exactly the nodes reached by at least min_k of the single-seed searches named by req and by none named by forbid |
| `Programs.QuorumOfSearches` | docs/VM_SPECIFICATION.md:502-504 | counting set lane bits equals counting separate searches that reach the node |
| `Programs.WalksAreDual` | docs/VM_SPECIFICATION.md:488-494 | the reverse fixpoint from s holds v exactly when the forward fixpoint from v holds s, under the same trips |
| `Programs.OtherSlotTrips` | docs/VM_SPECIFICATION.md:484-490 | edges tripped in another relation slot change no walk, whatever its flags and direction |
| `Programs.RoundNext` | test-vectors/vm-impas/06_in_depth_coverage/tdd_delta_frontier_fixpoint_pos.impas:21-24 | walking only the newest nodes gives exactly the nodes at distance h + 1 |
| `Programs.EmptyDeltaMeansClosure` | test-vectors/vm-impas/06_in_depth_coverage/tdd_delta_frontier_fixpoint_pos.impas:33-38 | once a round meets nothing new, the history is everything reachable |
| `Programs.DeltaRound` | test-vectors/vm-impas/06_in_depth_coverage/tdd_delta_frontier_fixpoint_pos.impas:22-24 | one round on the reused registers R1, R2 and R4 |
| `Programs.DeltaFrontier` | test-vectors/vm-impas/06_in_depth_coverage/tdd_delta_frontier_fixpoint_pos.impas:18-32 | after any number h of rounds R2 is the nodes within h steps and R1 those first met at step h; empty R1 means R2 is the closure |
| `Crc.BurstDetected` | tools/generate_string_fuzz_vectors.py:14-23 | every error confined to sixteen consecutive bits, at any position and length, changes the checksum |
| `Crc.FeedNonzero` | tools/generate_string_fuzz_vectors.py:18-22 | one shift step sends no nonzero register to zero |
| `Crc.RunLinear` | tools/generate_string_fuzz_vectors.py:14-23 | the register is linear over GF(2) in initial value and data together |
| `Crc.ChecksumAffine` | tools/generate_string_fuzz_vectors.py:14-23 | the checksum of a xor of three messages is the xor of their checksums |
| `Crc.AppendedChecksumGivesZero` | tools/generate_string_fuzz_vectors.py:14-23 | sixteen appended bits give checksum zero exactly when they are the checksum |
| `Crc.ChecksumParity` | tools/generate_null_vectors.py:8-17 | the checksum has the parity of the data |
| `Crc.OddFlipsDetected` | tools/generate_null_vectors.py:8-17 | an odd number of flipped bits across data and checksum never passes |
| `Crc.Division` | tools/generate_string_fuzz_vectors.py:14-23 | the register differs from the 0xFFFF-initialised message by a multiple of x^16 + x^12 + x^5 + 1 |
| `Crc.ChecksumIsRemainder` | tools/generate_string_fuzz_vectors.py:14-23 | a polynomial is a remainder of that division exactly when it is the checksum's |
| `CrcBytes.AbsorbByte` | tools/generate_string_fuzz_vectors.py:17-22 | xor into the top byte and eight conditional shifts equal clocking in the byte's bits one by one |
| `CrcBytes.Crc16` | tools/generate_string_fuzz_vectors.py:14-23 | the nested byte and bit loops compute the shift-register checksum of the message bits, below 2^16, and 0xFFFF of no bytes |
| `CrcBytes.AppendedBytesGiveZero` | tools/generate_string_fuzz_vectors.py:14-23 | high byte then low byte of a number appended give zero exactly when it is the checksum |
| `CrcBytes.NeighbouringBytesDetected` | tools/generate_string_fuzz_vectors.py:14-23 | any change to one byte or two neighbouring bytes changes the checksum |
| `Bytes.FromLeLe` | tools/generate_string_fuzz_vectors.py:36-42 | a little-endian field reads back exactly when the value fits it |
| `Bytes.LeDigits` | tools/generate_string_fuzz_vectors.py:36-42 | byte i of a little-endian field is the i-th digit of the value to base 256 |
| `Snapshots.Buffer.Align` | tools/generate_string_fuzz_vectors.py:25-28 | zero bytes up to the next multiple and no further |
| `Snapshots.BuildHeader` | tools/generate_string_fuzz_vectors.py:34-45 | a 4096-byte page with the fields at their offsets, zero elsewhere, and a checksum that holds |
| `Snapshots.BuildDirectory` | tools/generate_string_fuzz_vectors.py:47-67 | pool length, pool, padding to 128, sixteen-byte records, padding to 4096 |
| `Snapshots.BuildSnapshot` | tools/generate_string_fuzz_vectors.py:30-72 | succeeds exactly when every field fits; the file then holds each header field, the pool, each record and zeros everywhere else at the offsets of the format, and reads back as the same pool and records |
| `Snapshots.ReadBack` | docs/FORMAT_SPECIFICATION.md:85-101 | reading header page and directory by the format rules recovers the catalog |
| `Snapshots.DamagedHeaderRejected` | tools/generate_string_fuzz_vectors.py:44-45 | one or two neighbouring damaged bytes in the checksummed header make the reader reject the file |
| `Operands.PackOperands` | tools/run_vm_asm_suite.py:575-616 | the or-ing loop computes the layout's packing |
| `Operands.PackIsSum` | tools/run_vm_asm_suite.py:575-616 | fitting operands of a layout in ascending order add up, each times the weight of its field |
| `Operands.PackRoundTrip` | tools/run_vm_asm_suite.py:575-616 | in a layout without overlaps operands read back exactly when each fits its field |
| `Operands.ExtractPacked` | tools/run_vm_asm_suite.py:575-616 | each field reads back its operand cut to the field's width, whatever the others are |
| `Operands.DisjointIsNecessary` | tools/run_vm_asm_suite.py:575-616 | a layout preserves all fitting operands exactly when its fields do not overlap |
| `Operands.DocumentedLayouts` | tools/run_vm_asm_suite.py:551-738 | the 16/16, 8/8/16, 16/8/8, 8/8/8/8 and 8/16 layouts do not overlap, the written 2-hop layout does |
| `Operands.PairLayouts` | tools/run_vm_asm_suite.py:551-738 | the 16/16 and 8/16 layouts as numbers |
| `Operands.BytesThenHalf` | tools/run_vm_asm_suite.py:599-602 | the 8/8/16 layout as a number |
| `Operands.HalfThenBytes` | tools/run_vm_asm_suite.py:551-738 | the 16/8/8 layout as a number |
| `Operands.FourBytes` | tools/run_vm_asm_suite.py:733 | the 8/8/8/8 layout as a number |
| `Operands.PackBound` | tools/run_vm_asm_suite.py:762 | `payload & 0xFFFFFFFF` loses nothing of fields that end by bit 32 |
| `Operands.TwoHopOverlap` | tools/run_vm_asm_suite.py:603-611 | what the 8/8/16 decoder reads from any 2-hop operands: the first relation's high byte is or-ed into the second relation |
| `Operands.TwoHopRoundTrip` | tools/run_vm_asm_suite.py:603-611 | the 2-hop operands read back exactly when the first relation is below 256 and the others fit |
| `Instructions.Emit` | tools/run_vm_asm_suite.py:752-762 | the appended list is the concatenation of each line's one or two words |
| `Instructions.WordsOfLine` | tools/run_vm_asm_suite.py:752-762 | a second word follows a line's head exactly when the upper half of its payload exceeds 255 and the opcode is one of the nine named; it then holds that ID and nothing else, the head being marked and keeping the lower half; otherwise the head holds the whole payload |
| `Instructions.LargeIdsTakeTwoWords` | tools/run_vm_asm_suite.py:752-762 | an unmarked word of the nine opcodes holds its ID, at most 255; a marked one's ID is above 255 and stands in the next word |
| `Instructions.HeadCountsExtended` | tools/run_vm_asm_suite.py:752-762 | line i starts at word i plus the number of two-word lines before it |
| `Instructions.HeadHolds` | tools/run_vm_asm_suite.py:752-762 | the words from a line's head on are that line's words |
| `Instructions.DecodeHeld` | docs/VM_SPECIFICATION.md:94-112 | where a line's words lie, the FLAG_EXTENDED rule reads its opcode, flags, register, 32-bit payload and width |
| `Instructions.DecodedInRange` | docs/VM_SPECIFICATION.md:94-112 | whatever is decoded has flags below 0x80 and a 16-bit register |
| `Instructions.DecodeEmitted` | tools/run_vm_asm_suite.py:752-762 | decoding the emitted words returns the source lines, for any mix of widths, exactly when no line uses flag bit 7 or a register beyond sixteen bits |
| `Instructions.OperandsReachDecoder` | tools/run_vm_asm_suite.py:575-762 | operands packed in a disjoint 32-bit layout are unpacked intact at the other end, also through the two-word form |
| `Instructions.CutInsideLine` | docs/VM_SPECIFICATION.md:97-99 | in a stream cut off inside a two-word line nothing is decoded at that line |
| `Instructions.ExtensionIsNeeded` | docs/VM_SPECIFICATION.md:97-99 | a marked word is decoded only together with an extension word right after it |
| `Execution.Context.Step` | docs/VM_SPECIFICATION.md:26-29 | one fetch, decode and execute: pc, call stack, fuel and status become those of the step function, which the rows below give opcode by opcode |
| `Execution.JumpGoes` | docs/VM_SPECIFICATION.md:322-323 | JMP goes to its target, taken or not |
| `Execution.BranchGoes` | docs/VM_SPECIFICATION.md:324-329 | JZ, JNZ and LOOP_DECR go to their target exactly when taken, else to the next line |
| `Execution.CallGoes` | docs/VM_SPECIFICATION.md:332-334 | CALL saves pc and goes to its target with fewer than eight calls open, else stops with a stack overflow |
| `Execution.ReturnGoes` | docs/VM_SPECIFICATION.md:335-336 | RET resumes, running, right after the call saved last |
| `Execution.ReturnUnderflows` | docs/VM_SPECIFICATION.md:335-337 | RET with no call open stops with a stack underflow |
| `Execution.OthersGoOn` | docs/VM_SPECIFICATION.md:26-29 | every other instruction that does not fault goes on to the next line, at one unit of fuel |
| `Execution.HaltsAndFaults` | docs/VM_SPECIFICATION.md:29 | HALT stops normally, a fault with its own code, pc staying |
| `Execution.NothingToExecute` | docs/VM_SPECIFICATION.md:348-350 | without fuel the run stops as exhausted, past the last word as out of bounds |
| `Execution.CutOffNeverRuns` | docs/VM_SPECIFICATION.md:322-337 | a line after a jump, return or halt that no branch targets is never reached in any run |
| `Execution.CallReturns` | docs/VM_SPECIFICATION.md:332-337 | a call whose body reaches a return with its frame open goes on, running, at the line after the call with the caller's stack |
| `Execution.StopKeepsPc` | docs/VM_SPECIFICATION.md:29 | a step that halts or faults leaves pc and the call stack where they were |
| `Execution.StoppedAtItsInstruction` | docs/VM_SPECIFICATION.md:29 | in every run that has stopped, pc is still the position of the instruction that stopped it |
| `Execution.Context.Execute` | docs/VM_SPECIFICATION.md:348-350 | the loop ends within one step more than the fuel and is the run of the steps it took |
| `Execution.RunBounds` | docs/VM_SPECIFICATION.md:80-81 | in every run of every program the call depth stays at most eight and fuel falls by one per executed step |
| `Execution.FuelStops` | docs/VM_SPECIFICATION.md:349-350 | after F + 1 steps with fuel F nothing runs any more |
| `Execution.ReturnUndoesCall` | docs/VM_SPECIFICATION.md:332-337 | whatever happens while a frame stays on the stack, popping it resumes after its call with the caller's stack |
| `Execution.WordKinds` | docs/VM_SPECIFICATION.md:97-99 | every emitted word is a head or an extension word, never both |
| `Execution.DecodesExactlyAtHeads` | docs/VM_SPECIFICATION.md:97-99 | an instruction can be fetched exactly at the heads of source lines |
| `Execution.TombstoneStops` | docs/VM_SPECIFICATION.md:99 | a branch into a two-word line stops at once with the invalid-opcode status, executing nothing |
| `Execution.RunMatches` | docs/VM_SPECIFICATION.md:322-337 | with branches to lines, every run over the words is step for step the run over source lines |
| `Execution.PcStaysOnHeads` | docs/VM_SPECIFICATION.md:97-99 | in such a run pc never rests on an extension word |
| `Execution.LandsInsideExactlyByBranch` | docs/VM_SPECIFICATION.md:97-99 | no step from a line lands inside a line exactly when no branch targets an extension word |
| `InlineData.CollectRows` | tools/run_vm_asm_suite.py:329-346 | the row loop builds the offsets, the flat targets and the node count |
| `InlineData.Assembler.PackWords` | tools/run_vm_asm_suite.py:348-351 | appends four bytes per word, or fails exactly on a word struct.pack rejects |
| `InlineData.Assembler.Pad` | tools/run_vm_asm_suite.py:359-360 | keeps all bytes and appends zero bytes up to the next multiple of four, none when already there |
| `InlineData.Assembler.AddGraph` | tools/run_vm_asm_suite.py:325-352 | appends offsets then targets and records start and node count |
| `InlineData.Assembler.AddValues` | tools/run_vm_asm_suite.py:355-386 | pads, appends the words and records start and element count |
| `InlineData.Assembler.Assemble` | tools/run_vm_asm_suite.py:322-386 | succeeds exactly when every word fits; data section and symbol table are those of the blocks |
| `InlineData.RegionOf` | tools/run_vm_asm_suite.py:325-386 | each block's region is four-byte aligned, in bounds and still holds its bytes after all later blocks |
| `InlineData.RegionsDisjoint` | tools/run_vm_asm_suite.py:325-386 | regions follow one another without overlap |
| `InlineData.SymbolIsLast` | tools/run_vm_asm_suite.py:352-386 | a symbol stands for the last block of its name |
| `InlineData.GraphReadsBack` | tools/run_vm_asm_suite.py:325-352 | a graph region reads back its rows in order, and is valid CSR exactly when every target is a node |
| `InlineData.SymbolRoundTrip` | tools/run_vm_asm_suite.py:486-488 | the unmasked payload gives back offset and count exactly when both are below 2^16 |
| `InlineData.SymbolReachesDecoder` | tools/run_vm_asm_suite.py:486-488 | a line that carries a symbol is decoded with its offset and count exactly when both are below 2^16 |
| `InlineData.BlockReadsBack` | tools/run_vm_asm_suite.py:325-386 | where a block starts in the final data section its words or rows read back, whatever comes after it |
| `InlineData.SymbolFindsBlock` | tools/run_vm_asm_suite.py:325-488 | the operands decoded from an emitted line that carries a fitting symbol locate an aligned region that reads back as the block's rows or values |
| `Loading.LoadedGraphHasSourceArcs` | docs/VM_SPECIFICATION.md:197-201 | the graph found through the operands a line is decoded with, in the final data section, is valid and has exactly the arcs written in the text |
| `Interpreter.Interpret` | docs/VM_SPECIFICATION.md:94-112 | running emitted words on the register machine is a run in which each step performs exactly the instruction decoded at pc, a fault changes no register, and the last step stops it |
| `Interpreter.HalvesWords` | tools/run_vm_asm_suite.py:575-762 | words of six opcodes with their payload as low plus 65536 times high half mean those operands, 0xC4 a reverse walk |
| `Interpreter.OtherWords` | tools/run_vm_asm_suite.py:575-762 | a SET_EDGE_MASK word means src, edge register and relation at weights 1, 256 and 65536 |
| `Interpreter.WalkWord` | docs/VM_SPECIFICATION.md:488-491 | performing a one-step walk word leaves v in lane b of dst exactly when an edge not tripped in lane b leads there, from row to target for 0xC3 and from target to row for 0xC4 |
| `Interpreter.FaultCodes` | docs/VM_SPECIFICATION.md:465 | code 6 exactly for register operands that are missing or of a wrong type, code 2 for what is out of bounds |
| `Interpreter.ZeroBranches` | docs/VM_SPECIFICATION.md:324-327 | wherever they stand in a run, JZ goes to its target exactly with ZF set and JNZ exactly with ZF clear, else to the next line, and no register changes |
| `Interpreter.SeedsInBounds` | docs/VM_SPECIFICATION.md:469-477 | a lane initialisation is in bounds exactly when every node it would seed is a node |
| `Screening.LineMeansOp` | tools/run_vm_asm_suite.py:575-762 | every source line of the screening program decodes and unpacks to the operation it was written for |
| `Screening.EmittedFollowsText` | tools/run_vm_asm_suite.py:752-762 | every step of a run over the emitted words performs the operation of the source line it stands at and goes on to the next line |
| `Screening.RunScreens` | test-vectors/vm-impas/07_ocaml_generated/gen_domain_powergrid_n1_screening_pos.impas:33-47 | every run of the emitted program on data that holds a graph and seeds halts normally with the screening mask in R6 and ZF exactly when it is empty |
| `Screening.SurvivingIsText` | test-vectors/vm-impas/07_ocaml_generated/gen_domain_powergrid_n1_screening_pos.impas:22-30 | the arcs the machine walks with some edges tripped are the arcs written in the text less those at the tripped edge numbers |
| `Screening.AssembleAndScreen` | test-vectors/vm-impas/07_ocaml_generated/gen_domain_powergrid_n1_screening_pos.impas:22-47 | assembling the blocks, emitting the lines and running the words on the data leaves in R6 the bits b of the scenarios in which some node u, with max_nodes 0 or u below it, is unreachable from seed b over the arcs listed in the text less the edges of lane b |
| `Fuzzer.PossibleTypes` | tools/fuzz_vm_contracts.py:74-79 | the loop lists exactly the tags of the mask, ascending |
| `Fuzzer.EligibleRows` | tools/fuzz_vm_contracts.py:137-160 | the list holds exactly the contracts whose nonzero, non-skippable masks some register serves, in the order of the file |
| `Fuzzer.LinesPrinted` | tools/fuzz_vm_contracts.py:137-204 | a line with given contract, destination and operands can be drawn next exactly when the contract is in the file, its masks can be served, the destination is R10 to R31 and the operands hold admitted types, NULL only in R0; a skippable operand may be 0 |
| `Fuzzer.SetOperandsDenoteSets` | tools/fuzz_vm_contracts.py:141-144 | set operations read only registers tracked as integers, nodes, bit sets, node or ID vectors, or lane frontiers |
| `Fuzzer.Track` | tools/fuzz_vm_contracts.py:206-230 | the tracked type assigned to dst, by mnemonic |
| `Fuzzer.TrackedResult` | tools/fuzz_vm_contracts.py:206-226 | a move copies the source's type, vector maths is scalar exactly on scalars, and the other fixed results are as listed |
| `Fuzzer.ResultsDrawn` | tools/fuzz_vm_contracts.py:227-230 | a drawn result can be each tag of the contract's output mask and nothing else |
| `Fuzzer.SourceFits` | tools/fuzz_vm_contracts.py:178-182 | the printed source register holds a type the governing contract admits |
| `Fuzzer.OperandRead` | tools/fuzz_vm_contracts.py:266-267 | a seeding line is printed with R0, which stays NULL, whatever source was drawn; other lines with the drawn source |
| `Fuzzer.LineAdmissible` | tools/fuzz_vm_contracts.py:165-231 | a printed line is admissible under its governing contract exactly when it is not one of the three excluded variants |
| `Fuzzer.ExcludedIsDrawable` | tools/fuzz_vm_contracts.py:137-165 | the excluded variants are eligible in every reachable tracker state |
| `Fuzzer.Generate` | tools/fuzz_vm_contracts.py:94-234 | the loop prints exactly the program its draws select one by one, each from the contracts eligible in the state the lines before it leave, and stops early only when nothing is eligible |
| `Fuzzer.ProgramIsContractRun` | tools/fuzz_vm_contracts.py:94-234 | for every sequence of draws the program is a contract run from the preamble, each line admissible exactly when not excluded, with R0 to R6 keeping their types |

## Left out

- Machine.Vm: one node domain only, so every bound relation has the same number of nodes; handles, pooling and width tiers are values.
- Machine.Vm.LaneInitSeeds: seeds at or beyond the node count are required away; the domain meaning of `k_or_dom` for vectors and bit sets is not used.
- Machine.Vm.LaneSetEdgeMask: packed entries that name a lane from 64 up are required away.
- Machine.Vm.LaneFilterQuorum: a skipped (zero) mask register, which the contract table allows without saying what it stands for, is not modelled.
- Machine.Vm.Mov: values are not handles, so a shallow copy that the deep-copy vector rules out cannot be expressed.
- Interpreter.Interpret: performs the nine opcodes that load graphs, sets and integers, seed, trip, walk, reduce and halt, and JMP, JZ, JNZ, CALL and RET; any other, LOOP_DECR among them, stops the run with a fault of its own.
- Screening.AssembleAndScreen: the lines are those of the screening program for any outages and node bound; their text is not tokenised.
- LaneWalks.InitGroups: a NULL nodes register, for which the specification gives no seeds, is not modelled.
- LaneReductions.ReduceAttr: attribute values are integers with an optional null instead of floats with NaN, so rounding and infinities are not covered.
- SetCover.GreedyCover: flags 0 only; for flags 1 the contract table says an exact pair cover and the specification a cost weighting.
- Snapshots.BuildSnapshot: byte layout only, for natural-number name offsets; the manifest, the SHA-256 and the file writes are not modelled.
- Execution.Context.Step: registers, flags and frames are abstracted into the choice at each step; register windowing is left out because prose and vectors describe different mechanisms.
- InlineData.Assembler.Assemble: starts from parsed blocks; tokenising, float rounding to 32 bits, `.rel` and `.vrel` directives are not modelled.
- Fuzzer.Generate: the second auxiliary register is drawn but never printed and is omitted; printed numerals and the surrounding text are not modelled.
- Floating-point opcodes, vector search and rerank, edge streams, the math catalogue and the opcodes the specification describes in one line.
- Native libraries, subprocesses, command lines, reports, code generation templates, concurrency and `max_dop`.
- The null-vector snapshot's attribute and bitmap sections, one fixture of fixed size.
