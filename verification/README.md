# Verification of the SiByte CPU support code

Dafny 4.11 models of the parts of this repository whose correctness is hardest to see, with
proofs. `dafny verify dfyconfig.toml` checks everything.

The project has four parts.

**Unaligned accesses** (`Mips.dfy`, `UnalignedHandler.dfy`, `UnalignedSimulation.dfy`,
`AssembledCode.dfy`).
`Mips` is the reference: MIPS64 Volume II, chapter 3, and the MIPS-3D pages for BC1ANY2 and
BC1ANY4. The functions that specify the handlers share its instruction fields, its byte-wise
accesses and the decoding of the branches on which the two agree; the handler code decodes for
itself. `UnalignedHandler` is the handler code over
a trap frame and memory that it updates in place, each method proved equal to a function of
the machine state the frame stands for. `UnalignedSimulation` runs two machines side by side:
a strict one that traps and runs the handlers, and a native one. All instructions other than
branches and the eight emulated accesses are one arbitrary function shared by both. Hardware
may write a branch's link register before or after it saves the frame of an exception in the
delay slot; both are covered (`late`). Main results: the two machines stay in lockstep for n
steps if and only if no emulated step loses a value of $31, or a link or its use (`RunExact`),
and a check of the code that guarantees it (`RunSimulation`). `AssembledCode` says the same from
the assembler's side, naming no decoding function: for every mnemonic and every operands where
the handlers go on, and what they load and store byte by byte.

**TLB reset** (`Tlb.dfy`, `TlbMatch.dfy`, `TlbUtils.dfy`). The TLB is an array of entries behind the register
interface of `tlb.h`; a write after which two entries overlap sets `shutdown` for good.
Main results: for any size and any overlap-free contents the safe reset never shuts the TLB
down after any single write, makes at most 4n writes, and leaves exactly the documented
entries; the unsafe reset does so if and only if no entry sits at a page an earlier one is
given (`InitTlb`).

**Locks** (`Spinlock.dfy`, `Semaphore.dfy`). Every instruction of the assembly, delay slots
included, is one step of one of any number of threads; a reservation may vanish at any time
and SC may fail for no reason. Main results: mutual exclusion, the counting invariant,
refinement of an atomic lock and an atomic counter over whole runs, and that every call that
returns does exactly one atomic action between its first instruction and its return: a lock
returns only with the lock, a trylock with it exactly when it returns zero.

**TLB-backed heap** (`PairSizes.dfy`, `HeapPlan.dfy`, `HeapRegions.dfy`, `HeapEntries.dfy`,
`HalfEntries.dfy`, `HeapLimit.dfy`, `TlbAlloc.dfy`, `HeapUse.dfy`), with the register encodings (`BitFields.dfy`,
`TlbConvert.dfy`). `TlbAlloc` is the code of `__libcfe_meminit` and `sbrk`; the other modules
say what it computes. Main results: the entries tile the heap, each the largest that fits and
made only while the waste allowed is left; their number and the end of the heap follow from the
regions; physical memory is conserved; over a TLB that held nothing at user addresses, every byte
`sbrk` ever hands out hits exactly one entry, which is valid whenever
`MAX_WASTED_PAGESIZE_INDEX` is above 12 or no region leaves a single page over; registers made
of disjoint fields give every value back if and only if every value fits.

## What turned out false

For each of these there is a lemma with a concrete input, named first, and one with the exact
condition under which the code does what it is for.

- JALR through a register other than $31 with an unaligned access in its delay slot: the
  handler sets $31 (`JalrThroughR5Differs`; `RunExact`).
- If the frame of a delay-slot exception does not have the link yet, the handlers lose the link
  of a BLTZAL or BGEZAL that is not taken (`BltzalNotTakenLosesLink`; `LateSlotExact`), and an
  access that names $31 uses its old value (`JalStoreOfLinkDiffers`; `LateSlotExact`).
- BC1ANY2 and BC1ANY4 with a condition-code number that is not a multiple of 2 or 4: the mask
  runs past code 7 and a branch on false is always taken (`Bc1any2PastCode7`;
  `CondTestMeaning`). The architecture reserves these encodings.
- The fast TLB reset shuts the TLB down after firmware that used the same range in the
  opposite order (`ReversedFirmwareClashes`; `InitTlb`), as `tlb_inval.txt` warns.
- A program on a board too small for what is reserved for it: the region's length wraps around
  (`TrimWraps`; `TrimExact`), and the stack top can land outside K0 (`StackLeavesK0`;
  `NewTopExact`, and `RoomyStaysInK0`: not if the region is long enough).
- `VA_START` is documented as any page; only multiples of 8 KB give entries with legal sizes
  (`OnePageStart`; `LegalExactlyWhenAligned`).
- The mapping loop does not align physical addresses to the page size it picks, and the
  hardware drops the low bits: after trimming, the first heap address reaches the guard page
  (`GuardPageInHeap`; `TranslateExact`).
- With `MAX_WASTED_PAGESIZE_INDEX` 12 a single left-over page becomes part of the heap through
  an entry with its valid bits clear (`OnePageHeap`; `HeapServedExact`, whose condition is on
  the regions and settings alone).
- `sbrk` grants a request of less than minus the current limit, because the sum wraps
  (`WrapGranted`; `BoundsKept`).
- `tlbconvert` shows a 4 KB page as 8 KB (`PageSizeReturned` gives both the case and the exact
  condition).
- The Wired register is set to one less than the number of entries used, so the last one is
  left to random replacement (`OnlyEntryNotWired`; `WiredExactly`).

Where the code asks or does more than it says: `init_tlb` needs only an 8 KB-aligned base, less
than its comment asks for, and `sbrk` never hands out the last byte of the heap
(`GrantMeaning`).

## Model

| member | source | states |
|---|---|---|
| Words.SignedMeaning | unaligned/unhandler.c:143-146 | a word read as two's complement is the number of the same residue between minus and plus half the modulus |
| Mips.BytesRoundTrip | unaligned/unhandler_exlib.h:87-88 | spelling a number in n bytes and reading them back keeps its value modulo 256^n, in either byte order |
| Mips.ReadAfterWrite | unaligned/unhandler_exlib.h:87-88 | bytes copied out are the bytes copied in again, at any address even across the end of the address space; other bytes and the set of mapped addresses are unchanged |
| Mips.ToBytesOrder | unaligned/unhandler.c:536-580 | which byte of the number stands where: least significant last in big-endian order, first in the other |
| Mips.FromBytesOrder | unaligned/unhandler.c:360-430 | the same for reading |
| UnalignedHandler.TrapFrame.GetReg | unaligned/unhandler_exlib.h:72 | a register reads as in the register file the frame stands for: zero for $0 although its slot holds the saved PC, the saved value for the others |
| UnalignedHandler.TrapFrame.SetReg | unaligned/unhandler_exlib.h:73-79 | a write to $0 changes nothing, any other write changes that register only |
| UnalignedHandler.DelaySlotBit | unaligned/unhandler.c:295 | Cause.BD is the top bit of the cause |
| UnalignedHandler.CondTestBits | unaligned/unhandler.c:200-236 | the mask test is the disjunction of single-bit tests, for every FCSR, count and position |
| UnalignedHandler.CondTestMeaning | unaligned/unhandler.c:200-236 | BC1, BC1ANY2 and BC1ANY4 branch iff some selected condition code equals TF, except iff the mask leaves code 7 behind and TF is false |
| UnalignedHandler.JumpTargetIs | unaligned/unhandler.c:183-184 | the target of J and JAL, computed with a mask, a shift and an or, is the region of the delay slot plus four times the index |
| UnalignedHandler.Bc1any2PastCode7 | unaligned/unhandler.c:204-235 | a reserved BC1ANY2F word and an FCSR for which the handler branches although no code it selects is false |
| UnalignedHandler.LenientDecodeAgrees | unaligned/unhandler.c:118-266 | every branch of the architecture is accepted as itself up to the link register of JALR; exactly which other words are accepted |
| UnalignedHandler.RegimmCondition | unaligned/unhandler.c:140-178 | condition and link of the REGIMM branches, with registers as the branch saw them; fails on all other encodings |
| UnalignedHandler.CompareCondition | unaligned/unhandler.c:188-198 | the comparing branches decide as their decoding says, signed comparisons included |
| UnalignedHandler.FpCondition | unaligned/unhandler.c:200-240 | the COP1 arm decides by the condition codes, and rejects likely forms of BC1ANY2 and BC1ANY4 |
| UnalignedHandler.JumpNext | unaligned/unhandler.c:121-186 | JR, JALR, J and JAL: target and link |
| UnalignedHandler.CalculateNextPc | unaligned/unhandler.c:72-278 | new PC and link request are those of the reference branch in the delay-slot case, old PC + 4 otherwise; fails exactly when there is no such branch |
| UnalignedHandler.LoadWidth | unaligned/unhandler.c:355-434 | width and signedness agree with the architecture's decoding for the five loads; all others are fatal |
| UnalignedHandler.StoreWidth | unaligned/unhandler.c:531-588 | the same for the three stores |
| UnalignedHandler.UnalignedLoadHandler | unaligned/unhandler.c:280-459 | a fatal exit leaves every register and the PC alone; otherwise the frame is the one of the emulation, branch effect taken before the load |
| UnalignedHandler.UnalignedStoreHandler | unaligned/unhandler.c:461-613 | the same for stores, memory included |
| AssembledCode.EqualBranches | unaligned/unhandler.c:188-198 | beq and bne with any registers and operand d in [-2^15, 2^15): the handlers go on d instructions past the delay slot if the registers are equal, or different, else just past it; no link |
| AssembledCode.ZeroBranches | unaligned/unhandler.c:188-198 | the same for blez and bgtz, a register being negative iff it is 2^63 or more |
| AssembledCode.SignBranches | unaligned/unhandler.c:140-178 | the same for bltz, bgez, bltzal and bgezal; the last two link iff taken |
| AssembledCode.LikelyBranches | unaligned/unhandler.c:151-262 | all likely integer branches go to their target |
| AssembledCode.CodeBranches | unaligned/unhandler.c:200-240 | bc1, bc1any2 and bc1any4, true and false: taken iff one of the codes selected, bits 23 and 25 to 31, has that value |
| AssembledCode.LikelyCodeBranches | unaligned/unhandler.c:200-222 | bc1fl and bc1tl go to their target |
| AssembledCode.Jumps | unaligned/unhandler.c:121-186 | j and jal go to the 256 MB region of the slot plus four times the index, jr and jalr to the register; jal and jalr link |
| AssembledCode.FetchSpells | unaligned/unhandler.c:96 | the word decoded is w iff the four bytes are those of w in the byte order of the machine; fails iff a byte is not mapped |
| AssembledCode.LoadAssembled | unaligned/unhandler.c:280-459 | lh, lhu, lw, lwu, ld: fails iff a byte is not mapped; else the bytes of rt are memory's at base + d, place by place, above them zeros or copies of the sign; $31 is the branch plus 8 if linked; nothing else changes |
| AssembledCode.StoreAssembled | unaligned/unhandler.c:461-613 | sh, sw, sd: fails iff a byte is not mapped; else byte k of rt is at its place, other memory and registers are unchanged, $31 as above |
| AssembledCode.TrapsExactly | unaligned/unhandler.c:280-613 | on the strict machine these accesses come to their handler iff the address is not a multiple of the width |
| AssembledCode.OthersAreFatal | unaligned/unhandler.c:425-433 | every other opcode is fatal, and so is a load to the store handler and the reverse |
| AssembledCode.GoesOn | unaligned/unhandler.c:80-98 | outside a delay slot the handlers go on with the next word; in one, where the branch goes whose bytes stand before it; they fail if those are not mapped |
| UnalignedSimulation.HandlerFollowsBranch | unaligned/unhandler.c:72-278 | from the frame of a delay-slot trap, with or without the link, the handlers resume where the reference branch goes, and set $31 iff it is taken and links; likely branches are soundly assumed taken |
| UnalignedSimulation.AccessExact | unaligned/unhandler.c:436-445 | setting $31 again after the access is harmless exactly when neither the access nor JALR's own link register says otherwise |
| UnalignedSimulation.SlotExact | unaligned/unhandler.c:280-613 | a delay-slot instruction comes out the same on both machines iff no value of $31 is lost |
| UnalignedSimulation.LateRegisters | unaligned/unhandler.c:436-445 | with frames that do not have the link yet, the registers come out the same iff a condition on $31, the link register and the register loaded holds |
| UnalignedSimulation.StoresExact | unaligned/unhandler.c:536-580 | two stores leave the same memory iff each puts down what the other leaves there |
| UnalignedSimulation.StoresAtOneAddress | unaligned/unhandler.c:536-580 | at one address, that is iff they store the same bytes |
| UnalignedSimulation.LateSlotExact | unaligned/unhandler.c:280-613 | with such frames every delay slot, whatever registers its access names, comes out the same iff no register and no byte differs |
| UnalignedSimulation.StepExact | unaligned/unhandler.c:280-613 | one step of the strict machine with handlers equals the native step iff no value of $31, or with late frames no link or use of it, is lost |
| UnalignedSimulation.RunExact | unaligned/unhandler.c:72-613 | the machines stay in lockstep for n steps iff none of the first n native steps loses a value of $31, or with late frames a link or its use |
| UnalignedSimulation.RunSimulation | unaligned/unhandler.c:72-613 | whole-run simulation for all programs whose branch and slot pairs pass a check of the words alone (with late frames: and whose unaligned accesses under a linking branch do not name $31, the branch being taken): same registers, memory, PC and stopping state after any number of steps |
| UnalignedSimulation.StoreThenLoad | unaligned/unhandler.c:355-580 | an emulated store and load of one width at one address return the register truncated and extended; bytes outside the access are unchanged |
| UnalignedSimulation.JalrThroughR5Differs | unaligned/unhandler.c:129-133 | a concrete program on which the handlers differ from the native machine |
| UnalignedSimulation.BltzalNotTakenLosesLink | unaligned/unhandler.c:158-162 | one that loses the link of a branch not taken when the frame does not have it yet |
| UnalignedSimulation.JalStoreOfLinkDiffers | unaligned/unhandler.c:536-543 | one that then stores the old value of $31 |
| Tlb.LatchShown | tlb/tlb.h:125-161 | reading an entry and writing it back with another page mask changes only the mask and, within the range it covered, the page number |
| Tlb.CoversIsInterval | tlb/tlb.h:138-149 | the entries that cover a page are those whose aligned run of pages it lies in |
| TlbMatch.MaskedIsCovers | tlb/tlb.h:138-149 | the comparison under the complement of the page mask is that, for every legal mask |
| TlbMatch.MatchIsInterval | tlb/tlbtest.c:320-383 | for every legal mask and every address: the masked comparison holds iff the address, without the bits that VPN2 does not have, is one of the 2 * 4^k * 4096 bytes from the entry's base, a multiple of that size |
| Tlb.OverlapMeaning | tlb/tlb.h:138-149 | two entries overlap iff some page and address space match both |
| Tlb.TlbUnit.Read | tlb/tlb.h:125-136 | written back, the registers read give the entry again, and with the page mask cleared a 4 KB entry in its range; at most page-number bits within the range are lost |
| Tlb.TlbUnit.Probe | tlb/tlb.h:138-149 | a non-negative result matches address and ASID; a negative one means that no entry does |
| Tlb.TlbUnit.WriteIndex | tlb/tlb.h:151-161 | one entry becomes what the registers latch, G being the AND of both halves; shutdown iff two entries now overlap |
| TlbUtils.SlotsDiffer | tlb/tlb_utils.c:71-80 | the 3n addresses of scratch and final range are on different pages, even when the range wraps |
| TlbUtils.SmallOverlap | tlb/tlb_utils.c:86-110 | a 4 KB entry overlaps another exactly when that one covers its page and ASID or G agree |
| TlbUtils.ShrinkKeepsClashFree | tlb/tlb_utils.c:122-130 | cutting an entry down within its range creates no overlap |
| TlbUtils.PlaceKeepsClashFree | tlb/tlb_utils.c:142-147 | an invalid entry at a page nothing else matches creates no overlap |
| TlbUtils.InvalidateTlbEntry | tlb/tlb_utils.c:70-80 | exactly one entry changes, to the invalid one at base + 8192 i |
| TlbUtils.ClearSlot | tlb/tlb_utils.c:116-138 | after probe, shrink and second probe either nothing matches the slot or an entry not met before sits exactly there; no overlap in between |
| TlbUtils.OneRound | tlb/tlb_utils.c:114-151 | each round either moves the next entry or parks one that was not parked before |
| TlbUtils.ParkOne | tlb/tlb_utils.c:131-138 | at most n slots are ever skipped: the counting bound behind termination |
| TlbUtils.MoveToScratch | tlb/tlb_utils.c:111-152 | the first pass terminates within 2n slots and 3n writes, without overlap, all entries invalid below base |
| TlbUtils.PartlyInvalidClash | tlb/tlb_utils.c:155-158 | a partly rewritten TLB is overlap-free iff no rewritten entry took a page that one to come matches |
| TlbUtils.InvalidateAll | tlb/tlb_utils.c:155-158 | the second pass leaves the n final entries, and shuts down iff such a clash occurred |
| TlbUtils.ScratchNeverClashes | tlb/tlb_utils.c:106-112 | entries in the scratch range never clash with the final range |
| TlbUtils.InitTlb | tlb/tlb_utils.c:82-159 | the safe reset never shuts down and makes at most 4n writes, each inside the entry's own range, the scratch or the final range; the unsafe one shuts down iff an entry matches a page given earlier; both leave exactly the n invalid entries |
| TlbUtils.ResetIsStable | tlb/tlb_utils.c:82-159 | resetting again, even without the scratch range, never overlaps |
| TlbUtils.WritableBits | tlb/tlbtest.c:60-62 | the mask of writable EntryHi bits picks R, VPN2 and ASID |
| TlbUtils.ResetShows | tlb/tlbtest.c:138-155 | a read of the reset TLB shows, entry by entry and register by register, what the test program expects: zeros, and base + 8192 i under the mask of writable bits |
| TlbUtils.ReversedFirmwareClashes | tlb/tlb_utils.c:90-93 | contents for which the scratch range is needed |
| Spinlock.MutualExclusion | atomic-ops/spinlock.h:91-136 | in every reachable state at most one thread is between acquire and release, and the word is zero iff there is none, else that thread's lockval |
| Spinlock.StepInv | atomic-ops/spinlock.h:91-136 | every instruction of every thread keeps the invariant that a live reservation means the word is what LL read |
| Spinlock.StepEffect | atomic-ops/spinlock.h:91-136 | an acquiring step finds the word zero and leaves lockval, a releasing one is the owner's and leaves zero, any other keeps word and owner |
| Spinlock.StepRefines | atomic-ops/spinlock.h:91-136 | every instruction is one step of an atomic lock, or none |
| Spinlock.RunRefines | atomic-ops/spinlock.h:143-188 | a whole run is a run of the atomic lock, which starts free |
| Spinlock.ReturnWasWord | atomic-ops/spinlock.h:110-130 | a non-zero value about to be returned was the lock word at an instant inside this call |
| Spinlock.TrylockReturn | atomic-ops/spinlock.h:110-130 | trylock returns zero iff this call stored lockval, and then its caller owns the lock |
| Spinlock.CallIsOneAction | atomic-ops/spinlock.h:91-130 | every call does exactly one atomic action before it returns: a lock acquires; a trylock acquires if it returns zero, and else finds the lock held with the value it returns |
| Spinlock.CodeStep | atomic-ops/spinlock.h:91-136 | the code of lock is left only by owning the lock, that of trylock only by its return; lockval never changes in a call |
| Spinlock.CallKeepsToCode | atomic-ops/spinlock.h:91-130 | all through a call of lock its thread is in lock's code or owns the lock, never in trylock's; the counterpart for trylock |
| Spinlock.LockReturnsHolding | atomic-ops/spinlock.h:91-108 | lock returns only with the lock, having done one action: acquiring it with its caller's value |
| Spinlock.TrylockReturns | atomic-ops/spinlock.h:110-130 | trylock returns with the lock iff it returns zero, having acquired it with its caller's value, else having found it held with the value returned |
| Spinlock.ReturnsByRelease | atomic-ops/spinlock.h:132-136 | a thread becomes idle only by its release, which is one atomic action, or by returning from a trylock |
| Semaphore.StepInv | atomic-ops/semaphore.h:90-125 | every instruction keeps value = initial - takes + releases and the reservation property |
| Semaphore.ValueIsBalance | atomic-ops/semaphore.h:90-125 | value = initial - takes + releases and 0 <= value <= 2^31 - 1 in every reachable state, even with surplus releases |
| Semaphore.HoldersBounded | atomic-ops/semaphore.h:90-125 | with balanced use holders never exceed the initial count and the value is what is left |
| Semaphore.RunRefines | atomic-ops/semaphore.h:90-125 | a whole run is a run of an atomic P/V counter; a take completes only from above zero |
| Semaphore.ActionIsStep | atomic-ops/semaphore.h:90-125 | what a thread's step does to the units it holds is the atomic operation the step performs |
| Semaphore.CallIsOneAction | atomic-ops/semaphore.h:90-125 | every take that returns does exactly one P, every release exactly one V, between its first instruction and its return |
| Semaphore.TrapsExactlyAtMax | atomic-ops/semaphore.h:79-81 | the decrement never traps; the increment traps iff LL read the largest int, and leaves the word alone |
| Semaphore.TrapsAreOverflow | atomic-ops/semaphore.h:79-81 | the additions trap exactly when the sum does not fit 32-bit two's complement |
| PairSizes.AlignedIndexMeaning | tlb/tlballoc.c:249-256 | the index found is the position of the lowest one bit of the address, capped |
| PairSizes.FitPairMeaning | tlb/tlballoc.c:260-266 | the shrunk size is the largest legal one that fits and divides the first |
| PairSizes.GreedyIsLargest | tlb/tlballoc.c:249-266 | the pair chosen is the largest legal one that the address is aligned to and that fits; 8 KB if none does |
| PairSizes.LegalExactlyWhenAligned | tlb/tlballoc.c:73-76 | the chosen size is legal and divides the address iff the address is a multiple of 8 KB |
| PairSizes.OnePageStart | tlb/tlballoc.c:73-76 | the lowest documented start: a first size of 2 KB, which is not legal |
| HeapPlan.AdvanceGood | tlb/tlballoc.c:293-295 | the 2 GB mask never alters the address and the guard on it never stops the loop |
| HeapPlan.MapAllTiles | tlb/tlballoc.c:237-297 | over all regions the entries tile the addresses from VA_START on, each legal and aligned to its size, within the entries allowed and below 2 GB |
| HeapPlan.ExactlyOne | tlb/tlballoc.c:237-297 | every tiled address lies in exactly one entry |
| HeapPlan.FollowsCarves | tlb/tlballoc.c:243-296 | one region: its memory is handed out once and in order, and all of it but less than 2^MAX_WASTED_PAGESIZE_INDEX unless the table filled up |
| HeapPlan.RegionEntryAt | tlb/tlballoc.c:243-296 | entry k of any region is made only while at least 2^MAX_WASTED_PAGESIZE_INDEX bytes are left, is the largest legal size that address and memory left allow, half iff less than 8 KB are left, and stands where the first k end |
| HeapPlan.MapAllInOrder | tlb/tlballoc.c:237-240 | later entries are of the same or earlier regions |
| HeapPlan.HalfOnlyLast | tlb/tlballoc.c:275-282 | a half entry is the last of its region, and occurs only when single pages may not be wasted |
| HalfEntries.RegionMapsOut | tlb/tlballoc.c:243-296 | for every setting: how many entries a region takes, where they end, and whether the last is half, from its length and start alone; or the table fills up first |
| HalfEntries.AllMapsOut | tlb/tlballoc.c:237-297 | the same over all regions, for every setting: number of entries and where they end |
| HalfEntries.NothingWasted | tlb/tlballoc.c:243-296 | when no page is wasted, a region takes up its length rounded to whole pairs |
| HalfEntries.NoEntryExactly | tlb/tlballoc.c:243 | no entry is made iff every region is shorter than the waste allowed |
| HalfEntries.HalfExactly | tlb/tlballoc.c:271-282 | a half entry is made iff some region leaves a page over and the table has room for everything up to that region |
| HeapPlan.MapAllMemory | tlb/tlballoc.c:237-297 | memory of different entries is disjoint and inside the regions |
| HeapPlan.MapAllUsesUp | tlb/tlballoc.c:237-297 | conservation: bytes backed never exceed the regions', and fall short by less than the waste allowed per region unless the table filled up |
| HeapRegions.MasksMean | include/sibyte/sbmips.h:126-155 | the address arithmetic used here is that of the code's masks: USIZE, K0SIZE, K0BASE and 0xf0000000 |
| HeapRegions.ReserveIsLeast | tlb/tlballoc.c:193-198 | what is reserved is the least 2^MAX_WASTED_PAGESIZE_INDEX times a power of four that covers program and stack |
| HeapRegions.AvailableMeaning | tlb/tlballoc.c:183-186 | the regions taken are those reported as available, each as often as reported |
| HeapRegions.ReservedBounds | tlb/tlballoc.c:193-198 | what is reserved covers program and stack and stays in the range of int |
| HeapRegions.TrimExact | tlb/tlballoc.c:187-211 | trimming stays inside the region iff the region is long enough; what is left starts beyond stack and guard page and then ends where the region does |
| HeapRegions.NewTopExact | tlb/tlballoc.c:203-204 | the new stack top is the K0 address of the guard page iff that is below 512 MB |
| HeapRegions.RoomyStaysInK0 | tlb/tlballoc.c:203-210 | in memory below 512 MB a region long enough to be trimmed keeps the stack in K0 |
| HeapRegions.StackLeavesK0 | tlb/tlballoc.c:193-204 | a 256 MB board and a program for which the stack top is the first address after K0 |
| HeapRegions.TrimWraps | tlb/tlballoc.c:209-210 | a 64 MB board and a program for which the length wraps around |
| HeapRegions.UsableExact | tlb/tlballoc.c:183-218 | every listed region is inside the reported one iff each region trimmed was long enough |
| HeapRegions.UsableAt | tlb/tlballoc.c:183-218 | each listed region is the reported one trimmed against the stack top of its turn |
| HeapRegions.KeptMeaning | tlb/tlballoc.c:193-210 | what a trimmed region keeps holds the program and its old stack and ends a guard page above the new stack top |
| HeapRegions.FirstHolder | tlb/tlballoc.c:187 | the first region that holds the stack is trimmed against the program's own stack top |
| HeapRegions.FinalStack | tlb/tlballoc.c:203-204 | the final stack top is the top of what some trimmed region keeps |
| HeapRegions.ProgramSpared | tlb/tlballoc.c:183-218 | no listed region has a byte of what any trimmed region keeps: program, stack up to its new top, and guard page above it |
| HeapRegions.HeapMemory | tlb/tlballoc.c:183-297 | from reported regions to entries: the memory tracked by the loop is disjoint, from the reported and trimmed regions, and used up |
| HeapRegions.HeapSparesProgram | tlb/tlballoc.c:183-297 | no entry is given a byte of what any trimmed region keeps: program, stack, guard page |
| HeapRegions.KeptOf256MB | tlb/tlballoc.c:193-210 | what is kept on a 256 MB board at the default setting |
| HeapEntries.ImageIsMacro | tlb/tlballoc.c:93-95 | the EntryLo image is what the macro makes |
| HeapEntries.RegsAreMacros | tlb/tlballoc.c:84-98 | all four registers of an entry are what the macros make |
| HeapEntries.EntryFields | tlb/tlballoc.c:268-291 | the latched entry has the mapping's page, mask and ASID, and G iff it is full |
| HeapEntries.EntryCovers | tlb/tlballoc.c:268-291 | the hardware matches exactly the addresses the mapping is for |
| HeapEntries.ProgrammedClashFree | tlb/tlballoc.c:237-297 | written over a TLB with nothing at user addresses, the entries never overlap |
| HeapEntries.EntryLos | tlb/tlballoc.c:285-287 | both pages of a full entry are valid and writable with the configured cache attribute, and name the two halves of the memory in order |
| HeapEntries.TranslateIs | tlb/tlballoc.c:285-287 | where the hardware takes an access: memory from the page boundary at or below pa |
| HeapEntries.TranslateExact | tlb/tlballoc.c:285-287 | it reaches the tracked memory iff pa is aligned to the page size |
| HeapLimit.GrantMeaning | tlb/tlballoc.c:329 | a request that does not wrap is granted iff the new limit is at least the start and strictly below the end |
| HeapLimit.FailsExactly | tlb/tlballoc.c:329-339 | (char *)-1 is returned iff the request does not wrap and the new limit would not be in range |
| HeapLimit.WrappedIsGranted | tlb/tlballoc.c:329-337 | a request below minus the limit is granted and leaves the limit above the end |
| HeapLimit.WrapGranted | tlb/tlballoc.c:329-337 | a new heap and a request after which the limit is the last address there is |
| HeapLimit.CallKeepsBounds | tlb/tlballoc.c:324-339 | one call keeps start <= limit <= end iff it does not wrap |
| HeapLimit.BoundsKept | tlb/tlballoc.c:324-339 | over any sequence of calls the bounds always hold iff no call wraps |
| HeapLimit.SmallShrinksNeverWrap | tlb/tlballoc.c:324-339 | no call wraps if none asks for less than minus the heap's start address: a condition on the requests alone |
| HeapLimit.LimitIsSum | tlb/tlballoc.c:324-339 | the limit moves by the sum of granted amounts, start and end never |
| HeapLimit.BlocksApart | tlb/tlballoc.c:324-339 | blocks granted without a shrink between them are disjoint |
| HeapLimit.BlockInHeap | tlb/tlballoc.c:324-339 | granted bytes lie between the start and the last byte of the heap |
| TlbAlloc.ReserveSize | tlb/tlballoc.c:193-198 | the loop computes the size reserved |
| TlbAlloc.ChoosePairSize | tlb/tlballoc.c:249-266 | both loops together compute the size of GreedyIsLargest |
| TlbAlloc.Allocator.FindRegions | tlb/tlballoc.c:183-218 | the arrays hold the available regions, trimmed in order with the moving stack top |
| TlbAlloc.Allocator.MapOneRegion | tlb/tlballoc.c:239-296 | the inner loop adds the region's entries and keeps the tiling; each write keeps the TLB the programmed one |
| TlbAlloc.Allocator.MapRegions | tlb/tlballoc.c:237-308 | all regions mapped, the last first; heap end and wired count |
| TlbAlloc.Allocator.MemInit | tlb/tlballoc.c:118-309 | stack top, heap bounds, entries and TLB contents as functions of the reported regions; no overlap if the TLB held nothing at user addresses |
| TlbAlloc.Allocator.Sbrk | tlb/tlballoc.c:324-339 | returns the old limit and moves it, or fails and changes nothing |
| HeapUse.HeapShape | tlb/tlballoc.c:299-308 | the heap ends where the entries do, or if any is half, half the last entry before; below 2 GB and not before its start |
| HeapUse.HeapEndIs | tlb/tlballoc.c:299-308 | with room in the table and no left-over page: number of entries and end of the heap from the regions' lengths |
| HeapUse.NoHeapExactly | tlb/tlballoc.c:243-337 | the heap is empty iff every region is shorter than the waste allowed, and then no request of zero or more bytes is granted |
| HeapUse.SmallRegionNoHeap | tlb/tlballoc.c:243-337 | 48 MB at the default settings give no heap |
| HeapUse.OneEntry | tlb/tlballoc.c:237-308 | every heap address hits exactly one of the entries written, and no other entry of the whole TLB iff none was left there that covers it; the access gets through iff the entry is not a half one |
| HeapUse.HeapServedExact | tlb/tlballoc.c:271-308 | over a TLB with nothing else at user addresses, all of the heap is accessible iff single pages may be wasted or no region leaves one over that the table still has room for |
| HeapUse.NoHalf | tlb/tlballoc.c:275-282 | with 8 KB or more wasted there is none |
| HeapUse.GrantedByteServed | tlb/tlballoc.c:237-339 | over any run of calls that never wraps, every byte sbrk hands out hits exactly one entry of such a TLB; it matches in every address space and is valid unless regions and settings leave a dead page |
| HeapUse.OnePageHeap | tlb/tlballoc.c:275-304 | one page of memory and nothing wasted: a heap of one page that no entry serves |
| HeapUse.WiredExactly | tlb/tlballoc.c:299 | of the entries written all but the last are wired |
| HeapUse.OnlyEntryNotWired | tlb/tlballoc.c:299 | an 8 KB heap whose only entry is not |
| HeapUse.GuardPageInHeap | tlb/tlballoc.c:203-210 | the first heap address reaches the guard page below the trimmed memory |
| HeapUse.AfterReset | tlb/tlb_utils.h:42-50 | the TLB as reset with the header's range meets the condition under which mapping never overlaps |
| BitFields.GetMeaning | include/sibyte/sb1250_defs.h:250-261 | mask and shift return the width bits from the position on |
| BitFields.AndBit | include/sibyte/sb1250_defs.h:260 | each bit of a & b |
| BitFields.OrBit | tlb/tlbconvert.c:99-107 | each bit of a \| b |
| BitFields.FieldOfWord | include/sibyte/sb1250_defs.h:250-261 | in a register of any number of fields, one that nothing else reaches gives back the low bits of its value |
| BitFields.FieldsRoundTrip | include/sibyte/sb1250_defs.h:250-261 | for any list of disjoint fields all values come back iff every value fits its field |
| BitFields.AndAligns | tlb/tlbconvert.c:282-293 | the complemented mask clears exactly the low bits |
| BitFields.CutAligned | tlb/tlbconvert.c:84-90 | cutting an aligned address to a field and shifting it back loses nothing iff it has no bits beyond |
| TlbConvert.HiRoundTrip | tlb/tlbconvert.c:106-107 | EntryHi gives back the ASID and the low 31 bits of VPN2 |
| TlbConvert.HiImage | tlb/tlbconvert.c:106-107 | EntryHi is the aligned address, region bits included, plus the ASID |
| TlbConvert.LoRoundTrip | tlb/tlbconvert.c:99-104 | EntryLo gives back CCA, D, V, G and the low 28 bits of PFN |
| TlbConvert.LoRegValue | tlb/tlbconvert.c:99-104 | EntryLo as a sum of its fields |
| TlbConvert.PageSizeMeaning | tlb/tlbconvert.c:95-97 | the page size shown for any mask: the pages it names, rounded up to an even number of 4 KB |
| TlbConvert.PageSizeReturned | tlb/tlbconvert.c:92-97 | the page size comes back for every shift but 12, where 8 KB is shown |
| TlbConvert.DecodedMeaning | tlb/tlbconvert.c:109-142 | what is shown of any registers is what the hardware latches from them: address (without the region bits), ASID, G (iff both halves ask for it), and each page's frame, CCA, D and V |
| TlbConvert.Encode | tlb/tlbconvert.c:273-324 | for every address: EntryHi is the aligned VA plus the ASID, and the hardware latches its page; each EntryLo is the frame above CCA, D, V and G, latched modulo 2^28; the page mask. Decoding returns the aligned VA iff VA < 2^44, each aligned PA iff it is below 2^40, the page size iff the shift is not 12, and the rest always; a warning iff an address was not aligned |
| TlbConvert.Decode | tlb/tlbconvert.c:246-271 | decoding shows what the hardware would hold after those registers are written; the page size is the hardware's iff its mask is odd, which only that of 4 KB pages is not |

## Left out

- Liveness: spinning and retry loops are shown safe, not fair; memory is sequentially consistent.
- Spinlock: the 32-bit and 64-bit code are the same instructions and are modelled once, over words of any size; releases come from the holder and lock values are not zero, as the header requires.
- The copy macros fail on unmapped addresses, as kernel versions of them do; with the plain `memcpy` ones every address counts as mapped. A failing copy out writes nothing.
- Only the 64-bit build of the handlers, in which the tests for truncated addresses never fire.
- A branch that links through the register it reads is left undefined by the architecture and excluded.
- Address errors for addresses a user may not access: they reach the same handlers on hardware, and are not modelled.
- The handlers' other environments (NetBSD, VxWorks), debugging output, and the panic behind the fatal exit.
- `tlb_write_random`, `tlb_size` from Config1 and the entry hazards of CP0: the TLB's size is a parameter between 1 and 2^17 - 1.
- Whether a TLB read shows the address bits under the mask is the implementation's choice; both are covered.
- What translations change to while the reset shrinks entries: only overlap and final contents are stated.
- `cfe_enummem` is a list of regions, the configuration's cache attribute a parameter; the arrays of eight regions are the callers' limit.
- VA_START and MAX_PAGESIZE_INDEX are the constants in the file; MAX_WASTED_PAGESIZE_INDEX and MAX_TLB_ENTRIES_USED range over all their documented values.
- The allocator's bitwise masks and macros are written as arithmetic; `MasksMean` and `RegsAreMacros` tie them to it.
- Option parsing, number parsing and printing of `tlbconvert`; the option checks are its preconditions.
- MDMX, paired-single, cache-error, profiling, FPU emulation and CP0 code: wrappers, hardware pokes and printing.
