# Verification of the rv32 core's stateful protocols

This Dafny project models the parts of the RISC-V virtual prototype that keep state across
instructions, or keep a fast answer in step with a slow definition, and proves what they keep over
every run. Each source component that changes state in place is a class with loops and in-place
updates, proved against a specification of pure functions; the main results are lemmas about those
functions, or contracts of the class's entry points.

`dafny verify dfyconfig.toml` checks everything.

## What is modelled

- **Bus lock, LR/SC and AMO** (`amo.dfy`, `lrsc_protocol.dfy`, `bus_lock.dfy`). Any number of harts and
  lock-respecting ports as interleaved steps, one memory transaction a step. Waiting for the lock is
  a step that is not enabled. Successful SC.W and AMO are atomic, a hold is bounded by the
  instruction counter, the owner is never kept waiting, and a failed LR/SC attempt is followed by a
  successful one. The C++ functions are methods of a machine whose contracts are sequences of
  protocol steps.
- **IMSIC interrupt files** (`imsic_spec.dfy`, `imsic_file.dfy`). The threshold as a stack over a
  bitmap, a register and a tail; the signal and topei; runs of entries and completions nested to any
  depth. An inserted identity that does not preempt the register is dropped and the register is
  duplicated in the bitmap, so an insertion is undone by a completion exactly from strictly layered
  states; interrupt entry is proved to meet the gate that keeps them strict, over every run from reset.
- **The cascade between CLINT and IMSIC** (`aia_routing.dfy`, `aia_cascade.dfy`). The mutually
  recursive routing of the core, with the source's calls and order. It terminates with at most two
  activations of `clint_hw_irq_route` open, the source's assertions never fail, and files, summaries
  and pending bits agree afterwards. An interrupt that a hardware line raises reaches the file of its
  level; after a register write exactly those do that pend at no higher level.
- **Aliased enable views** (`aia_views.dfy`). sie, sieh, vsie and vsieh as lenses over mie and the
  shadow enables.
- **Major-interrupt priority** (`major_irq.dfy`). The scan at machine level against the documented order.
- **Page-table walk and TLB** (`mmu_walk.dfy`, `mmu_index.dfy`, `mmu_status.dfy`, `mmu_tlb.dfy`). The
  loop against the recursive algorithm, the recursion against the digits of the page number, and every
  TLB answer against a walk. The cached frame is cut to 32 bits because
  the page mask is a 32-bit value, and SUM and MXR are not part of an entry; the contract says exactly
  when a hit is still right.
- **Traps** (`trap_spec.dfy`, `trap_hart.dfy`). Entry, xRET and the stack-pointer exchange over five
  privilege levels, and the round trip of nested traps.
- **SPMP** (`spmp_spec.dfy`, `spmp.dfy`). The matcher, and the cache of the last matching region. The
  cache keeps a region, not the decision; when it is right is stated over the accesses the core makes.
- **Instruction words and compressed expansion** (`instr_word.dfy`, `compressed.dfy`). Factory,
  accessors and decoder against each other, and expansion against sections 16.3 to 16.5 of the RISC-V
  Unprivileged ISA.
- **Flash block buffer, SLIP framing, CRC-8** (`flash_buffer.dfy`, `slip.dfy`, `crc8.dfy`).
- **Shared** (`access.dfy`, `division.dfy`): privilege levels and access types; uniqueness of quotient and
  remainder, used where words are split.

## Where the code falls short of what it is for

Each of these is a lemma or part of a contract, together with the exact condition under which the
code does meet the property.

- C.ADD with destination x0 and a nonzero source is a hint; the decoder returns C.EBREAK
  (`ExpansionDoesAsIsa`, `HintBreaks`).
- A TLB hit loses physical address bits from 32 up, and is not affected by clearing SUM or MXR, which
  does not flush (`TranslateVirtualToPhysicalAddr`, `StatusChangeMatters`; inputs in `HighPageIsCut`,
  `SumChangeMatters` and `StaleAnswer`).
- The SPMP cache ignores priority between overlapping regions (`RememberedRegionIsExact`), and neither a
  change of SUM nor a checked mode other than the current privilege clears it (`DoPhyAddressCheck`;
  inputs in `StaleSum` and `StalePrivilege`).
- A write of the CLINT registers that makes an interrupt pend at a level delivers nothing to it when the
  interrupt also pends at a higher level (`DeliveredUnlessHidden`; inputs in `HiddenEdges`).
- The decoder of RFC 1055 framing reads an already unescaped ESC as a pending one (`RoundTrip`,
  `EscapePairIsLost`).
- Threshold insertion is a push only from reversible states (`InsertThenPop`), which a write outside
  nested-vectored mode can leave (`DirectWriteNesting`, with the input of `DirectWriteBreaksNesting`).
- A nested trap to the same level overwrites what the outer one saved (`SameLevelNesting`).

## Representation

Registers of bits are sets of bit numbers (CLINT, guest summaries), sequences of booleans (eip and
eie words) or bit-vectors (instruction words, registers after an expansion, the CRC). Addresses, memory
words and page-table entries are naturals with every wrap-around and truncation written out. The `unsigned long` of the CRC is 64
bits wide; its low byte does not depend on that.

## Model

| member | source | states |
|---|---|---|
| AmoArithmetic.OperateComputes | vp/src/core/rv32/iss.cpp:634-682 | Each AMO computes what the standard asks for: the operand, the sum modulo 2^32, the bit-by-bit combination, or the one of both words that bounds both as signed or unsigned numbers |
| AmoArithmetic.ComputesDecides | vp/src/core/rv32/iss.cpp:634-682 | That decides the result: no other word meets it |
| LrScProtocol.OkAfter | vp/src/core/rv32/iss.cpp:3483-3506 | Over every run of any number of harts and ports: inside an atomic sequence a hart owns the lock, an AMO's loaded data is still what memory holds, and an owner at an instruction boundary has a counter between 1 and 16 |
| LrScProtocol.RemembersReachable | vp/src/core/rv32/mem.h:255-283 | In every reachable state a hart that relies on a hold got it from one LR.W or AMO load, and since then no agent wrote memory and the hart did no newer LR.W |
| LrScProtocol.ScAtomic | vp/src/core/rv32/mem.h:255-283 | A successful SC.W follows its hart's latest LR.W, which was to the same address; nobody wrote memory in between; it writes over the very memory the LR.W read |
| LrScProtocol.AmoAtomic | vp/src/core/rv32/iss.h:368-382 | No agent writes between an AMO's load and its store, and what is stored is what the operation computes from the word in memory just before the store, stated by value and bit |
| LrScProtocol.HoldCountsDown | vp/src/core/rv32/iss.cpp:3483-3506 | While a lock is kept, the counter drops by exactly the number of instructions its owner finishes |
| LrScProtocol.BoundedHold | vp/src/core/rv32/iss.cpp:3483-3506 | From an instruction boundary on, no hart keeps the lock while it finishes sixteen instructions, across traps, WFI, failed SC.W and repeated LR.W |
| LrScProtocol.ReservationKept | vp/src/core/rv32/iss.cpp:615-632 | A reservation survives every step of the other agents and every constrained instruction of its owner until the counter runs out |
| LrScProtocol.ConstrainedLoopSucceeds | vp/src/core/rv32/iss.cpp:615-632 | Forward progress: after an LR.W that opened a hold, an SC.W to the reserved address passes its checks exactly when at most fifteen constrained instructions came between |
| LrScProtocol.AttemptOutcome | vp/src/core/rv32/iss.cpp:615-632 | From every reachable instruction boundary and over every interleaving, an attempt passes its checks iff its body fits the allowance, which is one less than a counter still running, and else leaves the counter zero |
| LrScProtocol.NextAttemptSucceeds | vp/src/core/rv32/iss.cpp:615-632 | Eventual success: after a failed attempt the next one passes its checks with at most fifteen constrained instructions in its body |
| LrScProtocol.OwnerNeverBlocks | vp/src/core/common/bus_lock_if.h:16-19 | In every reachable state the lock owner's next step is enabled and no memory operation of an owner waits; the assertion of the AMO store holds |
| BusLocking.BusLock.Lock | vp/src/platform/common/bus.h:109-117 | Where the wait would return, locking makes the hart the owner; an owner may lock again |
| BusLocking.BusLock.Unlock | vp/src/platform/common/bus.h:119-124 | Only the owner's unlock has an effect |
| BusLocking.Machine.RawStoreWord | vp/src/core/rv32/mem.h:120-136 | A store drops the hart's own lock |
| BusLocking.Machine.AtomicLoadReservedWord | vp/src/core/rv32/mem.h:263-267 | Locks, then records the address, then loads |
| BusLocking.Machine.AtomicStoreConditionalWord | vp/src/core/rv32/mem.h:268-280 | Succeeds iff the hart owns the lock and the address is the reserved one; a mismatch drops the lock |
| BusLocking.Machine.LrW | vp/src/core/rv32/iss.cpp:615-622 | The protocol's two LR.W steps in order, the counter set to 17 only from zero |
| BusLocking.Machine.ScW | vp/src/core/rv32/iss.cpp:624-632 | Result 0 iff lock and address match; the protocol's SC.W steps; the counter cleared either way |
| BusLocking.Machine.ExecuteAmo | vp/src/core/rv32/iss.h:368-382 | Returns the old word, stores what the operation computes from it (sums, bits and bounds stated outright), leaves the lock free: the protocol's three AMO steps |
| BusLocking.Machine.ReleaseLrScReservation | vp/src/core/rv32/iss.h:325-328 | The protocol's trap and WFI step |
| BusLocking.Machine.PerformanceAndSyncUpdate | vp/src/core/rv32/iss.cpp:3483-3506 | The protocol's end-of-instruction step: count down, release on the last count |
| ImsicSpec.LayeredKept | vp/src/core/rv32/csr.h:1986-2050 | Entry, completion and nested-vectored writes keep the bitmap, register and tail layered |
| ImsicSpec.StrictKept | vp/src/core/rv32/csr.h:1996-2050 | Entry of a preempting identity, a tail write and completion keep the layers strictly decreasing |
| ImsicSpec.InsertThenPop | vp/src/core/rv32/csr.h:2012-2050 | From every threshold state, a completion undoes a raise iff the state is reversible: the register lies below everything stacked, or nothing is stacked and it is the tail |
| ImsicSpec.StrictIsReversible | vp/src/core/rv32/csr.h:2012-2050 | Among the states nested-vectored operations reach, the reversible ones are those with strict layers |
| ImsicSpec.DroppedInsertDuplicates | vp/src/core/rv32/csr.h:2012-2025 | An identity not below a stackable register is dropped and the register duplicated: the result is strict iff the identity was below |
| ImsicSpec.ThresholdIsAStack | vp/src/core/rv32/csr.h:1982-2050 | Register, bitmap and tail are one strictly ordered stack over a base of 0 or the tail: entry pushes, completion pops, tailed identities act as 255 |
| ImsicSpec.WriteIsStackOperation | vp/src/core/rv32/csr.h:1986-1994 | A software write of zero pops, of a tailed value moves the base, of a preempting value pushes; outside nested-vectored mode it replaces the register |
| ImsicSpec.ArriveAdds | vp/src/core/rv32/iss.cpp:2862-2875 | A message adds its identity to eip and changes nothing else |
| ImsicSpec.WriteReplaces | vp/src/core/rv32/iss.cpp:1970-1994 | A write of one eip or eie register replaces its 32 identities and no other |
| ImsicSpec.TopeiNamesTheCandidate | vp/src/core/rv32/iss.cpp:2604-2609 | In nested-vectored mode topei is the least candidate, or zero, even when the threshold holds it back |
| ImsicSpec.ClaimClears | vp/src/core/rv32/iss.cpp:2511-2527 | A claim takes the identity topei shows out of eip and leaves everything else |
| ImsicSpec.ClaimStep | vp/src/core/rv32/iss.cpp:2511-2527 | A claim of a signalled interrupt takes the least candidate below the threshold, and the next one is above it |
| ImsicSpec.ClaimsAreComplete | vp/src/core/rv32/iss.cpp:2511-2623 | Claiming while the interrupt pends gives every candidate below the threshold once, in ascending order |
| ImsicSpec.ClaimsEndQuiet | vp/src/core/rv32/iss.cpp:2511-2623 | It clears exactly those and ends with the pending bit clear |
| ImsicSpec.SignalsWhenSomeIidIsBelow | vp/src/core/rv32/iss.cpp:2569-2610 | The file signals iff delivery is on and some pending and enabled identity is below a nonzero threshold |
| ImsicSpec.LevelOkStep | vp/src/core/rv32/iss.cpp:2511-2623 | Every event (software writes of eip, eie, eidelivery and eithreshold, messages, mode changes, entries, claims, completions) keeps: the pending bit is set iff the file signals |
| ImsicSpec.SignallingInvariant | vp/src/core/rv32/iss.cpp:2511-2623 | From reset, over every sequence of possible events at M level: MEIP iff signalling, and then mtopei names the nonzero least candidate |
| ImsicSpec.EntryIsGatedAndQuiet | vp/src/core/rv32/iss.cpp:3128-3140 | An interrupt taken in nested-vectored mode satisfies the push gate, removes exactly its identity, and leaves nothing signalled |
| ImsicSpec.NestingRestoresThreshold | vp/src/core/rv32/iss.cpp:2497-2548 | From a reversible state every well-nested run of entries and completions, of any depth and with other events between, restores the threshold exactly |
| ImsicSpec.OneHandledInterruptDecides | vp/src/core/rv32/iss.cpp:2497-2548 | One interrupt handled with nothing nested restores the threshold iff the state was reversible |
| ImsicSpec.AlwaysAStrictStack | vp/src/core/rv32/csr.h:1982-2050 | From reset in nested-vectored mode, in every state of every run of entries, completions, tail writes, gated raises and other events, the threshold is a strict stack |
| ImsicSpec.DirectWriteNesting | vp/src/core/rv32/csr.h:1944-1954 | A threshold written outside nested-vectored mode, from any state: one raise and completion is undone iff the value lies below everything stacked, or nothing is stacked and it is the tail |
| ImsicSpec.DirectWriteBreaksNesting | vp/src/core/rv32/csr.h:1944-1954 | The value 300 after reset is one that is lost |
| ImsicFile.EiThreshold.constructor | vp/src/core/rv32/csr.h:1940-1943 | The empty stack |
| ImsicFile.EiThreshold.TstackInsert | vp/src/core/rv32/csr.h:2012-2025 | In place on the bitmap, the specification's insert, with the drop |
| ImsicFile.EiThreshold.TstackPutTail | vp/src/core/rv32/csr.h:2027-2033 | The specification's tail write |
| ImsicFile.EiThreshold.TstackPop | vp/src/core/rv32/csr.h:2035-2050 | The bitmap scan finds the next layer up, else the tail or zero |
| ImsicFile.EiThreshold.CheckedWrite | vp/src/core/rv32/csr.h:1944-1994 | Both write modes of eithreshold |
| ImsicFile.EiThreshold.UpdateWithNewIrq | vp/src/core/rv32/csr.h:1967-2004 | Entry pushes in nested-vectored mode and does nothing else |
| ImsicFile.InterruptFile.ComputeImsicPending | vp/src/core/rv32/iss.cpp:2569-2610 | The word scan with count-trailing-zeros finds the least candidate: signal and topei value, none being 4096 in nested-vectored mode |
| ImsicFile.InterruptFile.ComputeImsicPendingInterrupts | vp/src/core/rv32/iss.cpp:2617-2623 | Pending bit and 12-bit topei are in step with the file afterwards |
| ImsicFile.InterruptFile.UpdateEipBit | vp/src/core/rv32/iss.cpp:2550-2567 | Exactly one identity set or cleared in the words, none for identity 0 |
| ImsicFile.InterruptFile.RouteImsicWrite | vp/src/core/rv32/iss.cpp:2862-2890 | A message sets its identity and recomputes |
| ImsicFile.InterruptFile.ClaimTopeiInterrupt | vp/src/core/rv32/iss.cpp:2511-2548 | A topei write takes the identity it shows out of eip and nothing else, or completes the active one |
| ImsicFile.InterruptFile.NotifyIrqTaken | vp/src/core/rv32/iss.cpp:3128-3140 | Entry: raise the threshold, claim, and nothing pending right after |
| ImsicFile.InterruptFile.WriteEithresholdReg | vp/src/core/rv32/iss.cpp:1970-1994 | A threshold write through the indirect registers recomputes |
| AiaRouting.TransformsInverse | vp/src/core/rv32/irq-prio.h:145-178 | The S and VS numberings of virtual interrupts are inverse: standard ones one apart, local ones equal |
| AiaRouting.ComputedPendingsOk | vp/src/core/rv32/iss.cpp:3249-3270 | Where no interrupt can show: VS interrupts never at M, M external only there, S external never at VS, guest external at VS only as hvictl injects it |
| AiaRouting.PendsWhereRouted | vp/src/core/rv32/iss.cpp:3249-3270 | For every register state, at which levels a standard interrupt shows: M iff undelegated, VS iff delegated twice, else S, through hvip and mvip as routed; two levels only when injected |
| AiaRouting.LocalsPendWhereInjected | vp/src/core/rv32/iss.cpp:3249-3270 | Local interrupts show at S and at VS exactly where they are injected and enabled, never at M |
| AiaRouting.InjectionReplaces | vp/src/core/rv32/iss.cpp:3249-3270 | With an interrupt injected through hvictl, VS sees that one and its external interrupt |
| AiaViews.PutGet | vp/src/core/rv32/csr.h:869-928 | Reading sie, sieh, vsie or vsieh after a write gives the value masked to delegated or injected bits, in every state |
| AiaViews.GetPut | vp/src/core/rv32/csr.h:869-928 | Writing back what was read changes nothing at all |
| AiaViews.PutPut | vp/src/core/rv32/csr.h:869-928 | A later write through the same view hides an earlier one |
| AiaViews.ViewsAreDisjoint | vp/src/core/rv32/csr.h:869-928 | A write through one of the four views never shows in another |
| AiaViews.PutFrame | vp/src/core/rv32/csr.h:869-928 | No write through a view changes an undelegated bit of mie, the other level's shadow, or any routing or pending register |
| AiaViews.ShiftRoundTrip | vp/src/core/rv32/csr.h:1443-1459 | The VS and S bit positions convert back and forth without loss on the bits both have |
| AiaViews.Xie.CheckedWriteSie | vp/src/core/rv32/csr.h:880-893 | The two masked writes together are the view's write |
| AiaViews.Xie.CheckedWriteVsie | vp/src/core/rv32/csr.h:911-928 | The three masked writes, to sie, hie and the shadow, together are the view's write |
| AiaViews.Xie.CheckedReadSie | vp/src/core/rv32/csr.h:869-878 | A bit reads as set iff mie has it where it is delegated, or the shadow where it is injected |
| AiaViews.Xie.CheckedReadVsie | vp/src/core/rv32/csr.h:895-908 | The same for the VS level, at the S positions |
| AiaCascade.AiaCore.ClintHwIrqRoute | vp/src/core/rv32/iss.cpp:2663-2675 | The mutual recursion terminates with at most two activations nested; interrupt files only grow, by the named priority numbers; at every level where the interrupt begins to pend and takes messages it is in the file; files, hgeip and external bits agree again |
| AiaCascade.LineEdgeNotHidden | vp/src/core/rv32/iss.cpp:2663-2675 | An edge made by a hardware line is never hidden by a higher level |
| AiaCascade.IprioIsRegistered | vp/src/core/rv32/iss.cpp:2995-3010 | The number delivered is the content of the level's own priority register of the interrupt, a guest's from its bank at the S number |
| AiaCascade.SentIsRegistered | vp/src/core/rv32/iss.cpp:2857-2859 | What a file gains is exactly the register contents of the interrupts that go to its level |
| AiaCascade.OwnRegistersDecide | vp/src/core/rv32/iss.cpp:2995-3010 | It is the same whatever the priority registers of other levels and guests hold |
| AiaCascade.AiaCore.DeliverClintChangesToImsics | vp/src/core/rv32/iss.cpp:2798-2803 | One delivery and the two cascade steps |
| AiaCascade.AiaCore.CascadePendingsToImsics | vp/src/core/rv32/iss.cpp:2805-2817 | The cascade never reaches a guest file, so never recurses |
| AiaCascade.AiaCore.DeliverPendingToImsic | vp/src/core/rv32/iss.cpp:2819-2860 | The interrupt is in the file of the level it goes to, and no file gains anything else but what the cascade brings; an edge at a level below one where the interrupt pends goes nowhere |
| AiaCascade.AiaCore.DeliveryLevel | vp/src/core/rv32/iss.cpp:2819-2852 | For each level: it is the one delivered to iff the interrupt begins to pend there, takes messages there, and pends at no higher level; the three assertions never fail, and an edge at VS is never one of the interrupts that recurse |
| AiaCascade.AiaCore.RouteImsicWrite | vp/src/core/rv32/iss.cpp:2862-2890 | Exactly one identity is added to exactly one file before the pending bits follow |
| AiaCascade.AiaCore.ComputeImsicPendingInterruptsM | vp/src/core/rv32/iss.cpp:2617-2623 | MEIP iff the M file signals, mtopei its least candidate; no other bit changes |
| AiaCascade.AiaCore.ComputeImsicPendingInterruptsVs | vp/src/core/rv32/iss.cpp:2633-2661 | hgeip, SGEIP and VSEIP agree with all guest files and the connected one |
| AiaCascade.AiaCore.ComputeHgeip | vp/src/core/rv32/iss.cpp:2638-2645 | One bit a guest, iff its file signals |
| AiaCascade.AiaCore.RecalcSgeip | vp/src/core/rv32/iss.cpp:3085-3089 | SGEIP iff some enabled guest pends |
| AiaCascade.AiaCore.OnClintCsrWrite | vp/src/core/rv32/iss.cpp:2682-2784 | After a software write of the CLINT registers each file has gained exactly the numbers of the interrupts that begin to pend at its level and are not hidden by a higher level, besides the spill of the cascade, and everything is in step; hidden edges are lost |
| AiaCascade.AiaCore.DeliverAllClintChangesToImsics | vp/src/core/rv32/iss.cpp:2787-2795 | The same of the delivery loop and the cascade after it, for any earlier snapshot |
| AiaCascade.DeliveredUnlessHidden | vp/src/core/rv32/iss.cpp:2819-2836 | After a register write an interrupt that begins to pend and takes messages at a level, under a number of its own, is in the file iff it does not pend at a higher level |
| AiaCascade.HiddenEdges | vp/src/core/rv32/iss.cpp:2819-2836 | Two writes whose edge is lost: hvip while the interrupt is injected at S, mvip while the hardware raises it at M |
| AiaCascade.AiaCore.WriteHgeie | vp/src/core/rv32/iss.cpp:1858-1864 | The guest external interrupt follows the new enables |
| AiaCascade.AiaCore.SwitchGuest | vp/src/core/rv32/iss.cpp:2612-2615 | The VS external interrupt is the signal of the newly connected guest's file, guest vgein - 1, and vstopei its candidate |
| AiaCascade.AiaCore.HwWriteMip | vp/src/core/rv32/csr.h:1147-1156 | Only an existing bit of mip changes |
| MajorIrq.OrderInjective | vp/src/core/rv32/irq-prio.h:16-90 | The default order table is a permutation |
| MajorIrq.HighLocalsFirst | vp/src/core/rv32/irq-prio.h:16-90 | The default order begins with the high-priority local interrupts of the standard |
| MajorIrq.LevelsInOrder | vp/src/core/rv32/irq-prio.h:16-90 | Then external, software and timer interrupts level by level |
| MajorIrq.LowLocalsLast | vp/src/core/rv32/irq-prio.h:16-90 | Then the low-priority local interrupts |
| MajorIrq.BeforeIsStrictTotal | vp/src/core/rv32/irq-prio.h:103-116 | The documented priority order is irreflexive, transitive and total |
| MajorIrq.PackedIsBefore | vp/src/core/rv32/irq-prio.h:185-274 | Comparing the packed words is exactly the documented order |
| MajorIrq.ToIprioMonotone | vp/src/core/rv32/irq-prio.h:231-249 | The reported 8-bit priority never contradicts the order |
| MajorIrq.MajorIrqPrepareIidPrio | vp/src/core/rv32/iss.cpp:3059-3079 | For every nonempty pending set the scan returns the one interrupt before all others, so the throw is unreachable |
| MmuSpec.DescendRelated | vp/src/core/common/mmu.h:157-243 | Two descents whose steps agree on tables and leaves end alike |
| MmuSpec.WalkIgnoresAD | vp/src/core/common/mmu.h:223-235 | Memories that differ in A and D bits only give every walk the same outcome |
| MmuSpec.WriteBackOnlyAD | vp/src/core/common/mmu.h:223-235 | A walk writes at most the A and D bits of one entry, including for 64-bit entries written back with 32 bits |
| MmuSpec.FlagsReadBack | vp/src/core/common/mmu.h:5-56 | Every flag and the page number of an entry stand at the bit the format gives them |
| MmuSpec.SetADBits | vp/src/core/common/mmu.h:223-235 | The write-back sets the accessed bit, and the dirty bit for stores only |
| MmuSpec.WalksDoNotInterfere | vp/src/core/common/mmu.h:157-243 | No walk changes the outcome of any walk, of any address, access or mode |
| MmuSpec.SamePage | vp/src/core/common/mmu.h:148-243 | All addresses of a page fault together or keep their offset in one frame |
| MmuSpec.LeafKeepsOffset | vp/src/core/common/mmu.h:237-242 | The page offset is kept, and the page number within a superpage |
| MmuIndex.EntryIsADigit | vp/src/core/common/mmu.h:169-176 | Each level reads, without wrap-around, the entry at its digit of the page number |
| MmuIndex.IndicesSpellThePage | vp/src/core/common/mmu.h:169-176 | The entry indices of all levels, weighted by powers of 512 (1024 in Sv32), add up to the page number modulo the translated width |
| MmuIndex.SameIndicesSamePage | vp/src/core/common/mmu.h:148-176 | Two usable addresses that read equal indices at every level lie in one page |
| MmuIndex.ResidueHasAddress | vp/src/core/common/mmu.h:148-155 | Every page number of the translated width has a usable, sign-extended address |
| MmuIndex.ChainMapsOnePage | vp/src/core/common/mmu.h:157-243 | In any chain of tables with one entry a level, at the digits of a page, exactly the addresses of that page translate |
| MmuIndex.TwoLevelChain | vp/src/core/common/mmu.h:157-243 | Such a chain in Sv32 |
| MmuIndex.SecondSuperpage | vp/src/core/common/mmu.h:157-243 | A superpage in root entry 1 serves addresses from 4 MiB on and not those below |
| Mmu.GenericMmu.Search | vp/src/core/common/mmu.h:171-222 | The loop with breaks computes the recursive translation of Sv32, Sv39, Sv48 and Sv57 |
| Mmu.GenericMmu.Walk | vp/src/core/common/mmu.h:157-243 | The outcome of the recursive translation, and memory with the A and D bits it needs written back |
| Mmu.GenericMmu.ReadLevel | vp/src/core/common/mmu.h:171-235 | One level of the loop is one step of the recursive algorithm: fault, next table, or leaf with its address |
| Mmu.GenericMmu.LookUp | vp/src/core/common/mmu.h:110-122 | A hit is an access whose page the indexed entry is tagged with; it gives the low 32 bits of the leaf a walk found, a miss gives a walk now |
| Mmu.GenericMmu.WriteStatus | vp/src/core/common/mmu.h:90-123 | A change of SUM or MXR leaves every entry as it is; what entries mean survives it, and their being admitted survives setting bits |
| Mmu.GenericMmu.LeafFaults | vp/src/core/common/mmu.h:197-235 | The permission, alignment and A/D tests of a leaf are the recursive algorithm's |
| Mmu.GenericMmu.FlushTlb | vp/src/core/common/mmu.h:86-88 | An all-ones tag matches no page of any address |
| Mmu.GenericMmu.ReachIsTheWalk | vp/src/core/common/mmu.h:90-123 | Since the flush, walks of present memory and of memory at the flush agree for every address, SUM and MXR |
| Mmu.GenericMmu.TranslateVirtualToPhysicalAddr | vp/src/core/common/mmu.h:90-123 | TLB coherence over any translations and any SUM and MXR writes since a flush: the answer is that of a walk under the present registers, faults with the access's code, iff the indexed entry's tag misses, or SUM and MXR admit the leaf and it lies below 4 GiB; they admit it while no bit was cleared |
| Mmu.SumChangeMatters | vp/src/core/common/mmu.h:90-123 | An input on which clearing SUM alone makes a walk fault |
| Mmu.StaleAnswer | vp/src/core/common/mmu.h:112-114 | On that input a hit still answers with the address after SUM is cleared |
| Mmu.HighPageIsCut | vp/src/core/common/mmu.h:119 | An Sv32 page at 4 GiB whose cached frame is 0: the address bound is needed |
| MmuStatus.PermitsByRule | vp/src/core/common/mmu.h:197-217 | A leaf admits an access iff each access rule holds: permission bits with MXR, user pages, SUM |
| MmuStatus.StatusOutcome | vp/src/core/common/mmu.h:202-217 | Under any SUM and MXR a walk gives the leaf of the permissive walk unless the two bits forbid it |
| MmuStatus.StatusChangeMatters | vp/src/core/common/mmu.h:202-217 | A change of SUM and MXR changes what a walk gives iff the walk finds a leaf that one setting forbids and the other does not |
| MmuStatus.ClearingMatters | vp/src/core/common/mmu.h:202-217 | For a translated address: a new SUM matters iff it is cleared under a supervisor's data access to a user page, a new MXR iff it is cleared under a load from an execute-only page |
| SpmpSpec.NapotRegion | vp/src/core/common/spmp.h:107-119 | A NAPOT region has size 4 * 2^(ones + 1), is naturally aligned, and contains its own address |
| SpmpSpec.RangeRegions | vp/src/core/common/spmp.h:88-132 | A top-of-range region reaches from the address before to its own, a four-byte region is one word |
| SpmpSpec.AllowedByTable | vp/src/core/common/spmp.h:157-221 | The permission tests are the sixteen rows of the encoding table for supervisor and user mode |
| SpmpSpec.FirstTouchingIsLeast | vp/src/core/common/spmp.h:64-142 | The deciding entry is the lowest-numbered active one that touches the access |
| SpmpSpec.RememberedRegionIsExact | vp/src/core/common/spmp.h:253-312 | Over the accesses the core makes, a remembered region gives the lookup's answer for all inside it: for fetches iff no lower active entry overlaps it; for naturally aligned loads and stores iff lower entries permit what they decide there and split no double word |
| SpmpSpec.OverlapDenies | vp/src/core/common/spmp.h:253-312 | With an overlapping lower entry some fetch inside the remembered region, at an address not a multiple of four, is denied by the lookup |
| Spmp.GenericSpmp.CheckMatching | vp/src/core/common/spmp.h:51-62 | Yes iff every byte is inside, no iff none is, for accesses within two words |
| Spmp.GenericSpmp.FindMatchingEntry | vp/src/core/common/spmp.h:64-142 | The lowest entry touching any byte, -1 when it covers the access only partly, 64 when none does, with that entry's region |
| Spmp.GenericSpmp.DoPhyAddressCheck | vp/src/core/common/spmp.h:253-312 | For any regions, privilege and SUM: a hit, inside the remembered region, passes, a miss gets the uncached decision, and an allowed access that an entry decides is a hit afterwards. A hit is right in a right region; with disjoint regions iff the deciding entry permits the access now, and always while SUM was not cleared and checked modes are the privilege |
| Spmp.StaleSum | vp/src/core/common/spmp.h:270-308 | A load still passes after SUM is cleared, where the lookup denies it |
| Spmp.StalePrivilege | vp/src/core/common/spmp.h:270-308 | A supervisor load passes after machine mode made it as a supervisor's, where the lookup denies it |
| Spmp.GenericSpmp.WriteProtection | vp/src/core/rv32/iss.cpp:2071-2073 | A write of a protection register clears the cache first, so nothing remembered outlives its registers |
| Spmp.GenericSpmp.WriteSum | vp/src/core/common/spmp.h:157-191 | A change of SUM leaves the cache; only clearing SUM can make a remembered region wrong |
| Spmp.GenericSpmp.ClearSpmpCache | vp/src/core/common/spmp.h:249-251 | No region is remembered afterwards |
| TrapSpec.SavedPrivilege | vp/src/core/common/irq_if.h:17-34 | Splitting a level into virtualization and nominal privilege and joining them loses nothing |
| TrapSpec.SwapTwice | vp/src/core/rv32/iss.cpp:3294-3340 | The stack-pointer exchange is its own inverse |
| TrapSpec.TargetsAreLegal | vp/src/core/rv32/iss.cpp:2904-2941 | Exceptions and interrupts never go to a lower privilege: the assertions of trap entry hold |
| TrapSpec.ExceptionTargetIsLowest | vp/src/core/rv32/iss.cpp:2904-2941 | An exception goes to the lowest level that it is delegated to and that may take it |
| TrapSpec.InterruptTargetIsHighest | vp/src/core/rv32/iss.cpp:3162-3247 | A level takes interrupts from every privilege that may trap to it, from its own under its enable, and the highest level with one takes it |
| TrapSpec.EntryRecords | vp/src/core/rv32/iss.cpp:3418-3481 | Entry records cause, pc, privilege and enable for the handler, and leaves other levels alone |
| TrapSpec.ReturnLeaves | vp/src/core/rv32/iss.cpp:2326-2371 | A return puts the saved pc, privilege and enable in force, resets the record of its level only, and drops MPRV unless it goes to M |
| TrapSpec.HandlerAddresses | vp/src/core/rv32/iss.cpp:3390-3416 | Exceptions enter at the base, vectored interrupts four bytes apart by cause, nested-vectored ones through their table line |
| TrapSpec.HandlerStack | vp/src/core/rv32/iss.cpp:3294-3340 | Which trap stack pointer a handler gets from which privilege, and that no other changes |
| TrapSpec.EntryMasksItsLevel | vp/src/core/rv32/iss.cpp:3418-3481 | After entry no interrupt is taken at that level or below |
| TrapSpec.BalancedRunKeeps | vp/src/core/rv32/iss.cpp:3418-3481 | A balanced handler body, with traps to higher levels nested to any depth, keeps its level's saved state |
| TrapSpec.NestedTrapRoundTrip | vp/src/core/rv32/iss.cpp:2326-2371 | Entry, any balanced run, and the matching xRET restore privilege, pc, sp, the interrupt enable and every trap stack pointer; MPRV iff machine to machine |
| TrapSpec.SameLevelNesting | vp/src/core/rv32/iss.cpp:3418-3481 | After a trap nested at its own level, for every level, source privilege, cause and handler: the outer return goes to the nested trap's pc, at user privilege, with interrupts enabled, and the outer trap is undone iff all three were so |
| TrapHart.Iss.StspSwapSpOnModeChange | vp/src/core/rv32/iss.cpp:3294-3340 | The in-place exchange with the level's trap stack pointer |
| TrapHart.Iss.PrepareTrap | vp/src/core/rv32/iss.cpp:2904-2941 | The exception goes to the lowest level it is delegated to and that may take it, and its cause is recorded there |
| TrapHart.Iss.JumpToTrapVector | vp/src/core/rv32/iss.cpp:3390-3416 | Handler address for direct, vectored and nested-vectored modes |
| TrapHart.Iss.SwitchToTrapHandler | vp/src/core/rv32/iss.cpp:3418-3481 | The whole new state of trap entry |
| TrapHart.Iss.TakeException | vp/src/core/rv32/iss.cpp:2904-2941 | That level, and entry to it with the pc of the trapping instruction |
| TrapHart.Iss.ReturnFromTrapHandler | vp/src/core/rv32/iss.cpp:2326-2371 | The whole new state of MRET, SRET and virtual SRET |
| InstrWord.ReadR | vp/src/core/common/instr.cpp:882-907 | Factory then accessors: register formats read back |
| InstrWord.ReadShift | vp/src/core/common/instr.cpp:953-963 | Immediate shifts read back, with the top amount bit |
| InstrWord.ReadI | vp/src/core/common/instr.h:620-622 | I immediates read back for every 12-bit signed value |
| InstrWord.ReadS | vp/src/core/common/instr.h:624-626 | S immediates read back |
| InstrWord.ReadB | vp/src/core/common/instr.h:628-631 | B immediates read back for every even 13-bit signed value |
| InstrWord.ReadU | vp/src/core/common/instr.h:633-635 | U immediates read back |
| InstrWord.ReadJ | vp/src/core/common/instr.h:615-618 | J immediates read back for every even 21-bit signed value |
| CompressedIsa.FieldsAgree | vp/src/core/common/instr.cpp:821-884 | Every register field and immediate of a 16-bit word is read where the standard puts it, and fits its field |
| CompressedIsa.BuiltReadsBack | vp/src/core/common/instr.cpp:882-1002 | Every instruction the factory can build reads back as its operation and operands, and the 32-bit decoder gives the same operation (ADDI for C.ADDIW) |
| CompressedIsa.ExpansionDoesAsIsa | vp/src/core/common/instr.cpp:1172-1397 | For every 16-bit word and both architectures the expansion is the standard's, up to instructions that only write x0, iff the word is not the hint C.ADD with destination x0 |
| CompressedIsa.ExpansionHasIsaEffect | vp/src/core/rv32/iss.cpp:152-157 | On RV32, over every register file and pc, executing the expanded word has the effect the standard gives, with the same exception |
| CompressedIsa.AluEffect | vp/src/core/rv32/iss.cpp:243-281 | Register operations write their computation to the destination and go on |
| CompressedIsa.SumCountsUp | vp/src/core/rv32/iss.cpp:219-249 | Sums count up by one; with the lemma from zero and the difference they are decided |
| CompressedIsa.AndLaw | vp/src/core/rv32/iss.cpp:239-281 | A conjunction has the bits that both operands have |
| CompressedIsa.SignedShiftLaw | vp/src/core/rv32/iss.cpp:283-293 | The arithmetic shift moves by one place at a time and repeats the sign |
| CompressedIsa.JumpEffect | vp/src/core/rv32/iss.cpp:303-308 | Jumps link to the next instruction and add the offset |
| CompressedIsa.RegisterJumpEffect | vp/src/core/rv32/iss.cpp:310-315 | Register jumps link, and go to the sum rounded to an even address |
| CompressedIsa.BranchEffect | vp/src/core/rv32/iss.cpp:362-374 | Branches are taken on equal or on unequal registers |
| CompressedIsa.HintBreaks | vp/src/core/common/instr.cpp:1131-1147 | The hint expands to EBREAK |
| FlashBuffer.PatchBytes | vp/src/platform/basic/flash.h:39-43 | A write replaces the bytes it covers and keeps the others |
| FlashBuffer.Blockbuffer.SetPos | vp/src/platform/basic/flash.h:29-38 | Moving to a block never changes the blocks the buffer stands for |
| FlashBuffer.Blockbuffer.SetData | vp/src/platform/basic/flash.h:39-43 | Exactly the written bytes of exactly the active block change |
| FlashBuffer.Blockbuffer.GetData | vp/src/platform/basic/flash.h:44-47 | The bytes of the active block |
| FlashBuffer.Blockbuffer.Clear | vp/src/platform/basic/flash.h:72-77 | Afterwards the device itself holds every block |
| FlashBuffer.Flashcontroller.WriteData | vp/src/platform/basic/flash.h:164-176 | A data-region write patches the target block |
| FlashBuffer.Flashcontroller.ReadData | vp/src/platform/basic/flash.h:164-176 | A data-region read returns the target block's bytes and changes no block |
| FlashBuffer.Flashcontroller.Serve | vp/src/platform/basic/flash.h:139-178 | Any sequence of target changes, reads and writes, then a clear: answers and final device are those of a plain block array |
| Slip.FeedAllConcat | vp/src/platform/common/slip.cpp:129-153 | Decoding a concatenation is decoding in turn |
| Slip.PacketEndsOnce | vp/src/platform/common/slip.cpp:106-127 | The two escapes, and that the end byte stands only at the end of an encoding |
| Slip.DecodeRenders | vp/src/platform/common/slip.cpp:106-153 | What any list of packets decodes to |
| Slip.RoundTrip | vp/src/platform/common/slip.cpp:106-153 | Decoding the concatenated encodings returns exactly the list iff every packet is nonempty and none has ESC directly before ESC_END or ESC_ESC |
| Slip.EscapePairIsLost | vp/src/platform/common/slip.cpp:129-153 | A packet that does not survive: the condition is needed |
| Slip.SlipPort.WriteData | vp/src/platform/common/slip.cpp:129-153 | The in-place decoder is the specification's step, and the size never exceeds the allocation through growth and shrinking |
| Slip.SlipPort.HandleInput | vp/src/platform/common/slip.cpp:106-127 | The encoder loop is the specification's encoding |
| Slip.SlipPort.SendPacket | vp/src/platform/common/slip.cpp:93-104 | The packet leaves and the buffer is empty again |
| Crc8.RegisterIsRemainder | sw/crc8/main.c:22-31 | The byte-wise register is the remainder of bit-by-bit polynomial division of the whole message |
| Crc8.ResidueIsConstant | sw/crc8/main.c:8-34 | Appending the checksum drives the register to 0xC4 for every message |
| Crc8.ComputeCrc8 | sw/crc8/main.c:8-34 | The loop over an unmasked 64-bit register returns the checksum for every byte string |

## Left out

- SystemC time, TLM payloads, delays and the quantum keeper: a memory transaction is one atomic step.
- Bus masters that bypass the lock (APLIC initiator, debug transport, ethernet): atomicity does not hold against them.
- LR/SC with the MMU on: an A/D write-back of the walk goes through the unlocking store and drops the lock in the middle of an AMO or LR.
- Memory traps inside LR.W, SC.W and AMO accesses: the trap step of the protocol covers their effect on the lock and the counter.
- Sub-word and double-word memory accesses in the lock protocol: memory is word-addressed.
- The rv64 core and memory interface: the same logic with wider words.
- Floating-point execution, tracing, ELF loading, system calls, GDB, CSR name tables, main programs.
- APLIC, PLICs, UARTs, GPIO, CAN, display, ethernet, sensors, terminal, timers, DMA copy, SMPU attribute tables.
- S-level injected external interrupts and VSEIP raised by hvip in the topei invariant: the signalling and nesting results are those of a file whose pending bit is the hardware one, as at machine level.
- Software that changes xtvec mode between nested runs: nested runs are from reset with the mode fixed; the signalling invariant covers mode changes.
- Writes of hvictl and hgeip, after which the source delivers nothing: hvictl is a fixed input of the cascade.
- `update_dynamic_presence` of the priority registers: a register that is not present reads as zero, and the sets of implemented registers are fixed.
- Writes of xenvcfg, and the reserved MPP value 2, which mstatus writes do not sanitise.
- MajorIrq.MajorIrqPrepareIidPrio: the scan at S and VS level, whose priorities come from other registers; only the machine-level scan is modelled.
- TLB coherence across a change of satp, or a write of the page tables by software, without a flush: the architecture leaves it open.
- Sv64, whose top level shifts by a negative amount; Sv32, Sv39, Sv48 and Sv57 are modelled.
- Bus errors of page-table accesses, and G-stage translation.
- SPMP accesses over more than two words, which the core does not make.
- Spmp.GenericSpmp.FindMatchingEntry: NAPOT addresses with thirty or more trailing ones, whose mask is an int shifted into or past its sign bit.
- FlashBuffer.Flashcontroller.WriteData: accesses that run past the end of the block; the source checks the start address only and would copy past its buffer.
- FlashBuffer.Flashcontroller.ReadData: accesses that run past the end of the block, as for writes.
- TrapHart.Iss.PrepareTrap: the values of mtval, htval and xtinst and their siblings.
- TrapHart.Iss.JumpToTrapVector: the notification of the interrupt file; `ImsicFile.InterruptFile.NotifyIrqTaken` models it on its own.
- TrapHart.Iss.SwitchToTrapHandler: the release of the reservation, which `BusLocking.Machine.ReleaseLrScReservation` models, and the interrupt notification.
- The interrupt vector table fetch of nested-vectored mode: the pending fetch is recorded and the handler's pc is set by its work step.
- Multiplication, system and floating-point opcodes of the 32-bit decoder: no compressed instruction expands to them, and they are one result here.
- Alignment traps of loads, stores and jumps after expansion, and the C-extension check.
- I/O errors of the flash device and of the tunnel device; a failed reallocation.
