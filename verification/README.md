# pyremu: proofs about its memory hierarchy, interrupts and traps

pyremu is a RISC-V emulator written in Python with an optional native engine. This project models the
parts of it where correctness depends on several pieces of state agreeing with each other, and proves
what they are supposed to guarantee:

- the write-back L2 cache is invisible, over whole runs and across rounds in which the native engine
  edits RAM directly;
- a TLB hit gives what a page walk would give, over whole runs in which mode, mstatus, satp and page
  tables change;
- the PLIC, the APLIC and the IMSIC keep their state machines' promises, and the merge of the IMSIC files
  after an engine round loses no message;
- traps and returns undo each other to any depth, the right interrupt is taken, and the cached "nothing
  pending" agrees with the full check over every history;
- the PMP decision, its address encodings and its register packing mean what they should;
- bus routing is a function of the address.

`dafny verify dfyconfig.toml` checks everything.

## How the files go together

For every component there is a model on values (`L2Model`, `TlbModel`, `ImsicModel`, `PlicModel`,
`AplicModel`, `TrapModel`, `Interrupts`, `PmpDecision`, ...) with the invariants and the theorems, and a
class that does what the program does, in place and with its loops (`L2CacheClass`, `TlbClass`,
`HartMmuClass`, `ImsicClass`, `ImsicRoundClass`, `PlicClass`, `AplicClass`, `HartIrqClass`, `PmpClass`,
`BusRouting.Bus`). Each method of a class is proved to take `View()` to what the model says, so
a theorem about the model is a theorem about the class; the bus methods state their result outright.

Machine words are natural numbers; shifts and masks are divisions and remainders, and `Bits` proves that
they are the same. Interrupt and delegation registers are sets of bit numbers. Pending and enable banks
are sequences of 32-bit words, a word being its sequence of bits. A method that the program guards with a
lock is one atomic step.

## Where the code and its promises differ

These are proved, each with the exact condition under which the code does meet the promise:

- Stores of more than eight bytes bypass the L2 cache; they are transparent exactly where no valid line
  lies (`L2Handoff.BypassIsTransparentIff`).
- A TLB hit does not repeat the PMP check of the page table reads, so it differs from a walk exactly when
  PMP would deny that walk (`Translate.TranslationRefinesWalkIff`).
- A fence for one page of a changed 2 MiB leaf leaves the other pages of the leaf stale
  (`Translate.PageFenceRestoresIff`, `Translate.SuperpageSiblingIsStale`).
- The walk (`Sv39.WalkMeetsStandardIff`) maps addresses that are not canonical (`Sv39.MapsNonCanonical`),
  follows pointers with reserved bits set (`Sv39.FollowsReservedPointer`), maps no 1 GiB pages, and accepts
  misaligned superpages and leaves with reserved bits. Without the native library it also follows a
  second-level entry that is not valid (`Sv39.FollowsInvalidEntry`); the native parser is asked whether the
  entry is a pointer (pyremu/memory/mmu.py:361-366), and its walk is not part of the model.
- A claiming read of an IMSIC file clears candidates that it does not report (`ImsicModel.ClaimIsExactIff`);
  an identity whose low byte is zero can never be reported (`ImsicModel.ZeroPriorityIsLost`).
- An MSI that arrives and is claimed within one engine round is delivered again
  (`ImsicHandoff.ClaimedStaysClearedIff`, `ImsicHandoff.ClaimedInRoundComesBack`); an identity the engine
  sets is lost when a later message overwrites its copy (`ImsicHandoff.EngineSetSurvivesIff`).
- The last PLIC source is never arbitrated when the sources fill their enable words exactly
  (`PlicModel.LastSourceUnreachableIff`, `PlicModel.SourceOf128IsDeaf`); a claim while another is outstanding can forget a level
  (`PlicModel.ClaimKeepsLevelIff`).
- A sourcecfg write or `bind_source` can leave an APLIC source deliverable but undelivered
  (`AplicModel.StepKeepsNothingStuckIff`).
- The single interrupt priority list can put a delegated interrupt before one for M mode
  (`Interrupts.SelectMeetsStandardIff`, `Interrupts.DelegatedIsTakenFirst`); a supervisor software interrupt alone is not taken
  (`InterruptCache.LoneSsiTakenIff`); the cached answer can overlook it, or an external line
  (`InterruptCache.FastPathDisagreesIff`), and needs fewer than 2^16 bumps
  (`InterruptCache.WrapHidesInterrupt`, `InterruptCache.WrapIsReached`).
- MRET to a lower mode leaves MPRV set (`TrapModel.MretMeetsStandardIff`).
- PMP asks for R on every access (`PmpDecision.PermMeetsStandardIff`), wraps the top of a TOR region
  (`PmpDecision.InRangeIsContainmentIff`), passes over partial matches and, for M mode, over locked entries
  (`PmpDecision.ScanMeetsStandardIff`, `PmpDecision.LocksIgnoredIff`).

The comment on `IntStateVersion` (pyremu/interrupt/controller.py:49-63) says that wrapping delays a check
by one instruction; a poll that is answered from the cache does not refresh it, so the delay lasts until
the next bump or deadline.

## Model

| member | source | states |
|---|---|---|
| L2Model.AddressParts | pyremu/memory/l2cache.py:126-140 | an address is the base of its line plus its offset; that the masks compute the parts is `L2CacheClass.L2Cache.Fields` |
| L2Model.SetIsRemainder | pyremu/memory/l2cache.py:126-140 | with a power of two of sets the masked set index is the line number modulo the sets |
| L2Model.Victim | pyremu/memory/l2cache.py:364-379 | the chosen way is the first invalid one, else the least recently used |
| L2Model.VictimUnique | pyremu/memory/l2cache.py:364-379 | that description determines the way |
| L2Model.FillKeeps | pyremu/memory/l2cache.py:212-251 | a miss with its eviction keeps placement, one way per tag, the exact tag dictionary and clean-equals-RAM, and changes no byte of logical memory |
| L2Model.FillByte | pyremu/memory/l2cache.py:231-251 | every byte of logical memory is the same before and after an eviction and a refill |
| L2Model.FillIndex | pyremu/memory/l2cache.py:238-249 | after an eviction the tag dictionary holds exactly the valid tags |
| L2Model.TouchKeeps | pyremu/memory/l2cache.py:162-168 | a hit changes recency only |
| L2Model.AccessKeeps | pyremu/memory/l2cache.py:154-171 | hit or miss, an access keeps the invariant and logical memory and leaves the line resident |
| L2Model.AccessedLine | pyremu/memory/l2cache.py:154-171 | hit or miss, the accessed line carries the stamp and the domain of the access |
| L2Transparency.ReadLine | pyremu/memory/l2cache.py:154-171 | a load within a line returns logical memory and changes none of it |
| L2Transparency.ReadFrom | pyremu/memory/l2cache.py:173-210 | a load that crosses lines returns logical memory, whatever it evicts on the way |
| L2Transparency.Read | pyremu/memory/l2cache.py:142-210 | every load inside RAM returns logical memory; the invariant is kept |
| L2Transparency.ReadAdvance | pyremu/memory/l2cache.py:173-210 | one turn of the load loop: what is collected and what is still to come make up the whole load |
| L2Transparency.WriteLine | pyremu/memory/l2cache.py:263-285 | a store within a line updates exactly its bytes of logical memory |
| L2Transparency.WriteFrom | pyremu/memory/l2cache.py:287-321 | a store that crosses lines updates exactly its bytes |
| L2Transparency.Write | pyremu/memory/l2cache.py:253-321 | every store updates exactly the written bytes of logical memory and keeps the invariant |
| L2Transparency.WriteAdvance | pyremu/memory/l2cache.py:287-321 | one turn of the store loop keeps the final result |
| L2Transparency.StoredInTwo | pyremu/memory/l2cache.py:287-321 | a store equals its two halves one after the other |
| L2Transparency.InvalidateIsTransparent | pyremu/memory/l2cache.py:393-406 | dropping one line, with its write-back, is invisible |
| L2Transparency.DropDomainIsTransparent | pyremu/memory/cache_base.py:212-232 | dropping all lines of a domain is invisible and leaves none of them valid |
| L2Handoff.FlushedKeeps | pyremu/memory/l2cache.py:409-429 | after flush_all RAM is logical memory, nothing is MODIFIED, and logical memory is as before |
| L2Handoff.DiscardedPresentsRam | pyremu/memory/l2cache.py:431-450 | after invalidate_all logical memory is RAM, whatever RAM has become |
| L2Handoff.FlushingStep | pyremu/memory/l2cache.py:409-429 | one line flushed: the rest of the loop still ends in the same state |
| L2Handoff.EmptyingStep | pyremu/memory/l2cache.py:431-450 | one line dropped: the rest of the loop still ends in the same state |
| L2Handoff.BypassUncovered | pyremu/memory/bus.py:336-370 | a bulk store where no line is valid updates logical memory like any store |
| L2Handoff.BypassIsTransparentIff | pyremu/memory/bus.py:336-370 | a bulk store is transparent for every data exactly when no valid line lies over its range |
| L2Handoff.Step | pyremu/emu/native.py:95-186 | each load, store, invalidation and engine round acts on logical memory as on flat memory |
| L2Handoff.RunRefinesFlatMemory | pyremu/emu/native.py:95-186 | over any run all loads return what flat memory would and no write of interpreter or engine is lost or resurrected |
| L2Handoff.RoundIsEngine | pyremu/emu/native.py:95-186 | after an engine round logical memory and RAM are what the engine made of logical memory, and no line is valid |
| L2Handoff.CpuRunsAllowed | pyremu/memory/bus.py:336-347 | runs whose stores are at most eight bytes long meet the side condition of the run theorem |
| L2Handoff.ShortStoreIsStored | pyremu/memory/bus.py:331-347 | a store of at most eight bytes goes through the cache and updates logical memory, whichever lines are valid |
| L2Handoff.LongStoreIsRamOnly | pyremu/memory/bus.py:336-370 | a store of more than eight bytes that starts in RAM changes RAM and neither the lines nor the tag dictionary |
| L2Handoff.BulkAfterRoundAllowed | pyremu/memory/bus.py:336-370 | right after an engine round a bulk store anywhere in RAM is safe |
| L2Lru.LruExact | pyremu/memory/l2cache.py:154-171 | after any loads and stores, each within a line, to an empty cache a tag is held exactly when fewer than `ways` other tags of its set were accessed since its last access |
| L2Lru.HeldCount | pyremu/memory/l2cache.py:364-379 | a set holds at most its ways in distinct tags, and exactly its ways when all its lines are valid |
| L2Lru.SetHoldsMinimum | pyremu/memory/l2cache.py:364-379 | after any such run a set holds the smaller of its ways and the number of distinct tags accessed in it |
| L2Lru.StepLru | pyremu/memory/l2cache.py:263-285 | a load or store within a line, hit or miss, makes its tag the most recent and evicts the least recent |
| L2Lru.RunLru | pyremu/memory/l2cache.py:263-285 | after every run of loads and stores the recency stamps order the lines by last access, and what is missing is missing from a full set only |
| L2CacheClass.DirectRam.Read | pyremu/memory/bus.py:261-288 | without an alias window, a read returns the bytes of RAM at the mapped offset, and zeros elsewhere |
| L2CacheClass.DirectRam.Write | pyremu/memory/bus.py:290-316 | without an alias window, a write splices its bytes into RAM and changes nothing else; outside RAM it is dropped |
| L2CacheClass.FindWay | pyremu/memory/l2cache.py:162-171 | the loop over the ways finds the valid way with the tag, or reports that there is none |
| L2CacheClass.PickVictimInSet | pyremu/memory/l2cache.py:364-379 | the loop finds the victim of the specification |
| L2CacheClass.L2Cache.Fields | pyremu/memory/l2cache.py:126-140 | the masks and shifts compute offset, tag and set |
| L2CacheClass.L2Cache.LoadLine | pyremu/memory/l2cache.py:212-251 | eviction, refill and dictionary update in place are the model's fill |
| L2CacheClass.L2Cache.Read | pyremu/memory/l2cache.py:142-210 | the load loop returns logical memory and leaves it unchanged |
| L2CacheClass.L2Cache.Write | pyremu/memory/l2cache.py:253-321 | the store loop updates exactly the written bytes of logical memory |
| L2CacheClass.L2Cache.Invalidate | pyremu/memory/l2cache.py:393-406 | in place, as in the model |
| L2CacheClass.L2Cache.FlushByMdid | pyremu/memory/cache_base.py:212-232 | the loop drops exactly the lines of the domain |
| L2CacheClass.L2Cache.FlushAll | pyremu/memory/l2cache.py:409-429 | the loop ends with RAM equal to logical memory |
| L2CacheClass.L2Cache.InvalidateAll | pyremu/memory/l2cache.py:431-450 | the loop ends with an empty cache and untouched RAM |
| L2CacheClass.MainMem.Read | pyremu/memory/bus.py:349-357 | loads go through the cache and return logical memory |
| L2CacheClass.MainMem.Write | pyremu/memory/bus.py:336-370 | stores of up to eight bytes always update logical memory, whatever lines are valid; longer ones that start in RAM change RAM alone, which is a store to logical memory wherever no valid line lies |
| L2CacheClass.MainMem.EngineRound | pyremu/emu/native.py:95-186 | flush, engine, invalidate: logical memory and RAM become what the engine made of logical memory |
| BusRouting.RegistrationSucceedsIff | pyremu/memory/bus.py:451-474 | non-empty windows register exactly when they and RAM are pairwise apart, in any order |
| BusRouting.RegistrationIsDisjointness | pyremu/memory/bus.py:451-474 | in terms of addresses: non-empty windows register exactly when no address is in two of them or in one and in RAM |
| BusRouting.FitsIff | pyremu/memory/bus.py:462-474 | the overlap check of one window against those registered before |
| BusRouting.AddedKeeps | pyremu/memory/bus.py:451-474 | a registration keeps all windows and RAM apart; only an empty window can be replaced or replace another |
| BusRouting.OneOwner | pyremu/memory/bus.py:488-509 | an address belongs to at most one window, and to none when it is in RAM |
| BusRouting.OnlyLastOwns | pyremu/memory/bus.py:488-509 | only the last window that starts at or below an address can contain it |
| BusRouting.CountBelow | pyremu/memory/bus.py:488-509 | the binary search counts the windows that start at or below the address |
| BusRouting.SortedWindows | pyremu/memory/bus.py:488-509 | the cached list is sorted and holds exactly the registered windows |
| BusRouting.Bus.AddDevice | pyremu/memory/bus.py:451-474 | accepts a window exactly when it fits and forgets the cached list |
| BusRouting.Bus.FindDevice | pyremu/memory/bus.py:488-509 | the unique containing window with the right offset, or none when there is none |
| BusRouting.Bus.Read | pyremu/memory/bus.py:650-656 | a device address is handed to the device that owns it, with its offset, and this layer changes neither cache nor RAM; any other read is a load from logical memory |
| BusRouting.Bus.Write | pyremu/memory/bus.py:658-665 | a device address is handed to its device; a store of up to eight bytes to memory updates logical memory, a longer one that starts in RAM changes RAM alone |
| TlbModel.LookupIsRead | pyremu/memory/tlb.py:88-105 | a lookup hits exactly the held pages that match the address space and changes no content |
| TlbModel.InsertIsUpdate | pyremu/memory/tlb.py:107-153 | an insertion sets its page and evicts at most one other; the dictionary stays exact |
| TlbModel.ReplaceIsUpdate | pyremu/memory/cache_base.py:130-153 | the same when a slot is taken over |
| TlbModel.FlushIsRemoval | pyremu/memory/tlb.py:155-174 | a page flush removes that page only |
| TlbModel.DropDomainIsRemoval | pyremu/memory/tlb.py:186-197 | a domain flush removes exactly the entries of the domain |
| TlbModel.HitIsLatest | pyremu/memory/tlb.py:88-174 | over any run a hit gives the latest insertion of the page since its last flush |
| TlbModel.FifoResidence | pyremu/memory/cache_base.py:130-153 | under FIFO a page stays for exactly the next size - 1 insertions of new pages |
| TlbModel.FifoAge | pyremu/memory/cache_base.py:130-153 | the distance of a slot to the FIFO pointer shrinks by one with each new page |
| TlbModel.UseIsMostRecent | pyremu/memory/tlb.py:88-153 | a lookup that finds its page and an insertion make it the most recent of all |
| TlbModel.LruVictim | pyremu/memory/cache_base.py:130-153 | under LRU a new page evicts nothing while a slot is free, and otherwise the page used least recently; so with two slots or more the most recent page stays |
| TlbClass.TLB.FindIndex | pyremu/memory/cache_base.py:103-119 | the dictionary finds the slot of a page; the stale-entry branch is never taken |
| TlbClass.TLB.LookupVpn | pyremu/memory/tlb.py:88-105 | in place, as in the model |
| TlbClass.TLB.PickSlot | pyremu/memory/cache_base.py:130-153 | the loops over the slots find the victim of the policy |
| TlbClass.TLB.InsertEntry | pyremu/memory/tlb.py:107-153 | in place, as in the model |
| TlbClass.TLB.FlushPage | pyremu/memory/tlb.py:155-174 | in place, as in the model |
| TlbClass.TLB.FlushEverything | pyremu/memory/tlb.py:176-184 | in place, as in the model |
| TlbClass.TLB.FlushByMdid | pyremu/memory/tlb.py:186-197 | the loop drops exactly the entries of the domain |
| Sv39.SetThenGet | pyremu/memory/mmu.py:186-206 | setting a page number and reading it back gives its low 44 bits; flags and the bits above 57 are kept |
| Sv39.FlagsDecode | pyremu/memory/mmu.py:120-172 | R, W, X and U are bits 1, 2, 3 and 4 of an entry, whatever the others are |
| Sv39.CanonicalIsEnds | pyremu/memory/mmu.py:263-274 | the canonical addresses are the lowest and the highest 2^38 bytes |
| Sv39.PpnIsFieldIff | pyremu/memory/mmu.py:174-194 | the getter is the standard's 44-bit field exactly when bits 57 to 54 are clear |
| Sv39.PTE.SetPpn | pyremu/memory/mmu.py:196-206 | the setter in place |
| Sv39.WalkMeetsStandardIff | pyremu/memory/mmu.py:299-380 | the walk gives the standard's translation exactly when the address is canonical and each entry it reads is one the standard treats alike, or it is not canonical and the entries lead to no leaf |
| Sv39.FollowsInvalidEntry | pyremu/memory/mmu.py:361-367 | without the native library: tables for which the walk maps a page through an entry that is not valid |
| Sv39.FollowsReservedPointer | pyremu/memory/mmu.py:338-344 | tables for which the walk follows a pointer with reserved bits set |
| Sv39.MapsNonCanonical | pyremu/memory/mmu.py:263-274 | an address that is not canonical is mapped |
| Sv39.StandardMapsFlags | pyremu/memory/mmu.py:299-380 | what the standard gives on those tables for every combination of leaf flags, and for a pointer with U, A or D set |
| Sv39.SuperpageIsUniform | pyremu/memory/mmu.py:347-358 | all pages of a 2 MiB leaf have its frame and permission |
| Sv39.SamePage | pyremu/memory/mmu.py:299-336 | the result depends on the page of the address only, so one entry serves the page |
| Sv39.PpnBound | pyremu/memory/mmu.py:347-360 | page numbers of a walk fit in 48 bits, also for a 4 KiB part of a superpage |
| Translate.CheckPtePerm | pyremu/core/mem_check_aux.py:121-163 | permission as in the standard for every leaf that is not writable without being readable |
| Translate.AccessLevel | pyremu/core/mem_check_aux.py:226-244 | with and without the TLB: U mode is checked at level 0, S mode at 1, M mode with MPRV at MPP unless that is M; every other access of M mode, and all accesses while the mode field is 0, go untranslated |
| Translate.FetchLevel | pyremu/core/mem_check_aux.py:637-684 | fetches of U and S mode are checked at 0 and 1, those of M mode go untranslated |
| Translate.FreshMeetsStandard | pyremu/core/mem_check_aux.py:121-403 | an access or fetch has the outcome of the standard, computed from satp, mode, MPRV, MPP, SUM and MXR, wherever the walk meets the standard and the leaf is not writable without being readable |
| Translate.FlagVerdicts | pyremu/core/mem_check_aux.py:121-163 | for a page whose entry has any combination of the flag bits 1 to 4: which loads, stores and fetches of U and S mode get its address and which fault |
| Translate.TranslationRefinesWalkIff | pyremu/core/mem_check_aux.py:291-403 | a load or store translation has the outcome of a fresh walk for every mode, SUM and MXR, except exactly a hit whose walk PMP would deny; what that outcome is, `Translate.FreshMeetsStandard` says |
| Translate.FetchRefinesWalkIff | pyremu/core/mem_check_aux.py:637-684 | the same for fetches |
| Translate.AccessMeetsStandard | pyremu/core/mem_check_aux.py:291-403 | through a coherent TLB, hit or miss, accesses and fetches have the outcome of the standard under the same conditions |
| Translate.DevicePagesAreNotHeld | pyremu/core/mem_check_aux.py:361-403 | an access enters no page but its own, and that one only when it is mapped and not a device |
| Translate.SatpWrittenOk | pyremu/core/hart.py:782-805 | the mode in force is bits 63 to 60 of the value written, the root its low 44 bits, and the address space field reads zero |
| Translate.SatpWriteRestores | pyremu/core/hart.py:782-805 | a satp write makes both TLBs coherent with any page tables |
| Translate.FencesAre | pyremu/core/decoder/sys_ops.py:61-75 | page by page, what a fence for one page, for everything or for a domain, and a satp write, leave in both TLBs |
| Translate.StepRefinesWalk | pyremu/core/mem_check_aux.py:361-403 | every access, mode change, fence and satp write keeps coherence and is answered as without TLBs |
| Translate.RunRefinesWalk | pyremu/core/mem_check_aux.py:361-403 | over any run all translations and fetches are as with the TLBs switched off |
| Translate.PageFenceRestoresIff | pyremu/core/decoder/sys_ops.py:61-69 | after any change of the page tables a fence for one page restores coherence exactly when every other page held is mapped as before |
| Translate.SuperpageSiblingIsStale | pyremu/core/mem_check_aux.py:340-358 | after a 2 MiB leaf has changed, a fence for one of its pages leaves its other pages with the old translation |
| Translate.AlignedStaysInPage | pyremu/core/mem_check_aux.py:515-537 | an aligned access lies in one page, so the cross-page split is never taken |
| HartMmuClass.HartMmu.TranslateAddr | pyremu/core/mem_check_aux.py:361-403 | in place: TLB lookup, permission re-check, walk and insertion are the model's step; the level is written out from mode, MPRV and MPP |
| HartMmuClass.HartMmu.TranslateFetch | pyremu/core/mem_check_aux.py:637-684 | in place, for fetches; the level is written out from the mode |
| HartMmuClass.HartMmu.SetSatp | pyremu/core/hart.py:782-805 | in place: register, mode and both flushes |
| HartMmuClass.HartMmu.Sfence | pyremu/core/decoder/sys_ops.py:61-69 | one page or everything in both TLBs of a hart; the source repeats it for every hart |
| HartMmuClass.HartMmu.MfenceDid | pyremu/core/decoder/sys_ops.py:71-75 | the entries of a domain in both TLBs of a hart; the source repeats it for every hart and then for the L2 cache, as in `L2CacheClass.L2Cache.FlushByMdid` |
| Words.EmptyBank | pyremu/interrupt/imsic.py:98-108 | all words are zero exactly when no identity is pending |
| ImsicModel.CandidateBit | pyremu/interrupt/imsic.py:202-206 | the candidate word has the bits that are pending and, unless they are IPIs, enabled |
| ImsicModel.TopOfIsMaximum | pyremu/interrupt/imsic.py:207-212 | the highest set bit of a word is its highest candidate identity |
| ImsicModel.IpiBits | pyremu/interrupt/imsic.py:190-196 | identities 3 and 1 come first, in that order, without enable or delivery |
| ImsicModel.PeekIsHighestIff | pyremu/interrupt/imsic.py:176-214 | without an IPI the file reports its highest enabled pending identity exactly when its low byte exceeds the threshold |
| ImsicModel.PeekIs | pyremu/interrupt/imsic.py:176-258 | what a file reports and a claiming read clears, for every file: IPI 3, else IPI 1, nothing while delivery is off, and otherwise the leader of the highest word whose leader passes, with all leaders above it cleared |
| ImsicModel.ScanIs | pyremu/interrupt/imsic.py:202-214 | the scan by itself: word by word, which identity it reports and which it gives up |
| ImsicModel.ZeroIsNothing | pyremu/interrupt/imsic.py:176-214 | reading zero means that nothing is reported |
| ImsicModel.ClaimIsExactIff | pyremu/interrupt/imsic.py:216-258 | a claiming read clears exactly what it reports, exactly when an IPI is pending, delivery is off, nothing is eligible, or the highest eligible identity passes |
| ImsicModel.ZeroPriorityIsLost | pyremu/interrupt/imsic.py:250-258 | a highest identity that is a multiple of 256 is cleared and not reported |
| ImsicModel.ClaimShrinks | pyremu/interrupt/imsic.py:216-258 | a read that reports something removes it and never adds anything |
| ImsicModel.DrainIsBounded | pyremu/interrupt/imsic.py:216-258 | a run of reads reports each identity at most once and ends within the number that was pending |
| ImsicModel.PendingWrites | pyremu/interrupt/imsic.py:110-124 | setting and clearing change one identity, never 0, and keep the cached flag exact |
| ImsicModel.CsrWriteKeeps | pyremu/interrupt/imsic.py:278-320 | every register write keeps the cached flag exact; only the pending registers change what is pending |
| ImsicModel.CsrWriteIs | pyremu/interrupt/imsic.py:278-320 | what a write to each register number leaves of delivery, threshold and every pending and enable bit |
| ImsicClass.ImsicFile.UpdateAnyExt | pyremu/interrupt/imsic.py:98-108 | the loop sets the flag to whether some word is non-zero |
| ImsicClass.ImsicFile.SetPendingBit | pyremu/interrupt/imsic.py:110-116 | in place, as in the model |
| ImsicClass.ImsicFile.ClearPendingBit | pyremu/interrupt/imsic.py:118-124 | in place, as in the model |
| ImsicClass.ImsicFile.WriteCsr | pyremu/interrupt/imsic.py:278-320 | in place, as in the model |
| ImsicClass.ImsicFile.Peek | pyremu/interrupt/imsic.py:176-214 | the downward scan reports the model's top value |
| ImsicClass.ImsicFile.Read | pyremu/interrupt/imsic.py:216-258 | reports what a peek would and clears what the model claims |
| ImsicHandoff.MergeBits | pyremu/core/hart_ffi.py:42-55 | an identity is in the merge exactly when the engine left it or the device set it after the snapshot |
| ImsicHandoff.GateIsExternal | pyremu/core/hart_ffi.py:207-248 | before a round the gate is up exactly when an identity other than 1 and 3 is pending |
| ImsicHandoff.GateNeverMisses | pyremu/interrupt/imsic.py:519-539 | whenever pending bits are published to the engine, its gate is up exactly when some identity is pending |
| ImsicHandoff.DeviceHasWanted | pyremu/interrupt/imsic.py:541-566 | the device's file holds what the device thread last asked for, or the snapshot |
| ImsicHandoff.EngineHas | pyremu/interrupt/imsic.py:519-539 | the engine's copy holds its own last word since the last publication, or the device's file |
| ImsicHandoff.NoMsiIsLost | pyremu/core/hart_ffi.py:250-285 | over every interleaving an identity last injected, or pending at the snapshot and untouched, is pending after the merge |
| ImsicHandoff.ConfigurationIsLast | pyremu/core/hart_ffi.py:207-285 | over every interleaving, enables, delivery and threshold after a round are those of the engine's last configuration, or of the file at the snapshot when there is none |
| ImsicHandoff.InjectedIsReported | pyremu/core/hart_ffi.py:250-285 | an identity that the engine enabled and a device injected in one round is reported after it, once it is the highest, whatever else happened in the round |
| ImsicHandoff.ClaimedStaysClearedIff | pyremu/core/hart_ffi.py:250-285 | a claimed identity stays cleared exactly when the device no longer wants it, or it was in the snapshot and nothing was published later |
| ImsicHandoff.EngineSetSurvivesIff | pyremu/interrupt/imsic.py:519-539 | an identity the engine set survives exactly when nothing was published later or the device wants it too |
| ImsicHandoff.ClaimedInRoundComesBack | pyremu/core/hart_ffi.py:42-55 | an MSI that arrives and is claimed in one round is pending again after it |
| ImsicRoundClass.Handoff.MarshalFile | pyremu/core/hart_ffi.py:207-248 | snapshot, copies and gate in place, for one file: pending and enable words, delivery and threshold are the file's |
| ImsicRoundClass.Handoff.MergeInto | pyremu/core/hart_ffi.py:42-55 | the merge, word by word |
| ImsicRoundClass.Handoff.UnmarshalFile | pyremu/core/hart_ffi.py:250-285 | the file after a round is the model's, with its flag recomputed; enables, delivery and threshold are the engine's |
| ImsicRoundClass.Handoff.SetIpNumber | pyremu/interrupt/imsic.py:541-553 | injection and publication |
| ImsicRoundClass.Handoff.ClearIpNumber | pyremu/interrupt/imsic.py:555-568 | withdrawal and publication |
| PlicModel.FindHighest | pyremu/interrupt/plic.py:138-170 | the result is eligible and before every other eligible source, or there is none |
| PlicModel.ServedIs | pyremu/interrupt/plic.py:138-170 | the source a claim returns is pending, enabled and above the threshold, has the highest priority and among those the lowest number; zero means there is none, the last of full enable words aside |
| PlicModel.LastSourceUnreachableIff | pyremu/interrupt/plic.py:155-156 | in no reachable state, over loads, stores and device events, does a claim return the last source, exactly when the number of sources is a multiple of 32 or at least 1024 |
| PlicModel.LastSourceIsDeaf | pyremu/interrupt/plic.py:155-156 | with a multiple of 32 sources no claim in any state returns the last one |
| PlicModel.SourceOf128IsDeaf | pyremu/interrupt/plic.py:155-156 | source 128 of 128, asserted with priority 7, is never served |
| PlicModel.EnableReadsBack | pyremu/interrupt/plic.py:291-307 | a written enable word reads back without the bits of sources that do not exist; no other word changes |
| PlicModel.RegistersReadBack | pyremu/interrupt/plic.py:189-252 | priorities and thresholds read back as their low three bits; pending words do not change by stores |
| PlicModel.SourceRegisterMap | pyremu/interrupt/plic.py:189-252 | the byte offsets of priorities and pending words |
| PlicModel.EnableRegisterMap | pyremu/interrupt/plic.py:189-252 | the byte offsets of the enable words, for loads and stores |
| PlicModel.ContextRegisterMap | pyremu/interrupt/plic.py:209-252 | the byte offsets of thresholds and claim registers: what a store there does, and what a load returns and leaves |
| PlicModel.PendingImpliesLevel | pyremu/interrupt/plic.py:104-115 | in every reachable state a pending source is asserted |
| PlicModel.LevelIsLastDrive | pyremu/interrupt/plic.py:104-115 | over every run the level of a source is that of the last device call about it; driven low last it is not pending, and right after it is driven high it is |
| PlicModel.ClaimKeepsLevelIff | pyremu/interrupt/plic.py:256-267 | a claim keeps "asserted implies pending or claimed" exactly when it does not displace an asserted source in service |
| PlicModel.CompleteKeepsLevel | pyremu/interrupt/plic.py:269-278 | a completion keeps it, by pending the source again while its level is high |
| PlicModel.CompleteIs | pyremu/interrupt/plic.py:269-278 | a completion of the source in service ends it and pends the source again exactly when its level is high; any other completion changes nothing |
| PlicModel.LevelNeverLost | pyremu/interrupt/plic.py:256-278 | on runs that claim only with no claim outstanding no asserted level is forgotten, for any contexts sharing sources |
| PlicModel.ClaimTakesBest | pyremu/interrupt/plic.py:256-267 | a claim removes the best eligible source and only it; zero exactly when none is eligible |
| PlicModel.DrainIsSort | pyremu/interrupt/plic.py:256-267 | repeated claims return every eligible source once, by descending priority and ascending number, then zero |
| PlicModel.LineIsUpIff | pyremu/interrupt/plic.py:117-134 | an interrupt line is up exactly when a drain would not be empty |
| PlicClass.PLIC.SetSource | pyremu/interrupt/plic.py:104-115 | in place, as in the model |
| PlicClass.PLIC.Highest | pyremu/interrupt/plic.py:138-170 | the loop over pending sources finds the best one |
| PlicClass.PLIC.DoClaim | pyremu/interrupt/plic.py:256-267 | in place, as in the model: the source returned was servable, is no longer pending and is in service; zero changes nothing |
| PlicClass.PLIC.DoComplete | pyremu/interrupt/plic.py:269-278 | in place, as in the model |
| PlicClass.PLIC.WriteEnableWord | pyremu/interrupt/plic.py:296-307 | the masks keep exactly the bits of existing sources |
| PlicClass.PLIC.StoreRegister | pyremu/interrupt/plic.py:221-252 | the register map, in place |
| PlicClass.PLIC.LoadRegister | pyremu/interrupt/plic.py:189-219 | every register reads as it should; only the claim register has a side effect |
| PlicClass.PLIC.GetPendingMip | pyremu/interrupt/plic.py:117-134 | the lines of a hart's two contexts |
| AplicModel.InactiveNeverPends | pyremu/interrupt/aplic.py:284-296 | in every reachable state an inactive source is not pending |
| AplicModel.StepKeepsNothingStuckIff | pyremu/interrupt/aplic.py:137-204 | a step keeps "domain on implies nothing both enabled and pending" exactly when it is not a stranding sourcecfg write or bind |
| AplicModel.StoreNotStuckIff | pyremu/interrupt/aplic.py:271-324 | the same for register writes |
| AplicModel.MessagesMatchFirings | pyremu/interrupt/aplic.py:137-188 | a source that stays enabled and routed sends one message for each call that fires its trigger type, over any run of events |
| AplicModel.TriggerFirings | pyremu/interrupt/aplic.py:160-185 | for each trigger type, which calls of a device are interrupts, by the levels before and after |
| AplicModel.EdgesConserved | pyremu/interrupt/aplic.py:137-188 | over any run the messages of a routed source equal the interrupts of its input: rising edges, falling edges, calls at the high level or calls at the low level, by its trigger type |
| AplicModel.IrqIs | pyremu/interrupt/aplic.py:137-188 | one device call in any state of the source: what becomes of input and pending bit, and whether a message goes out |
| AplicModel.BoundSourceSends | pyremu/interrupt/aplic.py:190-204 | a bound source is high-level triggered and enabled, and sends to the hart and identity it was bound to |
| AplicModel.TargetRoutes | pyremu/interrupt/aplic.py:411-430 | a message goes to the hart in bits 31 to 18 of the target as the identity in bits 10 to 0; without an identity none is sent |
| AplicModel.BitmapRegisters | pyremu/interrupt/aplic.py:252-360 | a write to a setip, clrip, setie or clrie word sets or clears that bit of each selected source, delivers where it should, and leaves the others alone |
| AplicModel.NumberedRegisters | pyremu/interrupt/aplic.py:298-324 | the numbered registers at 0x1CDC, 0x1DDC, 0x1EDC, 0x1FDC and 0x2000 do the same to the one source written |
| AplicModel.SourceRegisters | pyremu/interrupt/aplic.py:284-304 | what a sourcecfg or target word leaves at its source, by trigger type and input; no message is sent |
| AplicModel.DomainRegister | pyremu/interrupt/aplic.py:271-282 | switching the domain on sends one message for each source that is pending and enabled and unpends it; switching it off sends none |
| AplicModel.OtherRegistersAreIgnored | pyremu/interrupt/aplic.py:252-324 | a write to any other offset changes nothing |
| AplicModel.RetriggerSendsIff | pyremu/interrupt/aplic.py:321-405 | asking a level source to pend again sends exactly while its input is active |
| AplicClass.APLIC.DriveSource | pyremu/interrupt/aplic.py:137-188 | in place, as in the model |
| AplicClass.APLIC.Bind | pyremu/interrupt/aplic.py:190-204 | in place, as in the model |
| AplicClass.APLIC.DeliverFromSource | pyremu/interrupt/aplic.py:411-430 | in place, as in the model |
| AplicClass.APLIC.PendBySoftware | pyremu/interrupt/aplic.py:377-405 | sets the bit, and says so, exactly when the trigger type and input allow it |
| AplicClass.APLIC.WriteDomain | pyremu/interrupt/aplic.py:271-282 | the loop over all sources |
| AplicClass.APLIC.WriteSourceConfig | pyremu/interrupt/aplic.py:284-296 | in place, as in the model |
| AplicClass.APLIC.WriteBitmap | pyremu/interrupt/aplic.py:339-360 | the loop over the bits of a word |
| AplicClass.APLIC.StoreRegister | pyremu/interrupt/aplic.py:252-324 | the register map, in place |
| TrapModel.MretUndoesTrap | pyremu/core/trap_handler.py:227-284 | trap to M and mret restore mode, pc and MIE; every register that may differ is listed with its value |
| TrapModel.LandingIs | pyremu/core/trap_handler.py:271-277 | entries are aligned; vectors keep interrupts apart and exceptions share the base |
| TrapModel.EntryIs | pyremu/core/trap_handler.py:115-284 | the whole state at a trap entry: the level by delegation, the pc at the base or 4 * code above it, cause and value, the enable of the level off and recorded, the other level's registers kept |
| TrapModel.EncodedInjective | pyremu/core/trap_def.py:69-110 | the cause code with its interrupt flag determines the trap |
| TrapModel.SretUndoesTrap | pyremu/core/trap_handler.py:165-210 | the same for S and sret |
| TrapModel.HandlerReturns | pyremu/core/trap_handler.py:402-468 | handlers nested to any depth, whose own work may leave anything in any register but those it must keep, come back to their mode, enables and pc, and keep the return context of the handler they interrupted |
| TrapModel.ReturnRestores | pyremu/core/trap_handler.py:402-468 | a return puts back mode, pc and enable from what the entry of its level recorded |
| TrapModel.BodyInMKeepsS | pyremu/core/trap_handler.py:227-268 | whatever M-mode handlers do, an interrupted S handler finds sepc, SPP and SPIE intact |
| TrapModel.TrapTreeResumes | pyremu/core/trap_handler.py:115-161 | a disciplined handler resumes the interrupted program in any mode and at any depth |
| TrapModel.UnsavedNestingIsLost | pyremu/core/trap_handler.py:227-268 | without saving its context an M handler that is trapped into does not come back |
| TrapModel.SavedNestingResumes | pyremu/core/trap_handler.py:227-268 | the same nesting with the context saved resumes the interrupted program |
| TrapModel.RiseIsByTrap | pyremu/core/trap_handler.py:115-284 | over any run, with programs writing any registers on the way, every step that raises privilege took a trap and landed on the entry or vector of its mode with the way back recorded |
| TrapModel.MretMeetsStandardIff | pyremu/core/trap_handler.py:413-431 | mret agrees with the standard on MPRV exactly when MPRV is clear or MPP is M |
| Interrupts.First | pyremu/core/trap_handler.py:682-690 | the loop over the priority list finds its first member in a set |
| Interrupts.PollTakesFirst | pyremu/core/trap_handler.py:664-691 | a poll that takes an interrupt takes one that is pending and enabled; if delegated the mode is U, or S with SIE set, and if not, a mode below M, or M with MIE set; it comes before all others of the kind in the order MEI, MSI, MTI, SEI, SSI, STI, and its trap enters S exactly when delegated |
| Interrupts.SyncedIs | pyremu/core/trap_handler.py:633-656 | mip after synchronisation, bit by bit: software, timer and external bits as the hardware has them, all others as before |
| Interrupts.SelectIs | pyremu/core/trap_def.py:130-137 | the choice among the open interrupts, number by number |
| Interrupts.FullPollTakesIff | pyremu/core/trap_handler.py:625-691 | a full poll takes something exactly when the hardware reports anything and some pending and enabled interrupt is open to the mode |
| Interrupts.NothingChosenIff | pyremu/core/trap_handler.py:664-691 | nothing is chosen exactly when each pending and enabled interrupt is delegated in M mode or in S mode with SIE clear, or not delegated in M mode with MIE clear |
| Interrupts.HandlerRunsAlone | pyremu/core/trap_handler.py:664-691 | right after a trap to M mode nothing can be taken, and after a trap to S mode nothing delegated |
| Interrupts.EnteredWithdraws | pyremu/core/trap_handler.py:214-284 | an entry withdraws the machine software interrupt in mip and controller, the supervisor one in mip when delegated, and nothing else |
| Interrupts.NextTimerIsEarliest | pyremu/core/trap_handler.py:513-533 | the cached deadline is the earliest set deadline of an enabled timer, and zero when there is none |
| Interrupts.SelectMeetsStandardIff | pyremu/core/trap_def.py:130-137 | the choice is the standard's exactly when no deliverable delegated interrupt ranks before every deliverable one for M mode, or there is none for M mode |
| Interrupts.DelegatedIsTakenFirst | pyremu/core/trap_def.py:130-137 | a delegated SEI is taken before an SSI for M mode |
| InterruptCache.StepKeepsInv | pyremu/core/hart.py:437-445 | every clock, controller, register, trap, engine-round and poll event keeps the cache invariant |
| InterruptCache.RegisterWritesAre | pyremu/core/hart.py:511-539 | what writes to mip, sip, mie and sie leave, bit by bit |
| InterruptCache.ControllerWritesAre | pyremu/interrupt/clint.py:127-163 | what ticks and writes to the timers, comparators and software interrupts leave, and their version bumps |
| InterruptCache.HitOffersOnly | pyremu/core/trap_handler.py:513-533 | with a valid cache and no deadline reached only SSIP and the external lines can be deliverable |
| InterruptCache.FastPathDisagreesIff | pyremu/core/trap_handler.py:625-691 | on a hit within 2^16 bumps the full check takes something exactly when an external line or an unwatched deadline opens it and an overlooked bit is deliverable |
| InterruptCache.FastPathSound | pyremu/core/trap_handler.py:625-691 | over every history: on a hit within 2^16 bumps, with no external line and SSIP and SSIE not both set, the full check takes nothing |
| InterruptCache.WrapHidesInterrupt | pyremu/interrupt/controller.py:49-77 | after exactly 2^16 bumps an enabled software interrupt is overlooked |
| InterruptCache.WrapIsReached | pyremu/interrupt/controller.py:49-77 | a run of a poll, a software interrupt and 65535 register writes that ends with the interrupt overlooked |
| InterruptCache.LoneSsiTakenIff | pyremu/core/trap_handler.py:658-662 | a supervisor software interrupt alone is taken exactly when some hardware source is pending too |
| HartIrqClass.IntStateVersion.Bump | pyremu/interrupt/controller.py:49-77 | the counter modulo 2^16 |
| HartIrqClass.CLINT.NotifyStateChange | pyremu/interrupt/clint.py:122-125 | every registered version is bumped once |
| HartIrqClass.CLINT.SetMsip | pyremu/interrupt/clint.py:127-137 | one bit, and a notification when the hart exists |
| HartIrqClass.CLINT.SetTimer | pyremu/interrupt/clint.py:159-163 | one comparator, and a notification when the hart exists |
| HartIrqClass.CLINT.CheckInterrupt | pyremu/interrupt/clint.py:85-113 | software and timer bits of a hart |
| HartIrqClass.HartIrq.ResolveStip | pyremu/core/trap_handler.py:71-90 | the comparator decides the bit when there is one, software otherwise |
| HartIrqClass.HartIrq.ComputeNextTimer | pyremu/core/trap_handler.py:513-533 | the earliest deadline of an enabled timer, or zero |
| HartIrqClass.HartIrq.DeliverTrap | pyremu/core/trap_handler.py:115-284 | in place: delegation, entry, reservation, and withdrawal of a software interrupt in mip and CLINT |
| HartIrqClass.HartIrq.TrapMret | pyremu/core/trap_handler.py:402-431 | in place, as in the model |
| HartIrqClass.HartIrq.TrapSret | pyremu/core/trap_handler.py:439-468 | in place, as in the model |
| HartIrqClass.HartIrq.SyncMip | pyremu/core/trap_handler.py:633-656 | hardware bits of mip replaced, software bits kept |
| HartIrqClass.HartIrq.FirstDeliverable | pyremu/core/trap_handler.py:664-690 | the loop finds the choice of the model; what it returns is open to the mode by the bits written out, and when it returns nothing no pending and enabled interrupt is |
| HartIrqClass.HartIrq.CheckPendingInterrupts | pyremu/core/trap_handler.py:602-691 | fast path, full check, cache fill and delivery are the model's poll, given the external lines; what is taken, and what is passed over, stands in the bits of mode, mideleg, SIE and MIE |
| ExternalLines.LinesDownIff | pyremu/core/trap_handler.py:643-650 | the external lines are down exactly when no interrupt file has an identity on top and no claim of the hart would return a source |
| ExternalLines.LinesAre | pyremu/core/trap_handler.py:643-650 | the machine line is up exactly when the M file reports, or neither file does and the even context of the hart has a source to serve; the supervisor line likewise with the S file and the odd context |
| ExternalLines.FastPathSoundWithDevices | pyremu/core/trap_handler.py:625-691 | the soundness of the fast path with the lines as the IMSIC files and the PLIC drive them |
| ExternalLines.Query | pyremu/core/trap_handler.py:643-650 | the IMSIC is asked first, the PLIC only when it reports nothing |
| ExternalLines.PollDevices | pyremu/core/trap_handler.py:602-691 | the whole poll over the device objects |
| PmpModel.NapotRoundTrip | pyremu/memory/pmp.py:52-79 | decoding undoes encoding for every aligned region of 8 to 2^56 bytes |
| PmpModel.NapotIsAligned | pyremu/memory/pmp.py:52-79 | every register value decodes to a region aligned to its size, and encodes back |
| PmpDecision.InRangeIsContainmentIff | pyremu/memory/pmp.py:82-99 | for TOR the comparison is containment for every access exactly when the top does not wrap |
| PmpDecision.MatchIsContainment | pyremu/memory/pmp.py:320-341 | an active entry matches exactly the accesses it contains, unless it is a wrapping TOR entry |
| PmpDecision.ByBytes | pyremu/memory/pmp.py:82-99 | containment and overlap in terms of single bytes |
| PmpDecision.PermMeetsStandardIff | pyremu/memory/pmp.py:102-110 | permission is the standard's exactly unless R is clear and the access is a write or fetch that W and X allow |
| PmpDecision.ScanIsFirstMatch | pyremu/memory/pmp.py:282-297 | the scan gives the permission of the lowest active entry that contains the access, else the default |
| PmpDecision.CheckIsFirstMatch | pyremu/memory/pmp.py:231-297 | M mode without MPRV passes; an enclave split past the entries, or no entries, refuses; otherwise bits R, W and X of the lowest active entry in sight that contains the access decide, and without one only M mode with MPP neither 0 nor 1 passes |
| PmpDecision.UncoveredIsRefused | pyremu/memory/pmp.py:231-297 | where no active entry in sight contains the access it is refused to U and S and to M acting for them by MPRV |
| PmpDecision.EntryVerdicts | pyremu/memory/pmp.py:102-110 | one entry with any R, W and X bits, off, TOR, NA4 or NAPOT: exactly which accesses it grants |
| PmpDecision.TorVerdict | pyremu/memory/pmp.py:320-341 | a TOR entry starts at the address register below it, also when that entry is off |
| PmpDecision.ScanMeetsStandardIff | pyremu/memory/pmp.py:282-297 | the scan is the standard's exactly when a partial match that comes first is not followed by a grant, and otherwise the deciding entry, with its lock bit, says the same to both |
| PmpDecision.ScanGrantsIff | pyremu/memory/pmp.py:282-297 | the scan allows an access exactly when the lowest active entry that contains it permits it, or there is none and the default allows it |
| PmpDecision.LocksIgnoredIff | pyremu/memory/pmp.py:231-238 | letting M mode pass unchecked is right exactly when the first entry that covers a byte covers all and is not locked against the access |
| PmpDecision.LockedRegionIsRead | pyremu/memory/pmp.py:236-238 | M mode reads a locked region without permissions |
| PmpDecision.PartialMatchIsGranted | pyremu/memory/pmp.py:290-297 | an access that entry 0 covers in part and refuses is granted by entry 1 |
| PmpDecision.EnclaveSeesOnlyItsEntries | pyremu/memory/pmp.py:278-284 | an enclave's verdict depends only on the entries from the split on, and on one address below when the first of them is TOR |
| PmpCsrs.LaneIsShift | pyremu/memory/pmp.py:46-49 | taking a byte out by shift and mask |
| PmpCsrs.SetLaneIsMask | pyremu/memory/pmp.py:217-222 | replacing a byte under a mask |
| PmpCsrs.LaneOfSetLane | pyremu/memory/pmp.py:217-222 | a replaced byte reads back and no other byte changes |
| PmpCsrs.EntryIs | pyremu/memory/pmp.py:301-318 | entry by entry, the byte of the even-numbered configuration register and the address register it is read from; what is absent reads as zero |
| PmpCsrs.SyncFrame | pyremu/memory/pmp.py:206-227 | writing back changes exactly the byte lanes and address registers of existing entries |
| PmpCsrs.SyncThenRead | pyremu/memory/pmp.py:206-227 | what is written back is what the decision reads next |
| PmpCsrs.RebuildThenSync | pyremu/memory/pmp.py:194-227 | rebuilding the arrays and writing them back changes no register |
| PmpClass.CountAndDecode | pyremu/memory/pmp.py:52-79 | the counting loop decodes the region |
| PmpClass.Pmp.ReadConfig | pyremu/memory/pmp.py:301-311 | the byte of an entry, or zero when the register is absent |
| PmpClass.Pmp.RebuildCache | pyremu/memory/pmp.py:194-204 | the arrays hold the entries, zeros behind them, and the flag is cleared |
| PmpClass.Pmp.SyncBack | pyremu/memory/pmp.py:206-227 | the two loops write back as in the model |
| PmpClass.Pmp.CheckAccess | pyremu/memory/pmp.py:231-297 | the loop over the entries gives the model's verdict; M mode without MPRV passes, and what no entry in sight contains is refused to U and S and to M acting for them |

## Left out

- L2Handoff.RunRefinesFlatMemory: assumes that bulk stores meet no valid line, which the code relies on without checking; `L2Handoff.BypassIsTransparentIff` is the exact condition.
- Translate.RunRefinesWalk: assumes that PMP lets walks read the page tables and that page tables change only together with a flush of what changed; `Translate.TranslationRefinesWalkIff` is the exact statement for one access without the first assumption.
- TrapModel.HandlerReturns: a handler's own work keeps its mode, the delegations, the return registers of both levels and the enable of the other level; what a handler that edits those returns to is not described.
- PmpDecision.CheckIsFirstMatch: accesses that run past 2^64 are left out, as the memory map has none.
- The native engine: between flush and invalidate it is any function on RAM, and between marshal and unmarshal any sequence of events on its copy of an interrupt file. Its own walk, protection check and arbitration are not modelled.
- Hit and miss counters, dirty flags beside the MODIFIED state, and the counts that flush methods return.
- The mode that switches the L2 cache off, and the second address window onto RAM for position-independent images (pyremu/memory/bus.py:210-243); the window is taken as absent.
- `CacheBase.flush(tag)` on the L2 cache, which passes a tag where the line match expects an address.
- What a device does with an access: the bus names the device and the offset, and its handler is not called.
- The protection and bus checks after a translation, and the traps that a failed translation raises: a translation ends in an outcome, and the trap for it is that of `TrapModel`.
- The split of an access over two pages: `Translate.AlignedStaysInPage` shows that aligned accesses never take it.
- Accessed and dirty bits of page table entries, Sv48, and modes H and D.
- Clearing IMSIC identities 1 and 3 on entry for a legacy software interrupt, in `TrapModel`; of a load reservation only that every trap drops it.
- Register reads of the APLIC and the IMSIC that have no side effect; the address decoding of the IMSIC pages and its claim-by-major-identity writes.
- The presence flags and register selectors that travel with an interrupt file into the engine.
- Delivery of an APLIC message to a hart that does not exist: the message is counted as sent, and the IMSIC ignores it.
- TVM and TSR traps of mstatus, which the code does not implement.
- Semihosting, the debugger, device trees, firmware loading, terminal and UART, disk images, SPI, I2C, GPIO and the instruction decoder.
- Threads: a method that takes a lock is one step, and steps of different threads interleave.
