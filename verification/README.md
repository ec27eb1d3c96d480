# WasabiOS core, verified in Dafny

A model of the parts of the WasabiOS kernel (Rust, x86-64) whose correctness rests on
unbounded state or on arithmetic: the xHCI rings and the dispatch of their events, the
first-fit allocator, the four-level page tables, HID report decoding, the cooperative
executor, USB descriptor parsing and line drawing. Each module models one component and
proves what the component promises over all inputs, all runs or all interleavings.

| file | component |
|---|---|
| `Results.dfy`, `Numbers.dfy` | shared values and small arithmetic |
| `Bits.dfy` | machine-word operators defined bit by bit, and register fields |
| `Trb.dfy` | transfer request blocks and their control-word fields |
| `CommandRing.dfy` | the producer ring: driver and controller as interleaved single-word stores |
| `EventRing.dfy` | the consumer ring: `pop` interleaved with a posting controller, and the driver's object |
| `Dispatch.dfy` | fan-out of events to weakly held waiters |
| `ControlTransfers.dfy` | requests end to end: push, register, await, against ring and events |
| `RequestStack.dfy` | the same requests over the real event ring and the dispatcher, as one machine |
| `RequestLiveness.dfy` | when a request under way can complete |
| `Allocator.dfy` | rounding, splitting, the intrusive chunk list in memory |
| `Paging.dfy` | page-table trees and `create_mapping` |
| `AddressSpace.dfy` | the table built at boot, and every run of device regions mapped after it |
| `BitSlice.dfy` | little-endian bit slices |
| `Range.dfy` | mapping a value between ranges |
| `HidReport.dfy` | the report descriptor parser and the decoding of reports |
| `TabletReport.dfy` | two report descriptors by their bytes, with the fields they yield |
| `Executor.dfy` | round-robin polling with tasks spawned inside polls |
| `Usb.dfy` | descriptor iteration and the choice of an interface |
| `Graphics.dfy` | line drawing into a pixel buffer |

## How the model is built

State that the source updates in place is a class (`CommandRing`, `EventRing`,
`EventWaitInfo`, `FirstFitAllocator`, `PageTables`, `GlobalExecutor`, `DescriptorIterator`,
`Bitmap`). Its methods are proved equal to a function on values (`Pushed`, `Popped`,
`Deliver`, `Alloc`, `Mapped`, `Extract`, `Step`, `At`, `LinePoint`), and the theorems are about those
functions.

Lock-free protocols are state machines whose steps are single stores or loads of one side.
A run is any list of steps; a step that is not possible when its turn comes is skipped, so a
theorem over all lists is a theorem over all interleavings. `PushIsSixSteps` and
`PopIsFourSteps` tie the sub-steps back to the driver's functions.

Bit operations (`&`, `|`, `!`, shifts) are defined bit by bit in `Bits.dfy`. Where a module
uses arithmetic instead, a lemma named `...IsBits` or `...IsMasked` shows that it is the
source's bit expression.

## Findings

- The full check of `CommandRing::push` (repo/wasabi/src/xhci.rs:1145) reads only bits the
  driver wrote itself, and never fires (`EveryPushSucceeds`).
- With up to 15 TRBs outstanding the controller never reads a wrong, torn or stale TRB
  (`EveryRunIsFifo`). It does not always read all of them: if it has read a whole round but
  not yet passed the Link when 15 more are pushed, the Link is flipped twice and the
  controller waits forever. `DrainsIffNotBehindLink` gives the exact condition,
  `BehindLinkReachable` a run that gets there, and `FourteenOutstandingDrains` shows that 14
  are always safe. The request functions keep at most four outstanding (`OutstandingBound`).
- ERDP names the slot popped last, one behind the dequeue index. Nothing is overwritten, at
  the price of one slot: from the first pop on the controller stops at 14 unread events
  (`FourteenUnreadBlock`).
- A chunk handed out for a size is never again large enough for that size
  (`FreedChunkNeverServesAgain`).
- The sign branch of `value_from_report` (repo/wasabi/src/tablet.rs:213-214) gives the low
  `bit_size - 1` bits, not a two's-complement number (`ValueIsUnsigned`). For a field of up
  to 64 bits the value agrees with the two's-complement reading if and only if the field's sign
  bit is clear; for a wider one, of which 63 bits are kept, if and only if its bits from 63 up
  are all clear (`ValueIsSignedIff`). The two-bit field 0b11 decodes to 1
  (`TwoOnesDecodeToOne`).
- `extract_bits` keeps at most 63 bits. A caller gets every field of a width whole if and
  only if the width is at most 63 (`AllWholeIff`); one given field comes back whole if and
  only if its bits from 63 up are clear and it touches at most 16 bytes (`WholeIff`). Eight
  bytes 0xFF read as 64 bits give 2^63 - 1 (`SixtyFourOnes`).
- A field that touches more than 16 bytes panics: its seventeenth byte is shifted by 128 bits
  inside a u128 (repo/wasabi/src/bits.rs:41-42), and the build that the repository's scripts
  use checks shifts. The parser accepts such fields; the descriptor in `WideFieldPanics`
  yields one of 200 bits. The driver always fetches 8 bytes
  (repo/wasabi/src/usb.rs:287), and from such a report no field panics: one decodes if and
  only if it has a width and ends by bit 64 (`DriverReportDecodes`).
- Logical bounds of a report descriptor are read as unsigned numbers: a one-byte minimum of
  0x81 becomes 129, above its maximum of 127 (`TabletFields`), and a value of such a field is
  never inside its range.
- `DescriptorIterator` ends if and only if `Halts` holds: no zero length byte and no lone last
  byte is met on the way (`NotHaltingIsStuck`, `HaltingIsNeverStuck`). A zero length byte
  yields the same descriptor for ever (`ZeroLengthIsStuck`); `HangAndPanic` has one input of
  each kind.
- `pick_interface_with_triple` picks something if and only if a configuration stands before
  the first match (`PickedIff`). A match, then a configuration with another match gives nothing
  (`EarlyMatchPicksNothing`).
- `create_mapping` maps one page when start >= end (`EmptyRangeMapsOne`), and otherwise as many
  pages as the length of the range rounds up to. These are the pages the range touches if and
  only if start < end, they end within the 2^36 pages of the space, and
  `start % 4096 + (end - 1 - start) % 4096 < 4096` (`MapsWhatIsAskedIff`).
  The 200 bytes from 4000 on touch two pages, and the second is left as it was
  (`SecondPageMissed`). Every byte of a range is translated to phys plus its offset if and
  only if the start is page-aligned (`BytesMappedIff`); the kernel's own calls have
  phys = start, so an unaligned start is refused there.
- Mapping a range by one call per page demands more room below 2^64 than the one call, since
  `phys + addr` counts each page's offset twice (`SinglesFitIff`).
- An identity call keeps the space an identity mapping if and only if it starts below 2^48 or
  unmaps (`IdentityKeptIff`). Over a run of device regions the identity holds at every moment
  if and only if every accepted region starts below 2^48 (`IdentityThroughoutIff`), and at the
  end if and only if the last region over each page does (`IdentityAtEndIff`); it can be lost
  and come back (`IdentityLostAndRegained`). A region over page 0 makes it present again
  (`PageZeroAbsentIff`).
- A request waits for ever if the controller answers a later TRB of it and never the one
  awaited: events come in TRB order, so that answer can no longer follow
  (`OvertakenForEver`, and `OvertakenReachable` for a run that gets there with a request for
  data). It can complete if and only if this has not happened (`UnderWayCompletesIff`).
  Commands and requests without data await their last TRB and cannot be overtaken
  (`LastTrbNotOvertaken`). For the others the driver asks for an interrupt on the data stage
  only (repo/wasabi/src/xhci.rs:1566-1575, 1590-1596).

## Model

| member | source | states |
|---|---|---|
| `Bits.WriteBitsField` | repo/wasabi/src/volatile.rs:51-64 | for shifts and widths below the word size, as the source's own shifts demand: a field write is refused exactly when the value does not fit the field; otherwise the field reads back the value and every bit below and above it is unchanged |
| `Bits.ReadIsDivMod` | repo/wasabi/src/volatile.rs:60-63 | a field read is the register divided by 2^shift, modulo 2^width |
| `Bits.AndNotMaskRoundsDown` | repo/wasabi/src/allocator.rs:105 | `a & !(2^k - 1)` rounds down to a multiple of 2^k, for every word size |
| `Trbs.FieldsAreBits` | repo/wasabi/src/xhci.rs:1060-1068 | each TRB field reader is the `read_bits` at the field's position |
| `Trbs.SetterIsWrite` | repo/wasabi/src/xhci.rs:1051-1053 | setting the cycle bit is `write_bits(0, 1, cycle)` on the 32-bit control word, and cannot fail |
| `Trbs.LinkIsWrites` | repo/wasabi/src/xhci.rs:1041-1056 | the two field writes of `trb_link` on a zeroed word give the Link TRB |
| `Trbs.SetCycleFacts` | repo/wasabi/src/xhci.rs:1051-1068 | a cycle-bit write is read back, keeps type, toggle bit and slot, and absorbs an earlier write |
| `CommandRings.PushPhased` | repo/wasabi/src/xhci.rs:1141-1160 | one push from a phased ring succeeds, returns base + 16 (n mod 15), writes one slot with the round's cycle bit, leaves every other slot alone and keeps the ring phased |
| `CommandRings.FreshRing` | repo/wasabi/src/xhci.rs:1041-1047 | a fresh ring, word by word: fifteen zeroed TRBs and the Link with the ring's address and control word 0x1802; the driver stands at slot 0 with a clear cycle state |
| `CommandRings.EveryPushSucceeds` | repo/wasabi/src/xhci.rs:992-1004 | over every run of pushes from a fresh ring none is refused, the k-th address is base + 16 (k mod 15), and slots before the index carry the negated phase, the rest and the Link the current one |
| `CommandRings.PushIsSixSteps` | repo/wasabi/src/xhci.rs:1148-1156 | the protocol's sub-steps (begin, three word stores, publish, Link flip) run to completion are one call of `push` |
| `CommandRings.StepKeepsInv` | repo/wasabi/src/xhci.rs:1141-1160 | every sub-step of driver or controller keeps the protocol invariant while at most 15 TRBs are outstanding |
| `CommandRings.EveryRunIsFifo` | repo/wasabi/src/xhci.rs:1133-1174 | in every interleaving with at most 15 outstanding the controller has read exactly a prefix of the pushed TRBs, in order, each fully written and with its round's cycle bit |
| `CommandRings.SlotOwned` | repo/wasabi/src/xhci.rs:374-378 | a controller that starts at slot 0 with cycle state 1 finds its slot published exactly when a TRB is unread, and then finds that TRB |
| `CommandRings.DrainsIffNotBehindLink` | repo/wasabi/src/xhci.rs:1152-1156 | with the driver idle the controller can read everything pushed if and only if it is not waiting at the Link with 15 outstanding |
| `CommandRings.FourteenOutstandingDrains` | repo/wasabi/src/xhci.rs:1133-1174 | with at most 14 outstanding the controller can always read everything, in every interleaving |
| `CommandRings.BehindLinkReachable` | repo/wasabi/src/xhci.rs:1152-1156 | a concrete run with 15 outstanding that leaves the controller stuck at a twice-flipped Link |
| `CommandRings.SixteenthPushStalls` | repo/wasabi/src/xhci.rs:1145-1147 | a push on a ring with 15 outstanding is not refused, and leaves the controller unable to read on |
| `CommandRings.CommandRing.constructor` | repo/wasabi/src/xhci.rs:1162-1174 | a new ring is zeroed, ends in a Link to its base with control word 0x1802 and satisfies the phase invariant with no pushes |
| `CommandRings.CommandRing.AdvanceIndex` | repo/wasabi/src/xhci.rs:992-999 | flips the slot's cycle bit and moves on, or changes nothing when the bit already has that value |
| `CommandRings.CommandRing.Push` | repo/wasabi/src/xhci.rs:1141-1160 | the in-place push equals `Pushed`, always succeeds with the address of slot n mod 15, and keeps the phase invariant for n + 1 |
| `EventRings.AcknowledgeIsBits` | repo/wasabi/src/xhci.rs:869-872 | the ERDP write is the slot address or-ed with the low four bits of the register |
| `EventRings.EveryRunDelivers` | repo/wasabi/src/xhci.rs:862-877 | against a controller that toggles every 16 slots and stops one slot before ERDP, in every interleaving the popped events are the posted ones in order, none stale or skipped; ERDP trails by one; an idle driver sees an event exactly when one is unread; a pop begun is never refused |
| `EventRings.StepKeepsInv` | repo/wasabi/src/xhci.rs:862-877 | every sub-step of `pop`, of the controller's posting and of the hardware's low ERDP bits keeps the protocol invariant, so no unread event is overwritten |
| `EventRings.SlotOwned` | repo/wasabi/src/xhci.rs:913-915 | `has_next_event` is true exactly when an event is unread, and the slot then holds the oldest one |
| `EventRings.FourteenUnreadBlock` | repo/wasabi/src/xhci.rs:420-428 | after the first pop the controller can post exactly while fewer than 14 events are unread |
| `EventRings.PopIsFourSteps` | repo/wasabi/src/xhci.rs:976-982 | the four sub-steps with nothing between them are one call of `pop` |
| `EventRings.PopReturnsOldest` | repo/wasabi/src/xhci.rs:862-877 | in every reachable state `pop`, its second cycle test included, does not err, and returns the oldest unread event, or nothing exactly when there is none |
| `Dispatch.CleanupKeepsSurvivors` | repo/wasabi/src/xhci.rs:895-908 | removing the dead waiters' indices from the back removes exactly them and keeps the order of the others |
| `Dispatch.StepKeepsInv` | repo/wasabi/src/xhci.rs:878-920 | delivery, registration, a future's poll and the loss of a reference each keep the list in registration order, keep every unreleased waiter in it, and keep it up to date |
| `Dispatch.EveryRunDispatches` | repo/wasabi/src/xhci.rs:878-920 | in every run every registered waiter not yet released is in the list, which is in registration order without repetition, with its condition and starting point, and its taken and queued events together are exactly the matching events popped since it registered, in order |
| `Dispatch.RosterIsHistory` | repo/wasabi/src/xhci.rs:916-919 | registrations are never forgotten or changed, and only a release releases one |
| `Dispatch.MatchesFields` | repo/wasabi/src/xhci.rs:1189-1206 | an event matches exactly when its type (bits 10 to 15 of the control word), slot (bits 24 to 31) and data word agree with each field waited for |
| `Dispatch.MatchingPlaces` | repo/wasabi/src/xhci.rs:881-889 | the matching events of a log are those at rising places, which are exactly the places of events that match |
| `EventRings.EventRing.AdvanceIndexNoToggle` | repo/wasabi/src/xhci.rs:976-982 | moves to the next slot, or refuses and changes nothing when the slot is not owned |
| `Dispatch.EventWaitInfo.Poll` | repo/wasabi/src/xhci.rs:1383-1393 | a future's poll takes the front of its waiter's queue, or is pending and changes nothing |
| `EventRings.EventRing.Pop` | repo/wasabi/src/xhci.rs:862-877 | the in-place pop equals `EventRings.Popped` with its error path, and changes nothing when no event is there or it errs |
| `EventRings.EventRing.RegisterWaiter` | repo/wasabi/src/xhci.rs:916-919 | appends the waiter under the next registration number; from then on it is owed every matching event |
| `EventRings.EventRing.Resolve` | repo/wasabi/src/xhci.rs:881-889 | the fan-out loop appends the event to exactly the live matching waiters |
| `EventRings.EventRing.CollectStale` | repo/wasabi/src/xhci.rs:894-906 | collects the indices of the dead waiters, highest first |
| `EventRings.EventRing.RemoveEach` | repo/wasabi/src/xhci.rs:907-909 | removes the collected indices one after another |
| `EventRings.EventRing.FanOut` | repo/wasabi/src/xhci.rs:880-909 | fan-out and cleanup leave exactly the surviving waiters, each offered the event |
| `EventRings.EventRing.Poll` | repo/wasabi/src/xhci.rs:878-912 | pops at most one event, delivers it to exactly the live matching waiters, drops only dead ones, and keeps every unreleased waiter listed and up to date; an error of `pop` is passed on |
| `ControlTransfers.PushNeverBlocked` | repo/wasabi/src/xhci.rs:682-706 | whenever a request has a TRB left to push, the ring's bound of four admits it |
| `ControlTransfers.OutstandingBound` | repo/wasabi/src/xhci.rs:682-830 | over every sequence of requests and every interleaving at most four TRBs are outstanding within a request and at most one between requests; so the ring is a FIFO and can always be drained |
| `ControlTransfers.OnlyOwnEventsMatch` | repo/wasabi/src/xhci.rs:1372-1381 | among the events a waiter can see, exactly its own TRB's carry the awaited address |
| `ControlTransfers.EveryRequestGetsItsOwnEvent` | repo/wasabi/src/xhci.rs:682-830 | in every interleaving the TRBs on the ring are the submitted requests' own (the command; setup and status; setup, data and status), whole, in order and with nothing between requests, but for a last one still being pushed; each completed request received the event of its command, its status stage or its data stage |
| `ControlTransfers.StepKeepsStages` | repo/wasabi/src/xhci.rs:691-706 | a submission adds the request's stages in their order behind what was sent, a sub-step of a push changes cycle bits only, and every other step leaves what was sent as it is |
| `ControlTransfers.AddrIsPushed` | repo/wasabi/src/xhci.rs:1149-1159 | the address waited for is the one that the push of the awaited TRB returned |
| `ControlTransfers.AddrIsRead` | repo/wasabi/src/xhci.rs:1149-1159 | and the one at which the controller reads that TRB |
| `ControlTransfers.NoCompletionMissed` | repo/wasabi/src/xhci.rs:659-663 | an event of the awaited TRB is never delivered before the registration, and once delivered lets the request complete |
| `ControlTransfers.FirstMatchIsQueueFront` | repo/wasabi/src/xhci.rs:1383-1393 | the event a request takes is the front of the queue that the dispatcher fills for it |
| `ControlTransfers.StepKeepsInv` | repo/wasabi/src/xhci.rs:682-830 | every step of requester, controller and poller keeps the invariant that ties ring, event history and requests together |
| `RequestStack.StepKeepsInv` | repo/wasabi/src/xhci.rs:659-663 | every sub-step of requester, controller, `pop`, delivery and other futures keeps the invariants of command ring, event ring and dispatcher together, tied to one history of events |
| `RequestStack.FrontIsOwn` | repo/wasabi/src/xhci.rs:1383-1393 | whatever stands at the front of a waiting request's queue is an event of the TRB it awaits |
| `RequestStack.PoppedCompletes` | repo/wasabi/src/xhci.rs:659-663 | once an event of the awaited TRB has been popped from the event ring, the request's waiter has it queued and the request can complete |
| `RequestStack.FullRingDrains` | repo/wasabi/src/xhci.rs:862-877 | the event ring never wedges: a controller without room means unread events, and unread events can be popped to the end whenever no request is pushing |
| `RequestStack.EveryRunServesRequests` | repo/wasabi/src/xhci.rs:682-830 | over the real rings and wait list, in every interleaving: the ring holds the submitted requests stage by stage, each completed request received an event posted for its command, status stage or data stage, none is missed, both rings deliver in order, at most four TRBs are outstanding, one between requests |
| `RequestStack.EveryRunPushesTheStages` | repo/wasabi/src/xhci.rs:682-830 | in every run of the joined machine each submitted request that is no longer being pushed has put exactly its command, or setup and status, or setup, data and status on the ring, in this order and nothing between requests; the current one awaits the number of its command, status or data stage, and what a completed one took is an event posted for that stage |
| `RequestStack.StepKeepsStages` | repo/wasabi/src/xhci.rs:682-830 | every sub-step of requester, controller, `pop`, delivery and other futures keeps this |
| `RequestLiveness.WaitingCompletes` | repo/wasabi/src/xhci.rs:1383-1393 | from every invariant state in which a request waits and is not overtaken, finitely many steps of controller and poll task, and then its future, complete it with an event of its own TRB |
| `RequestLiveness.UnderWayCompletesIff` | repo/wasabi/src/xhci.rs:682-830 | in every reachable state with a request under way, still pushing or waiting, some steps complete it if and only if no event of a later TRB was posted before the awaited one's |
| `RequestLiveness.OvertakenForEver` | repo/wasabi/src/xhci.rs:1372-1393 | otherwise, whatever anyone does, it never completes |
| `RequestLiveness.OvertakenReachable` | repo/wasabi/src/xhci.rs:682-710 | a run in which a request for data is overtaken by its status stage |
| `RequestLiveness.LastTrbNotOvertaken` | repo/wasabi/src/xhci.rs:659-663 | a request that awaits the last TRB it pushes is never overtaken |
| `RequestLiveness.AwaitedLastIff` | repo/wasabi/src/xhci.rs:659-663 | those are exactly the commands and the requests without data |
| `Allocator.RoundUpIsLeast` | repo/wasabi/src/allocator.rs:18-22 | the result is the least power of two not below v, and fails exactly for 0 and above 2^63 |
| `Allocator.NeedsFacts` | repo/wasabi/src/allocator.rs:84-88 | rounded sizes and alignments are multiples of 32 that cover the request, the alignment is a power of two within the word, a zero size has none, and the sum in `can_provide` does not overflow |
| `Allocator.NeedIsLeast` | repo/wasabi/src/allocator.rs:84-88 | the rounded size is the least power of two that covers the requested size and 32, the alignment the larger of the requested one and 32 |
| `Allocator.PayloadIsMasked` | repo/wasabi/src/allocator.rs:105 | the payload address is the source's mask expression on 64-bit words |
| `Allocator.AllocIsMasked` | repo/wasabi/src/allocator.rs:84-105 | in every safe heap the address an allocation hands out is that expression: chunks end below 2^64 and the alignment is a power of two |
| `Allocator.SplitFacts` | repo/wasabi/src/allocator.rs:105-125 | the assertion before the shrink always holds, padding is a multiple of 32 (so 0 or at least a header), and the payload lies inside the chunk |
| `Allocator.SplitTiles` | repo/wasabi/src/allocator.rs:105-127 | the rest, the allocation and the padding abut in address order, fill the old chunk exactly and are all well-formed |
| `Allocator.BytesConserved` | repo/wasabi/src/allocator.rs:197-221 | chunks hold exactly the bytes donated |
| `Allocator.ChunksApart` | repo/wasabi/src/allocator.rs:197-221 | different chunks of a tiled list never overlap |
| `Allocator.AllocServesFirst` | repo/wasabi/src/allocator.rs:171-188 | null exactly for a zero size or when no free chunk has size + 64 + align bytes; otherwise the first such chunk in list order serves |
| `Allocator.AllocExact` | repo/wasabi/src/allocator.rs:84-127 | an allocation, exactly: null for a zero size or when no free chunk has the rounded size, 64 bytes and the alignment; otherwise the first such chunk is replaced by its rest, the allocation at the highest aligned place and, where bytes are left over, a free chunk of them; the address was not live and now is |
| `Allocator.AllocKeepsInv` | repo/wasabi/src/allocator.rs:84-128 | an allocation keeps tiling, well-formedness and the match between allocated chunks and live payloads |
| `Allocator.DeallocKeepsInv` | repo/wasabi/src/allocator.rs:162-167 | freeing a live address finds its allocated header and keeps the invariant; what it changes is `DeallocFrees` |
| `Allocator.DeallocFrees` | repo/wasabi/src/allocator.rs:162-167 | after a free the address is not live, the one chunk whose header stands 32 bytes before it is free with its size unchanged, and every other chunk and live address is as before |
| `Allocator.FreedServes` | repo/wasabi/src/allocator.rs:162-188 | a request for which the freed chunk has room is not answered with null after the free |
| `Allocator.DonateKeepsInv` | repo/wasabi/src/allocator.rs:197-221 | donating a page-aligned region that does not wrap, apart from the others, keeps the invariant; page 0 is left out |
| `Allocator.DonateExact` | repo/wasabi/src/allocator.rs:197-221 | a donation extends the list exactly when more than one page is left without page 0, and then puts one free chunk of all of that in front |
| `Allocator.EveryRunIsSafe` | repo/wasabi/src/allocator.rs:158-221 | after any run of donations, allocations and frees: exact tiling, conserved bytes, live payloads not null, aligned, inside donated regions, pairwise disjoint and disjoint from every header |
| `Allocator.LivePayload` | repo/wasabi/src/allocator.rs:84-128 | a live address is not null, aligned as asked, and its requested bytes lie in one donated region |
| `Allocator.PayloadsApart` | repo/wasabi/src/allocator.rs:84-128 | no byte belongs to two live payloads |
| `Allocator.PayloadApartFromHeaders` | repo/wasabi/src/allocator.rs:84-128 | no byte of a live payload belongs to a header |
| `Allocator.RunShrinks` | repo/wasabi/src/allocator.rs:122-126 | over any run headers never vanish and a chunk's size never grows |
| `Allocator.FreedChunkNeverServesAgain` | repo/wasabi/src/allocator.rs:56-60 | after an allocation and any run from there, the header before the address handed out is still there and cannot provide the same rounded size |
| `Allocator.FirstFitAllocator.AddFree` | repo/wasabi/src/allocator.rs:197-221 | the header written in memory extends the chain by the donated chunk; no live payload byte changes |
| `Allocator.FirstFitAllocator.Free` | repo/wasabi/src/allocator.rs:162-167 | the address is live no more and every other stays; memory changes in one header, the one at p - 32, which was taken and is now free with the same size and next pointer; no other live payload byte changes |
| `Allocator.FirstFitAllocator.Carve` | repo/wasabi/src/allocator.rs:105-127 | the stores of `provide` write the headers of the split, chained, and nothing else |
| `Allocator.FirstFitAllocator.Provide` | repo/wasabi/src/allocator.rs:84-128 | serves from this header, or leaves memory unchanged exactly when it cannot |
| `Allocator.FirstFitAllocator.AllocWithOptions` | repo/wasabi/src/allocator.rs:171-188 | the walk over the headers in memory is first fit on the chunk list; the chain stays sound and no live payload byte changes |
| `Allocator.FirstFitAllocator.WritePayload` | repo/wasabi/src/allocator.rs:158-168 | a byte store inside a live payload changes that byte only and cannot reach a header |
| `Paging.EntryIsBits` | repo/wasabi/src/x86.rs:112-118 | an entry's address and attribute parts are the source's mask expressions |
| `Paging.PageValueIsBits` | repo/wasabi/src/x86.rs:119-126 | for an aligned address or-ing in the attribute bits adds them |
| `Paging.PermissionsAreBits` | repo/wasabi/src/x86.rs:54-66 | present, writable, write-through and cache-disable are bits 0, 1, 3 and 4 of an entry |
| `Paging.EntryPermits` | repo/wasabi/src/x86.rs:60-66 | an aligned frame with kernel attributes is present, writable and cached (word 0x003), with device attributes present, writable, write-through and uncached (0x01B), and otherwise absent |
| `Paging.CalcIndexIsBits` | repo/wasabi/src/x86.rs:171-179 | the index by repeated division is the source's shift and mask at every level |
| `Paging.WalkFindsPlace` | repo/wasabi/src/x86.rs:105-118 | in a well-formed tree the hardware walk finds the table standing at a page's place, or nothing exactly when there is none |
| `Paging.LeafDecides` | repo/wasabi/src/x86.rs:127-142 | in a well-formed tree every table entry above a present page is writable, so the processor lets a page be written exactly when its last entry does |
| `Paging.StoreLeaf` | repo/wasabi/src/x86.rs:119-126 | storing a last-level entry changes the mapping of that page only |
| `Paging.PopulateKeepsLeaf` | repo/wasabi/src/x86.rs:127-142 | adding a zeroed table changes no page's mapping |
| `Paging.LoopRound` | repo/wasabi/src/x86.rs:218-236 | at every level the exit test is true exactly when the table is left or the call is finished |
| `Paging.PageTables.EnsurePopulated` | repo/wasabi/src/x86.rs:127-142 | yields the next table on the page's path, keeps the tree and every page's mapping; the entry is present, writable and leads to that table; an absent entry is written as cached and its table is new and zero, and a present one changes nothing |
| `Paging.PageTables.SetPage` | repo/wasabi/src/x86.rs:119-126 | refuses exactly unaligned addresses, otherwise changes one page |
| `Paging.PageTables.MapEntry` | repo/wasabi/src/x86.rs:210-236 | one round of a loop maps the pages under one entry and advances the address past them |
| `Paging.PageTables.MapTable` | repo/wasabi/src/x86.rs:210-239 | the loop over a table maps consecutive pages until the table or the call ends |
| `Paging.PageTables.CreateMapping` | repo/wasabi/src/x86.rs:200-241 | for every start, end and address that do not overflow: fails exactly when phys is unaligned and then no page changes; otherwise the pages from that of start on, as many as the length rounds up to (at least one, at most to the end of the space), map to consecutive frames from phys with exactly the attribute, and every other page is as before |
| `Paging.PageTables.MapPage` | repo/wasabi/src/x86.rs:105-142 | the simple rule: a walk from the root that creates missing tables and sets one entry changes that page only, and fails exactly for an unaligned frame |
| `Paging.PageTables.MapPageByPage` | repo/wasabi/src/x86.rs:200-241 | mapping each page of a range alone by that rule meets the very contract of `CreateMapping`, on the same inputs |
| `Paging.PageTables.CreateEachPage` | repo/wasabi/src/x86.rs:200-241 | so does one call of `create_mapping` per page, where those calls do not overflow |
| `Paging.SinglesFitIff` | repo/wasabi/src/x86.rs:221 | the single-page calls are free of overflow if and only if the last one is |
| `Paging.EmptyRangeMapsOne` | repo/wasabi/src/x86.rs:218-227 | a range with start >= end maps exactly the page of start and leaves all others |
| `Paging.MapsWhatIsAskedIff` | repo/wasabi/src/x86.rs:218-227 | as many pages are mapped as the bytes of the range touch if and only if start < end, they lie within the space and the range crosses no page boundary beyond those its rounded length accounts for |
| `Paging.SecondPageMissed` | repo/wasabi/src/x86.rs:218-227 | the call for bytes 4000 to 4199 leaves page 1 as it was |
| `Paging.ByteAfter` | repo/wasabi/src/x86.rs:221-227 | a byte in a mapped page translates to phys plus its offset plus the offset of the start in its page |
| `Paging.BytesMappedIff` | repo/wasabi/src/x86.rs:200-241 | after a successful call every byte of the range inside the space translates to phys plus its offset if and only if the start is aligned (or the range is empty) |
| `Paging.TranslationAfter` | repo/wasabi/src/x86.rs:200-241 | what the processor translates each page to after a call |
| `AddressSpace.IdentityKept` | repo/wasabi/src/x86.rs:949-959 | a call with phys = virt below 2^48 keeps every present translation the identity |
| `AddressSpace.IdentityKeptIff` | repo/wasabi/src/x86.rs:949-959 | a call with phys = virt keeps the identity if and only if it starts below 2^48 or unmaps |
| `AddressSpace.BootSpaceReached` | repo/wasabi/src/init.rs:50-57 | mapping all memory and then unmapping page 0 gives the boot space: page 0 absent, every other page below the end mapped to itself with attribute word 0x003, nothing else |
| `AddressSpace.EndOfMemory` | repo/wasabi/src/init.rs:36-49 | the loop finds the least end at or above 4 GiB that bounds every usable descriptor |
| `AddressSpace.InitPaging` | repo/wasabi/src/init.rs:36-60 | the end is 4 GiB or the furthest end of a usable descriptor beyond it; the table built at boot is the boot space up to that end and an identity mapping, and every present page may be written and is cached |
| `AddressSpace.DisableCache` | repo/wasabi/src/pci.rs:245-255 | refuses exactly an unaligned start, on which the source panics; otherwise remaps exactly the region's pages to themselves, present, writable, write-through and with the cache off (word 0x01B), and keeps the identity exactly when the region starts below 2^48 |
| `AddressSpace.BootAndDisable` | repo/wasabi/src/pci.rs:245-255 | boot and then any regions on one table give a chain of tables, each remapping exactly its region, and at the end exactly the pages of accepted regions are uncached |
| `AddressSpace.PageAfterRun` | repo/wasabi/src/pci.rs:245-255 | after any run of regions each page has the frame of the last accepted region covering it and the attribute word 0x01B, and is as at boot (its own frame with 0x003, or absent) when there is none |
| `AddressSpace.PermissionsAfterRun` | repo/wasabi/src/x86.rs:949-959 | after any run a page that an accepted region covers may be written, with bits 3 and 4 set; any other page of the memory mapped at boot may be written, with both clear; no other page is present |
| `AddressSpace.IdentityThroughoutIff` | repo/wasabi/src/x86.rs:949-959 | every translation is the identity at every moment of a run if and only if every accepted region starts below 2^48 |
| `AddressSpace.IdentityAtEndIff` | repo/wasabi/src/x86.rs:949-959 | at the end of a run it is if and only if the last region covering each page starts below 2^48 |
| `AddressSpace.PageZeroAbsentIff` | repo/wasabi/src/init.rs:53-56 | page 0 is still absent after a run if and only if no accepted region covers it |
| `AddressSpace.IdentityLostAndRegained` | repo/wasabi/src/x86.rs:949-959 | a run of two regions that loses the identity and restores it |
| `BitSlice.ExtractBitsValue` | repo/wasabi/src/bits.rs:2-11 | the low min(63, width) bits from the shift on, 0 for shifts of 64 and more |
| `BitSlice.SliceIsDivMod` | repo/wasabi/src/bits.rs:32-46 | for widths 1 to 63 inside the string the extraction yields (value / 2^shift) mod 2^width of the little-endian number |
| `BitSlice.ExtractBitsFromLeBytes` | repo/wasabi/src/bits.rs:32-46 | for every input the accumulating loop returns the slice of the whole number, nothing exactly when the width is 0 or the field reaches past the end, and panics exactly when a field inside the string touches more than 16 bytes |
| `BitSlice.FieldBit` | repo/wasabi/src/bits.rs:32-46 | bit i of a field is bit (shift + i) mod 8 of byte (shift + i) / 8 |
| `BitSlice.WholeIff` | repo/wasabi/src/bits.rs:2-11 | a field comes back whole if and only if it touches at most 16 bytes and its bits from 63 up are clear |
| `BitSlice.AllWholeIff` | repo/wasabi/src/bits.rs:7 | every field at a place comes back whole, for all data, if and only if its width is at most 63 |
| `BitSlice.SixtyFourOnes` | repo/wasabi/src/bits.rs:7 | eight bytes 0xFF at width 64 give 2^63 - 1 |
| `BitSlice.SeventeenBytesPanic` | repo/wasabi/src/bits.rs:41-42 | a field of 136 bits inside the string panics |
| `Ranges.MapValueFacts` | repo/wasabi/src/range.rs:4-25 | for every target, backwards ones included: refused exactly outside the source range; otherwise inside the target and the exact proportion rounded toward the target's start; a source of one value gives that start, any other hits both ends |
| `Ranges.MapValueMonotone` | repo/wasabi/src/range.rs:4-25 | a larger value never maps further back in the target's direction |
| `Ranges.ProductFits` | repo/wasabi/src/range.rs:12-18 | for 32-bit logical bounds the 128-bit product cannot overflow |
| `HidReport.EmitFields` | repo/wasabi/src/tablet.rs:90-126 | the loop over the report count emits exactly the item's fields and advances the offset by count times size |
| `HidReport.NextUsage` | repo/wasabi/src/tablet.rs:97-112 | queued usages first, then the button range, then constant or unknown |
| `HidReport.HandleItem` | repo/wasabi/src/tablet.rs:88-195 | one item's effect on globals, locals, offset and fields |
| `HidReport.ParseReportDescriptor` | repo/wasabi/src/tablet.rs:54-198 | for every byte string the streaming parser ends and returns what tokenising and then folding gives |
| `HidReport.GlobalsPersist` | repo/wasabi/src/tablet.rs:137-160 | the globals in force are the values of the last Global item of each tag |
| `HidReport.LocalsReset` | repo/wasabi/src/tablet.rs:161-195 | the locals in force are those since the last Main item, each usage read under the page where it stood |
| `HidReport.ParserIsLookback` | repo/wasabi/src/tablet.rs:54-198 | each Input item under a usage page yields report-count fields from the globals and locals it sees, placed after all earlier bits |
| `HidReport.ParsedEndToEnd` | repo/wasabi/src/tablet.rs:113-124 | for every descriptor the fields lie end to end from bit 0 |
| `HidReport.FieldsDisjoint` | repo/wasabi/src/tablet.rs:113-124 | earlier fields end before later ones begin |
| `HidReport.ReportHoldsIff` | repo/wasabi/src/tablet.rs:269-273 | a report holds all fields of a descriptor exactly from the computed length on |
| `TabletReport.ParseIsFold` | repo/wasabi/src/tablet.rs:54-198 | parsing the rest of the bytes from any state the parser can be in is the fold over all their items |
| `TabletReport.TabletFields` | repo/wasabi/src/tablet.rs:54-198 | a tablet's descriptor byte by byte, items with 0, 1, 2 and 4 bytes of data included, and its seven fields: buttons 1 to 3, constant padding, absolute X and Y, a relative wheel, each with its width, flags, place and logical range |
| `TabletReport.VendorFields` | repo/wasabi/src/tablet.rs:71-79 | Pointer and Mouse, a usage of an unknown page, a field without usage, a button past the usage range, and an item of the reserved type that ends the parse |
| `HidReport.ParsedFieldsDecode` | repo/wasabi/src/tablet.rs:269-273 | a field of any parsed descriptor decodes from every report of the computed length if and only if it has a width and touches at most 16 bytes |
| `HidReport.WideFieldPanics` | repo/wasabi/src/tablet.rs:54-198 | a concrete descriptor whose one field of 200 bits panics on every report that holds it |
| `HidReport.DriverReportDecodes` | repo/wasabi/src/usb.rs:282-292 | from the driver's 8-byte report no field panics, and one decodes if and only if it has a width and ends by bit 64 |
| `HidReport.ValueIsUnsigned` | repo/wasabi/src/tablet.rs:211-219 | nothing exactly outside the report, a panic exactly for a field inside it that touches more than 16 bytes, and otherwise the field without its top bit (a one-bit field: its bit), at most 63 bits of it |
| `HidReport.ValueIsSignedIff` | repo/wasabi/src/tablet.rs:213-214 | the value is the two's-complement reading of the field if and only if its bits from the sign bit up are clear |
| `HidReport.TwoOnesDecodeToOne` | repo/wasabi/src/tablet.rs:213-214 | the two-bit field 0b11 decodes to 1, not to -1 |
| `HidReport.FieldsReassemble` | repo/wasabi/src/tablet.rs:211-219 | the raw values put back at their offsets are exactly the report's bits: nothing lost, nothing read twice |
| `HidReport.CoordinateOnScreen` | repo/wasabi/src/tablet.rs:220-231 | the call panics exactly on a field of the report that touches more than 16 bytes, and errs exactly when the field is absent or its value is outside the logical range; otherwise the coordinate c lies in 0..width-1 and c (max - min) <= (value - min) (width - 1) < (c + 1) (max - min), the least value giving 0 and the greatest width - 1 |
| `HidReport.CoordinateMonotone` | repo/wasabi/src/tablet.rs:220-231 | of two reports the one with the larger value in the field never gives the smaller coordinate |
| `Executor.EveryRunKeepsTasks` | repo/wasabi/src/executor.rs:82-110 | in every run, spawns inside polls included, each task created is exactly once queued or completed, never both |
| `Executor.NeverPolledAfterReady` | repo/wasabi/src/executor.rs:98-101 | a task on record as completed is never polled again |
| `Executor.ReadyLeaves` | repo/wasabi/src/executor.rs:98-101 | from every state of the invariant with a task waiting, a turn whose poll returns ready polls the front task, and that task is in no later deque and no later entry of the log |
| `Executor.DoneAreReady` | repo/wasabi/src/executor.rs:98-106 | over any run the completed tasks are exactly those of the ready turns made on a nonempty deque, in order |
| `Executor.QueuedIffNeverReady` | repo/wasabi/src/executor.rs:98-106 | in every run a created task is in the deque if and only if no poll of it returned ready, and none did twice |
| `Executor.PendingStays` | repo/wasabi/src/executor.rs:102-106 | from any state of the invariant a waiting task is still in the deque if and only if all its polls since were pending |
| `Executor.TurnsPollInOrder` | repo/wasabi/src/executor.rs:91-110 | whatever polls return and spawn, k turns poll the first k queued tasks in order |
| `Executor.PositionIsWait` | repo/wasabi/src/executor.rs:91-110 | a task at position k is polled after exactly k other polls |
| `Executor.PolledOncePerRound` | repo/wasabi/src/executor.rs:102-106 | a pending task is polled again after every other waiting task, those it spawned included, was polled exactly once |
| `Executor.GlobalExecutor.SpawnGlobal` | repo/wasabi/src/executor.rs:162-165 | creates executor and deque on first use and queues the new task last |
| `Executor.GlobalExecutor.RunOnce` | repo/wasabi/src/executor.rs:91-110 | one turn of the loop on the real deque, stated on the deque itself and as one step of the model: the front is popped and comes back last, behind what it spawned, exactly when its poll was pending; nothing changes without an executor or a task |
| `Usb.DescriptorIterator.Next` | repo/wasabi/src/usb.rs:97-128 | yields the descriptor at the index and advances by its length byte; ends at the end or at a descriptor cut short; panics exactly at a lone last byte |
| `Usb.Collect` | repo/wasabi/src/usb.rs:88-128 | iteration ends with all descriptors when the bytes halt |
| `Usb.NotHaltingIsStuck` | repo/wasabi/src/usb.rs:103-105 | otherwise the iterator comes to a place it does not leave |
| `Usb.ZeroLengthIsStuck` | repo/wasabi/src/usb.rs:124 | a yielded descriptor leaves the index where it is if and only if its length byte is 0, and then iteration never ends |
| `Usb.HangAndPanic` | repo/wasabi/src/usb.rs:104-105 | one input that hangs, one that panics, and one descriptor cut short that ends the iteration |
| `Usb.HaltingIsNeverStuck` | repo/wasabi/src/usb.rs:103-124 | on halting bytes no such place is reached |
| `Usb.IterationRoundTrip` | repo/wasabi/src/usb.rs:97-128 | iterating over the concatenated encoding of any well-formed descriptors ends and yields, in order, for each known type the struct of its first bytes and for any other its length and type |
| `Usb.SamplePicked` | repo/wasabi/src/usb.rs:97-128 | a configuration by its 37 bytes: the five descriptors they yield, and for the triple (3, 0, 0) the configuration, the interface and the three that follow it |
| `Usb.PickInterface` | repo/wasabi/src/usb.rs:294-327 | the configuration enclosing the first match, the last matching interface inside it and all its other descriptors from the first match on; nothing when there is no match or it precedes every configuration |
| `Usb.PickedIff` | repo/wasabi/src/usb.rs:294-327 | something is picked if and only if a configuration stands before the first matching interface |
| `Usb.PickedByIndex` | repo/wasabi/src/usb.rs:294-327 | what is picked, by index: the last configuration before the first match, the last match before the next configuration, and the descriptors between the first match and there that are neither a configuration nor an interface, in order |
| `Usb.EarlyMatchPicksNothing` | repo/wasabi/src/usb.rs:304-308 | a match, a configuration and a match inside it give nothing, while the configuration and its match alone are picked |
| `Graphics.SlopeNearest` | repo/wasabi/src/graphics.rs:73-83 | the minor offset is the nearest to the ideal line, ties upward, never beyond the end, 0 at the start and exact at the end |
| `Graphics.SlopeStep` | repo/wasabi/src/graphics.rs:73-83 | one step along the major axis moves the minor one by 0 or 1 |
| `Graphics.LineInBox` | repo/wasabi/src/graphics.rs:85-107 | every point lies in the box of the endpoints; the line starts at the first and would end at the second |
| `Graphics.LineConnected` | repo/wasabi/src/graphics.rs:85-107 | consecutive points are different and 8-adjacent |
| `Graphics.LineNearest` | repo/wasabi/src/graphics.rs:85-107 | every point is within half a pixel of the ideal line along the minor axis |
| `Graphics.LineInjective` | repo/wasabi/src/graphics.rs:97-106 | different steps draw different points, so max(dx, dy) pixels are drawn |
| `Graphics.Bitmap.IndexInside` | repo/wasabi/src/graphics.rs:15-34 | a point in range has its pixel inside the buffer |
| `Graphics.Bitmap.IndexInjective` | repo/wasabi/src/graphics.rs:15-34 | different points in range have different pixels |
| `Graphics.Bitmap.RowMajor` | repo/wasabi/src/graphics.rs:15-19 | pixel (0, 0) is the first, one step right adds one and one step down a line; the order of pixels in the buffer is by line and then from left to right |
| `Graphics.Bitmap.DrawPoint` | repo/wasabi/src/graphics.rs:43-46 | refuses exactly points outside 0 <= x < min(width, pixels per line), 0 <= y < height; otherwise changes one pixel |
| `Graphics.Bitmap.DrawLine` | repo/wasabi/src/graphics.rs:85-107 | refuses exactly when an endpoint is out of range, and then draws nothing; otherwise never stops midway, paints every point of the line but its end and leaves every other pixel alone |

## Assumptions about the controller and the scheduler

- A consumer of a command ring reads slots in order, only those whose cycle bit equals its
  cycle state, follows the Link's address and toggles there (sections 4.9.2 and 4.9.3 of
  xHCI 1.2). A producer of events toggles its cycle state every 16 slots and stops when its
  next slot is the one ERDP names (section 4.9.4 of xHCI 1.2).
- In `ControlTransfers`, `RequestStack` and `RequestLiveness` the controller posts events only for TRBs it has consumed, in TRB
  order, and other events do not carry an address inside the request's ring.
- In `ControlTransfers` and `RequestStack` the poll step never falls between the first push of a request and
  the registration of its waiter: the source has no await there, and the executor switches
  only at awaits.
- TRBs handed to `push` are never of type Link.

## Left out

- Inline assembly, interrupts, descriptor tables, CR3 and the TLB: `InitPaging` and `DisableCache` stop at the table contents; a refused `DisableCache` changes nothing, where the source panics.
- Serial, MMIO, HPET, PCI and UEFI/ACPI access: hardware or foreign calls.
- xHCI register setup, device contexts, doorbells and the transfer type of setup stages; TRB contents of requests are arbitrary.
- Mutexes: every critical section is one atomic step; panics of spinning locks are not modelled.
- RequestLiveness.UnderWayCompletesIff: says that some schedule completes the request, not that every fair one does.
- CommandRings.EveryRunIsFifo: says nothing about the controller making progress; the drain lemmas do.
- Allocator.FirstFitAllocator.AddFree: memory is a map of 32-byte granules, so a header is stored as one unit and its reserved word is not kept.
- The filter of `init_with_mmap` by memory type is not modelled.
- Paging.PageTables.MapTable: the source writes the loop out four times, once per level; the model has it once, with the level as a parameter.
- Paging.PageTables.AllocFrame: table frames come from a bump of addresses, standing for any allocator that returns fresh page-aligned memory; frame addresses are not bounded.
- BitSlice.ExtractBitsFromLeBytes: models a build with overflow checks; without them the shift of a seventeenth byte wraps instead of panicking.
- Ranges.MapValueFacts: is over unbounded integers, with the target's width inside an i64 as the source's subtraction demands; a source range wider than an i64 would overflow there and does not arise from 32-bit logical bounds.
- HidReport.ParseReportDescriptor: the bit offset is unbounded; overflow of usize is not modelled.
- The meaning of the array flag: the bit is copied, not interpreted.
- `block_on`, `Yield` and timeouts are not modelled; only the scheduling of polls is.
- `fill_rect`, fonts, text, hexdump, logging and the keyboard table are not modelled.
- Graphics.Bitmap.DrawLine: the buffer holds one cell per pixel; `bytes_per_pixel` is 4 throughout the source.
- Graphics.SlopeNearest: is over unbounded integers; i64 overflow needs coordinates near 2^31 and more.
