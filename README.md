# Demand-paged virtual memory manager, modelled in Dafny

This project models the address-translation core of `main_pr.c`, a
simulator of a demand-paged virtual memory manager. The simulator has a
16-entry TLB, a 256-entry page table and 128 physical frames of 256 signed
bytes each. For every logical address it does the following:

- It decodes the page number (bits 15-8) and the offset (bits 7-0).
- It searches the TLB, then the page table.
- On a page fault it loads the page from the backing store into the frame
  under a FIFO frame cursor.
- On a fault it invalidates every page-table entry that names the reused
  frame. On every TLB miss it invalidates every TLB entry that names the
  frame just found or just loaded. It then installs the new mapping in FIFO
  order.
- It counts hits, faults and references, and reads the byte at
  `frame * 256 + offset` of physical memory.

The project has four modules:

- `AddressCodec` (codec.dfy): the shift-and-truncate decoding of lines
  280-281 and the shift-and-or encoding of lines 319-320. They are written on
  integers, with the 32-bit wrap-around of `<<` and the `uint8_t`
  truncation made explicit. The lemmas prove what the shifts compute.
- `PagingModel` (model.dfy): the state as a value (`MmuState`), the
  table searches and invalidation passes as functions, the consistency
  invariant `Inv`, and `Step`, one pass of the loop body as a function of
  the state, the address and the backing store.
- `PagingProperties` (properties.dfy): what `Step` guarantees. These are
  invariant preservation, the TLB and page-table lookup meanings,
  accounting, FIFO replacement, frame recycling, and that every byte read
  is the backing-store byte of the address. `Run` folds `Step` over an
  address stream, and lemmas lift these properties to it.
- `Simulator` (simulator.dfy): the class `VirtualMemory`. Its arrays are
  the C globals `tlb`, `pt` and `physical_mem`; its fields are the cursors
  and counters of `main`. Each C function and each loop of the translation
  body is a method, proved to move the object's `State()` exactly as
  `Step` (and, over a stream, `Run`) prescribes.

## Model

| member | source | states |
|---|---|---|
| AddressCodec.ShiftLeftWraps | main_pr.c:280-281 | `x << n` on a `uint32_t` (the function `ShiftLeft32`) equals `x * 2^n` modulo 2^32 |
| AddressCodec.ShiftRightDivides | main_pr.c:280-281 | `x >> n` (the function `ShiftRight`) equals `x / 2^n` |
| AddressCodec.PageNumberBits | main_pr.c:280 | the page number stored in the `uint8_t` (the function `PageNumber`) is bits 15-8 of the address, `(a / 256) % 256` |
| AddressCodec.OffsetBits | main_pr.c:281 | the offset stored in the `uint8_t` (the function `Offset`) is bits 7-0 of the address, `a % 256` |
| AddressCodec.DecodeSplitsAddress | main_pr.c:280-281 | page number and offset are bits 15-8 and 7-0, and together they rebuild the low 16 bits: `a % 65536 == page * 256 + offset` |
| AddressCodec.HighBitsIgnored | main_pr.c:280-281 | two addresses that agree in their low 16 bits decode to the same page number and offset |
| AddressCodec.BitOrDisjoint | main_pr.c:320 | or-ing (the function `BitOr`) a value below 2^n into `x * 2^n` is addition |
| AddressCodec.EncodeIsFrameTimesPageSize | main_pr.c:319-320 | the physical address (the function `FrameAddress`) is `frame * 256 + offset`; for a frame below 128 it is below 32768 |
| AddressCodec.DecodeEncode | main_pr.c:319-320 | decoding a physical address with the same shifts gives back the frame and the offset it was built from |
| PagingModel.CRem | main_pr.c:91 | C's `%` for a positive divisor: the remainder lies strictly between -d and d, equals the Euclidean remainder for a non-negative dividend, and for a negative dividend is non-positive with `a - r` a multiple of d (the sign of the dividend) |
| PagingModel.CursorAdvance | main_pr.c:134 | advancing a cursor kept modulo n by one step gives the successor count modulo n |
| PagingModel.PageBytes | main_pr.c:160-161 | the page read from the backing store is 256 bytes long, and byte j is store byte `page * 256 + j` |
| PagingModel.ScanTlbFrom | main_pr.c:114-121 | the scan from slot i returns the frame of the first valid slot holding the page, or -1 when no slot from i on holds it |
| PagingModel.LookupTlb | main_pr.c:110-124 | search_tlb returns the frame of the first valid slot holding the page, or -1 when no valid slot holds it |
| PagingModel.ResolvedFrame | main_pr.c:283-293 | the frame the loop body settles on (TLB frame, else page-table frame, else frame cursor) is a real frame, below 128 |
| PagingProperties.LookupPtMeaning | main_pr.c:77-83 | search_pt (the function `LookupPt`) returns -1 exactly when the entry is invalid; otherwise it returns a real frame that holds exactly that page's bytes |
| PagingProperties.LookupTlbMeaning | main_pr.c:110-124 | search_tlb returns -1 exactly when no valid slot holds the page; a hit returns the frame the valid page-table entry maps the page to |
| PagingProperties.StepOnTlbHit | main_pr.c:311-317 | unfolding lemma: on a TLB hit, only the hit and reference counters change, and the byte comes from the TLB's frame |
| PagingProperties.StepOnPtHit | main_pr.c:286-310 | unfolding lemma: on a TLB miss that hits the page table, only the TLB, its cursor and the reference counter change |
| PagingProperties.StepOnFault | main_pr.c:288-309 | unfolding lemma: on a page fault, the new state is the one with the frame under the cursor reloaded, both tables invalidated for it and updated, and both cursors and three counters advanced |
| PagingProperties.StepReadsResolvedFrame | main_pr.c:319-322 | on every path, the output is the encoded address of the resolved frame and the byte at that frame and offset of the new memory |
| PagingProperties.TlbHitStateInv | main_pr.c:311-317 | counting a hit and a reference keeps the invariant |
| PagingProperties.TlbHitPreservesInv | main_pr.c:311-317 | a TLB hit keeps the consistency invariant |
| PagingProperties.TlbRefreshKeepsAgreement | main_pr.c:304-309 | after the TLB invalidation pass (the function `TlbWithoutFrame`) and update_tlb, every valid TLB entry agrees with the new page table, and no page is cached twice |
| PagingProperties.PtHitStateInv | main_pr.c:286-310 | the state after a page-table hit satisfies the invariant |
| PagingProperties.PtHitPreservesInv | main_pr.c:286-310 | a TLB miss with a page-table hit keeps the consistency invariant |
| PagingProperties.FaultKeepsPageTable | main_pr.c:295-301 | after the page-table invalidation pass (the function `PtWithoutFrame`) and update_pt, valid frames are in range, no frame has two valid owners, and each valid entry's frame holds its page |
| PagingProperties.FaultStateInv | main_pr.c:288-309 | the state after a page fault satisfies the invariant |
| PagingProperties.FaultPreservesInv | main_pr.c:288-309 | a page fault keeps the consistency invariant |
| PagingProperties.StepPreservesInv | main_pr.c:283-322 | after every address (one pass of the loop body, the function `Step`): the TLB agrees with the page table, caches each page at most once, no frame has two valid owners, each mapped frame holds its page's bytes, and the cursors follow the counters |
| PagingProperties.InitialSatisfiesInv | main_pr.c:229-231 | the state after init_tlb, init_pt and init_mem satisfies the invariant |
| PagingProperties.StepAccounting | main_pr.c:283-317 | every address adds one reference and counts as either a hit or a miss; a fault is a miss whose page-table entry was invalid; a hit changes only the counters; a miss advances the TLB cursor |
| PagingProperties.FaultLoadsCursorFrame | main_pr.c:288-301 | the k-th fault (from 0) loads the page into frame k % 128, maps the page to that frame, and advances the frame cursor; without a fault, memory and the cursor are unchanged |
| PagingProperties.FaultRecyclesFrame | main_pr.c:295-308 | on a fault, every other page mapped to the victim frame becomes invalid, every other mapping is kept, and the only valid TLB entries naming the victim frame are for the new page |
| PagingProperties.StepReadsBackingStore | main_pr.c:283-322 | afterwards the page is mapped and cached, the physical address is `frame * 256 + offset` (below 32768) and decodes back to its frame and offset, and the byte is backing-store byte `page * 256 + offset` |
| PagingProperties.StepValue | main_pr.c:322 | the byte read for an address is backing-store byte `page * 256 + offset` |
| PagingProperties.RepeatIsTlbHit | main_pr.c:283-315 | translating the same page twice in a row: the second translation is a TLB hit, with no fault, on the same frame, and leaves the tables unchanged; with the same offset it gives the same output |
| PagingProperties.RunCons | main_pr.c:274-328 | unfolding lemma: a run over a non-empty stream is one step on the first address followed by the run over the rest |
| PagingProperties.RunPreservesInv | main_pr.c:274-328 | the consistency invariant holds after every stream of addresses (the whole loop, the function `Run`) |
| PagingProperties.RunCounters | main_pr.c:274-328 | a run adds one reference per address, hits and faults never decrease, and hits plus faults never exceed references |
| PagingProperties.RunReadsBackingStore | main_pr.c:274-328 | a run produces one output per address, each the backing-store byte at that address's page and offset |
| Simulator.VirtualMemory.constructor | main_pr.c:214-231 | fresh tables, initialised, form the initial state and satisfy the invariant |
| Simulator.VirtualMemory.InitMem | main_pr.c:60-67 | every byte of every frame becomes -1 |
| Simulator.VirtualMemory.InitPt | main_pr.c:70-74 | every page-table entry loses its valid bit, and its frame field is kept |
| Simulator.VirtualMemory.InitTlb | main_pr.c:103-107 | every TLB entry loses its valid bit, and its other fields are kept |
| Simulator.VirtualMemory.SearchPt | main_pr.c:77-83 | returns the page table's lookup result for the page |
| Simulator.VirtualMemory.UpdatePt | main_pr.c:86-92 | only entry `page` changes, becoming valid with the given frame; returns `(frame + 1) % 128` with C's `%` |
| Simulator.VirtualMemory.SearchTlb | main_pr.c:110-124 | the linear scan returns LookupTlb's result: the first valid match's frame, or -1 |
| Simulator.VirtualMemory.UpdateTlb | main_pr.c:127-135 | only slot `ptr` changes, becoming valid with the page and frame; returns `(ptr + 1) % 16` with C's `%` |
| Simulator.VirtualMemory.HandlePageFault | main_pr.c:164-167 | frame `victim` becomes the page's 256 backing-store bytes, and no other frame changes |
| Simulator.VirtualMemory.InvalidatePtFrame | main_pr.c:296-300 | the page table becomes PtWithoutFrame of the old one: every entry naming the frame is invalid, and nothing else changes |
| Simulator.VirtualMemory.InvalidateTlbFrame | main_pr.c:304-308 | the TLB becomes TlbWithoutFrame of the old one: every slot naming the frame is invalid, and nothing else changes |
| Simulator.VirtualMemory.ServeFault | main_pr.c:291-301 | the fault counter rises by one; the frame under the cursor is loaded; the page table is invalidated for it and maps the page to it; the cursor advances modulo 128 |
| Simulator.VirtualMemory.RefreshTlb | main_pr.c:304-309 | the TLB is invalidated for the frame and maps the page in the slot under the cursor; the cursor advances modulo 16 |
| Simulator.VirtualMemory.HandleTlbMiss | main_pr.c:286-310 | the frame is the resolved frame, and once the reference is counted the state is Step's |
| Simulator.VirtualMemory.ResolveFrame | main_pr.c:283-317 | the frame is the resolved frame, and the new state is Step's |
| Simulator.VirtualMemory.Translate | main_pr.c:280-322 | the new state and the output are Step's, the invariant is kept, and the byte is backing-store byte `page * 256 + offset` |
| Simulator.VirtualMemory.TranslateAll | main_pr.c:274-328 | over an address stream, the final state and the outputs are Run's, and the invariant holds at the end |

## Left out

- Command-line handling and file I/O: `usage`, the argument checks, opening
  and closing the address and output files, and `fprintf` of the three
  outputs (lines 44-50, 198-212, 233-271, 324-337). The input is a sequence
  of 32-bit addresses. The outputs are modelled as `Translation(physical,
  value)` values; the logical address they also print is the input itself.
- `fgets`/`atoi` parsing (lines 274-277): the model starts from the
  `uint32_t` value, so a 7-byte line buffer, non-numeric text and negative
  numbers converted to `uint32_t` are not modelled.
- The backing-store file access in `handle_page_fault` (`fopen`, `fseek`,
  `fread`, `fclose`, lines 150-161 and 169-170). The store is an immutable
  byte sequence `backingStore`, required to cover all 256 pages. The code
  ignores both a failed open (the -1 return at line 292) and a short
  `fread`. So the model has no error path for them, and a store shorter
  than 65536 bytes is outside the model.
- The summary ratios printed with `double` division (lines 330-331):
  floating point.
- `malloc` failure, `free`/`cleanup`, and the debug printers `print_pt` and
  `print_tlb` (lines 52-57, 94-100, 137-143, 216-226): allocation and
  debug output.
- Counters are `nat`, because overflow of the C `int` counters after 2^31
  addresses is not modelled. `framePtr` and `tlbPtr` are `int` and stay in
  range by the invariant.
- The page and frame numbers that `malloc` leaves in the table entries are
  whatever the freshly allocated Dafny arrays hold. The model does not fix
  them, so the invalidation passes are proved for arbitrary stale values.
- `main.c` is not part of this model. It is an earlier draft whose only
  logic (decoding and `search_pt`) reappears in `main_pr.c`, and whose
  rule of skipping a parsed 0 does not exist in `main_pr.c`.
- `update_pt` (lines 86-92) does not invalidate other entries. The
  stale-entry pass is the inline loop at lines 296-300, run before it, and
  the model keeps that order.
- Only the configuration in `main_pr.c` is modelled: 16 TLB slots, 256
  pages, 128 frames and 8-bit page numbers and offsets are constants.
