/** The simulator of main_pr.c as an object: the global `tlb`, `pt` and
    `physical_mem` tables (lines 40-42) and the cursors and counters of
    `main` (lines 188-193), with the table operations and the translation
    loop as methods.  Each method is proved to move the object between the
    states of PagingModel. */
module Simulator {
  import opened AddressCodec
  import opened PagingModel
  import opened PagingProperties

  class VirtualMemory {
    const tlb: array<TlbEntry>
    const pt: array<PtEntry>
    const physicalMem: array2<Int8>
    /** The contents of BACKING_STORE.bin, fixed for the whole run. */
    const backingStore: seq<Int8>

    var framePtr: int
    var tlbPtr: int
    var pageFaults: nat
    var tlbHits: nat
    var totalReferences: nat

    ghost predicate Shape()
    {
      && tlb.Length == TLB_SIZE
      && pt.Length == PT_SIZE
      && physicalMem.Length0 == NUM_FRAMES
      && physicalMem.Length1 == FRAME_SIZE
      && |backingStore| >= PT_SIZE * FRAME_SIZE
    }

    /** Physical memory, one row per frame. */
    ghost function Frames(): seq<seq<Int8>>
      reads physicalMem
      requires Shape()
    {
      seq(NUM_FRAMES, f requires 0 <= f < NUM_FRAMES reads physicalMem =>
        seq(FRAME_SIZE, j requires 0 <= j < FRAME_SIZE reads physicalMem => physicalMem[f, j]))
    }

    ghost function State(): MmuState
      reads this, tlb, pt, physicalMem
      requires Shape()
    {
      MmuState(tlb[..], pt[..], Frames(), framePtr, tlbPtr, pageFaults, tlbHits, totalReferences)
    }

    ghost predicate Valid()
      reads this, tlb, pt, physicalMem
    {
      Shape() && Inv(State(), backingStore)
    }

    /** Allocation of the tables and init_tlb, init_pt, init_mem
        (lines 214-231).  The page and frame numbers of the fresh entries are
        left as allocated, as malloc leaves them. */
    constructor (backing: seq<Int8>)
      requires |backing| >= PT_SIZE * FRAME_SIZE
      ensures Valid() && Initial(State())
      ensures backingStore == backing
      ensures fresh(tlb) && fresh(pt) && fresh(physicalMem)
    {
      tlb := new TlbEntry[TLB_SIZE];
      pt := new PtEntry[PT_SIZE];
      physicalMem := new Int8[NUM_FRAMES, FRAME_SIZE];
      backingStore := backing;
      framePtr, tlbPtr := 0, 0;
      pageFaults, tlbHits, totalReferences := 0, 0, 0;
      new;
      InitTlb();
      InitPt();
      InitMem();
      InitialSatisfiesInv(State(), backingStore);
    }

    /** init_mem (lines 60-67): every byte of every frame becomes -1. */
    method InitMem()
      requires Shape()
      modifies physicalMem
      ensures forall f | 0 <= f < NUM_FRAMES :: Frames()[f] == seq(FRAME_SIZE, _ => -1)
    {
      for f := 0 to NUM_FRAMES
        invariant forall g, j | 0 <= g < f && 0 <= j < FRAME_SIZE :: physicalMem[g, j] == -1
      {
        for j := 0 to FRAME_SIZE
          invariant forall g, k | 0 <= g < f && 0 <= k < FRAME_SIZE :: physicalMem[g, k] == -1
          invariant forall k | 0 <= k < j :: physicalMem[f, k] == -1
        {
          physicalMem[f, j] := -1;
        }
      }
      forall f | 0 <= f < NUM_FRAMES
        ensures Frames()[f] == seq(FRAME_SIZE, _ => -1)
      {
        assert forall j | 0 <= j < FRAME_SIZE :: Frames()[f][j] == -1;
      }
    }

    /** init_pt (lines 70-74): clears the valid bit of every entry. */
    method InitPt()
      requires Shape()
      modifies pt
      ensures forall p | 0 <= p < PT_SIZE :: pt[p] == old(pt[p]).(valid := false)
    {
      for p := 0 to PT_SIZE
        invariant forall q | 0 <= q < p :: pt[q] == old(pt[q]).(valid := false)
        invariant forall q | p <= q < PT_SIZE :: pt[q] == old(pt[q])
      {
        pt[p] := pt[p].(valid := false);
      }
    }

    /** init_tlb (lines 103-107): clears the valid bit of every entry. */
    method InitTlb()
      requires Shape()
      modifies tlb
      ensures forall i | 0 <= i < TLB_SIZE :: tlb[i] == old(tlb[i]).(valid := false)
    {
      for i := 0 to TLB_SIZE
        invariant forall k | 0 <= k < i :: tlb[k] == old(tlb[k]).(valid := false)
        invariant forall k | i <= k < TLB_SIZE :: tlb[k] == old(tlb[k])
      {
        tlb[i] := tlb[i].(valid := false);
      }
    }

    /** search_pt (lines 77-83). */
    method SearchPt(page: int) returns (frame: int)
      requires Shape() && 0 <= page < PT_SIZE
      ensures frame == LookupPt(pt[..], page)
    {
      if pt[page].valid {
        frame := pt[page].frameNum;
      } else {
        frame := -1;
      }
    }

    /** update_pt (lines 86-92): only entry `page` changes; the result is the
        next FIFO victim frame. */
    method UpdatePt(page: int, frame: int) returns (nextFrame: int)
      requires Shape() && 0 <= page < PT_SIZE
      modifies pt
      ensures pt[..] == old(pt[..])[page := PtEntry(frame, true)]
      ensures nextFrame == CRem(frame + 1, NUM_FRAMES)
    {
      pt[page] := pt[page].(valid := true);
      pt[page] := pt[page].(frameNum := frame);
      nextFrame := CRem(frame + 1, NUM_FRAMES);
    }

    /** search_tlb (lines 110-124): linear scan, first match wins. */
    method SearchTlb(page: int) returns (frame: int)
      requires Shape()
      ensures frame == LookupTlb(tlb[..], page)
    {
      frame := -1;
      var i := 0;
      while i < TLB_SIZE
        invariant 0 <= i <= TLB_SIZE
        invariant frame == -1
        invariant LookupTlb(tlb[..], page) == ScanTlbFrom(tlb[..], page, i)
      {
        if tlb[i].pageNum == page && tlb[i].valid {
          frame := tlb[i].frameNum;
          break;
        }
        i := i + 1;
      }
    }

    /** update_tlb (lines 127-135): only slot `ptr` changes; the result is
        the next FIFO slot. */
    method UpdateTlb(page: int, frame: int, ptr: int) returns (nextPtr: int)
      requires Shape() && 0 <= ptr < TLB_SIZE
      modifies tlb
      ensures tlb[..] == old(tlb[..])[ptr := TlbEntry(page, frame, true)]
      ensures nextPtr == CRem(ptr + 1, TLB_SIZE)
    {
      tlb[ptr] := tlb[ptr].(pageNum := page);
      tlb[ptr] := tlb[ptr].(frameNum := frame);
      tlb[ptr] := tlb[ptr].(valid := true);
      nextPtr := CRem(ptr + 1, TLB_SIZE);
    }

    /** The frame fill of handle_page_fault (lines 164-167): frame `victim`
        is overwritten whole with the page's bytes; no other frame changes. */
    method HandlePageFault(page: int, victim: int)
      requires Shape() && 0 <= page < PT_SIZE && 0 <= victim < NUM_FRAMES
      modifies physicalMem
      ensures Frames() == old(Frames())[victim := PageBytes(backingStore, page)]
    {
      var buffer := PageBytes(backingStore, page);
      for i := 0 to FRAME_SIZE
        invariant forall j | 0 <= j < i :: physicalMem[victim, j] == buffer[j]
        invariant forall f, j | 0 <= f < NUM_FRAMES && 0 <= j < FRAME_SIZE && (f != victim || j >= i) ::
                    physicalMem[f, j] == old(physicalMem[f, j])
      {
        physicalMem[victim, i] := buffer[i];
      }
      ghost var expected := old(Frames())[victim := buffer];
      forall f | 0 <= f < NUM_FRAMES
        ensures Frames()[f] == expected[f]
      {
        assert forall j | 0 <= j < FRAME_SIZE :: Frames()[f][j] == expected[f][j];
      }
    }

    /** The invalidation loop at lines 296-300. */
    method InvalidatePtFrame(frame: int)
      requires Shape()
      modifies pt
      ensures pt[..] == PtWithoutFrame(old(pt[..]), frame)
    {
      for i := 0 to PT_SIZE
        invariant forall k | 0 <= k < i :: pt[k] == PtWithoutFrame(old(pt[..]), frame)[k]
        invariant forall k | i <= k < PT_SIZE :: pt[k] == old(pt[k])
      {
        if pt[i].frameNum == frame {
          pt[i] := pt[i].(valid := false);
        }
      }
    }

    /** The invalidation loop at lines 304-308. */
    method InvalidateTlbFrame(frame: int)
      requires Shape()
      modifies tlb
      ensures tlb[..] == TlbWithoutFrame(old(tlb[..]), frame)
    {
      for i := 0 to TLB_SIZE
        invariant forall k | 0 <= k < i :: tlb[k] == TlbWithoutFrame(old(tlb[..]), frame)[k]
        invariant forall k | i <= k < TLB_SIZE :: tlb[k] == old(tlb[k])
      {
        if tlb[i].frameNum == frame {
          tlb[i] := tlb[i].(valid := false);
        }
      }
    }

    /** The page-fault branch (lines 291-301): count the fault, load the
        page into the frame under the frame cursor, invalidate the page-table
        entries naming that frame, install the page and advance the cursor. */
    method ServeFault(page: int) returns (frame: int)
      requires Shape() && 0 <= page < PT_SIZE && 0 <= framePtr < NUM_FRAMES
      modifies this, pt, physicalMem
      ensures frame == old(framePtr)
      ensures pt[..] == PtWithoutFrame(old(pt[..]), frame)[page := PtEntry(frame, true)]
      ensures Frames() == old(Frames())[frame := PageBytes(backingStore, page)]
      ensures framePtr == (frame + 1) % NUM_FRAMES
      ensures pageFaults == old(pageFaults) + 1
      ensures tlbPtr == old(tlbPtr) && tlbHits == old(tlbHits)
      ensures totalReferences == old(totalReferences)
    {
      pageFaults := pageFaults + 1;
      HandlePageFault(page, framePtr);
      frame := framePtr;
      InvalidatePtFrame(frame);
      framePtr := UpdatePt(page, frame);
    }

    /** The TLB refresh after every miss (lines 304-309): invalidate the
        entries naming the frame, install the page in the slot under the TLB
        cursor and advance the cursor. */
    method RefreshTlb(page: int, frame: int)
      requires Shape() && 0 <= tlbPtr < TLB_SIZE
      modifies this, tlb
      ensures tlb[..] == TlbWithoutFrame(old(tlb[..]), frame)[old(tlbPtr) := TlbEntry(page, frame, true)]
      ensures tlbPtr == (old(tlbPtr) + 1) % TLB_SIZE
      ensures framePtr == old(framePtr) && pageFaults == old(pageFaults)
      ensures tlbHits == old(tlbHits) && totalReferences == old(totalReferences)
    {
      InvalidateTlbFrame(frame);
      tlbPtr := UpdateTlb(page, frame, tlbPtr);
    }

    /** The TLB-miss branch (lines 286-310): consult the page table, serve
        a page fault if the entry is invalid, then refresh the TLB.  Once the
        reference is counted the state is that of `Step`. */
    method HandleTlbMiss(addr: Uint32, page: nat) returns (frame: int)
      requires Valid() && page == PageNumber(addr)
      requires LookupTlb(tlb[..], page) == -1
      modifies this, tlb, pt, physicalMem
      ensures frame == ResolvedFrame(old(State()), backingStore, page)
      ensures Shape()
      ensures State().(totalReferences := totalReferences + 1) == Step(old(State()), addr, backingStore).state
    {
      ghost var s := State();
      LookupPtMeaning(s, backingStore, page);
      frame := SearchPt(page);
      if frame == -1 {
        StepOnFault(s, backingStore, addr);
        frame := ServeFault(page);
      } else {
        StepOnPtHit(s, backingStore, addr);
      }
      RefreshTlb(page, frame);
    }

    /** Lines 283-317: find the frame of `page` through the TLB, and on a
        miss through the page table or a page fault; count the reference. */
    method ResolveFrame(addr: Uint32, page: nat) returns (frame: int)
      requires Valid() && page == PageNumber(addr)
      modifies this, tlb, pt, physicalMem
      ensures frame == ResolvedFrame(old(State()), backingStore, page)
      ensures Shape() && State() == Step(old(State()), addr, backingStore).state
    {
      ghost var s := State();
      frame := SearchTlb(page);
      if frame == -1 {
        frame := HandleTlbMiss(addr, page);
      } else {
        StepOnTlbHit(s, backingStore, addr);
        tlbHits := tlbHits + 1;
      }
      totalReferences := totalReferences + 1;
    }

    /** One pass of the loop body (lines 280-322): the new state is `Step`
        of the old one, the consistency invariant is kept, and the byte read
        is the backing-store byte of the address. */
    method Translate(addr: Uint32) returns (physical: nat, value: Int8)
      requires Valid()
      modifies this, tlb, pt, physicalMem
      ensures Valid()
      ensures State() == Step(old(State()), addr, backingStore).state
      ensures Translation(physical, value) == Step(old(State()), addr, backingStore).out
      ensures value == backingStore[PageNumber(addr) * FRAME_SIZE + Offset(addr)]
    {
      ghost var s := State();
      var page := PageNumber(addr);
      var offset := Offset(addr);
      var frame := ResolveFrame(addr, page);
      physical := FrameAddress(frame, offset);
      value := physicalMem[frame, offset];
      StepReadsResolvedFrame(s, backingStore, addr);
      assert value == Frames()[frame][offset];
      StepPreservesInv(s, backingStore, addr);
      StepValue(s, backingStore, addr);
    }

    /** The loop at line 274, over the address stream: the final state and
        the outputs are those of `Run`. */
    method TranslateAll(addrs: seq<Uint32>) returns (outputs: seq<Translation>)
      requires Valid()
      modifies this, tlb, pt, physicalMem
      ensures Valid()
      ensures State() == Run(old(State()), addrs, backingStore).state
      ensures outputs == Run(old(State()), addrs, backingStore).outputs
    {
      outputs := [];
      var i := 0;
      ghost var whole := Run(State(), addrs, backingStore);
      assert addrs[i..] == addrs;
      while i < |addrs|
        invariant 0 <= i <= |addrs|
        invariant Valid()
        invariant Run(State(), addrs[i..], backingStore).state == whole.state
        invariant outputs + Run(State(), addrs[i..], backingStore).outputs == whole.outputs
      {
        ghost var before := State();
        RunCons(before, addrs[i..], backingStore);
        var physical, value := Translate(addrs[i]);
        assert addrs[i..][1..] == addrs[i + 1..];
        ghost var rest := Run(State(), addrs[i + 1..], backingStore).outputs;
        assert Run(before, addrs[i..], backingStore).outputs == [Translation(physical, value)] + rest;
        assert (outputs + [Translation(physical, value)]) + rest
               == outputs + ([Translation(physical, value)] + rest);
        outputs := outputs + [Translation(physical, value)];
        i := i + 1;
      }
    }
  }
}
