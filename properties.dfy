/** What one pass of the translation loop guarantees, and what a whole run
    over a stream of addresses guarantees. */
module PagingProperties {
  import opened AddressCodec
  import opened PagingModel

  /** The page table came back with -1 exactly when the entry is invalid. */
  lemma LookupPtMeaning(s: MmuState, backing: seq<Int8>, page: int)
    requires Inv(s, backing) && 0 <= page < PT_SIZE
    ensures LookupPt(s.pt, page) == -1 <==> !s.pt[page].valid
    ensures LookupPt(s.pt, page) != -1 ==>
              0 <= LookupPt(s.pt, page) < NUM_FRAMES &&
              s.mem[LookupPt(s.pt, page)] == PageBytes(backing, page)
  {
  }

  /** Under the invariant the TLB search misses exactly when no valid slot
      holds the page, and a hit reports the page table's frame for it. */
  lemma {:induction false} LookupTlbMeaning(s: MmuState, backing: seq<Int8>, page: int)
    requires Inv(s, backing)
    ensures LookupTlb(s.tlb, page) == -1 <==> forall k | 0 <= k < TLB_SIZE :: !MatchesAt(s.tlb, page, k)
    ensures LookupTlb(s.tlb, page) != -1 ==>
              0 <= page < PT_SIZE && s.pt[page].valid && s.pt[page].frameNum == LookupTlb(s.tlb, page)
  {
    var f := LookupTlb(s.tlb, page);
    if f != -1 {
      var k :| FirstMatch(s.tlb, page, k) && f == s.tlb[k].frameNum;
    }
  }

  // ---------------------------------------------------------------------
  // Unfolding lemmas: each path through Step written out as one explicit
  // new state, used by the simulator's proofs

  /** Unfolds Step on a TLB hit: only the hit and reference counters move. */
  lemma StepOnTlbHit(s: MmuState, backing: seq<Int8>, addr: Uint32)
    requires Inv(s, backing) && LookupTlb(s.tlb, PageNumber(addr)) != -1
    ensures var frame := LookupTlb(s.tlb, PageNumber(addr));
            && 0 <= frame < NUM_FRAMES
            && Step(s, addr, backing).state
               == s.(tlbHits := s.tlbHits + 1, totalReferences := s.totalReferences + 1)
            && Step(s, addr, backing).out
               == Translation(FrameAddress(frame, Offset(addr)), s.mem[frame][Offset(addr)])
  {
    TlbHitFrameInRange(s, backing, PageNumber(addr));
  }

  /** Unfolds Step on a TLB miss with a page-table hit: the TLB is refreshed,
      nothing else changes but the TLB cursor and the reference counter. */
  lemma StepOnPtHit(s: MmuState, backing: seq<Int8>, addr: Uint32)
    requires Inv(s, backing) && LookupTlb(s.tlb, PageNumber(addr)) == -1
    requires s.pt[PageNumber(addr)].valid
    ensures var page := PageNumber(addr);
            var frame := s.pt[page].frameNum;
            var t := TlbWithoutFrame(s.tlb, frame)[s.tlbPtr := TlbEntry(page, frame, true)];
            && 0 <= frame < NUM_FRAMES
            && Step(s, addr, backing).state
               == s.(tlb := t, tlbPtr := (s.tlbPtr + 1) % TLB_SIZE, totalReferences := s.totalReferences + 1)
            && Step(s, addr, backing).out
               == Translation(FrameAddress(frame, Offset(addr)), s.mem[frame][Offset(addr)])
  {
  }

  /** Unfolds Step on a page fault: the frame under the cursor is reloaded
      and both tables are updated. */
  lemma StepOnFault(s: MmuState, backing: seq<Int8>, addr: Uint32)
    requires Inv(s, backing) && LookupTlb(s.tlb, PageNumber(addr)) == -1
    requires !s.pt[PageNumber(addr)].valid
    ensures var page := PageNumber(addr);
            var f := s.framePtr;
            var t := TlbWithoutFrame(s.tlb, f)[s.tlbPtr := TlbEntry(page, f, true)];
            var pt' := PtWithoutFrame(s.pt, f)[page := PtEntry(f, true)];
            var mem' := s.mem[f := PageBytes(backing, page)];
            && Step(s, addr, backing).state
               == MmuState(t, pt', mem', (f + 1) % NUM_FRAMES, (s.tlbPtr + 1) % TLB_SIZE,
                           s.pageFaults + 1, s.tlbHits, s.totalReferences + 1)
            && Step(s, addr, backing).out
               == Translation(FrameAddress(f, Offset(addr)), mem'[f][Offset(addr)])
  {
  }

  /** Whatever the path, the byte comes from the resolved frame of the new
      state's memory, at the address's offset. */
  lemma StepReadsResolvedFrame(s: MmuState, backing: seq<Int8>, addr: Uint32)
    requires Inv(s, backing)
    ensures var frame := ResolvedFrame(s, backing, PageNumber(addr));
            var r := Step(s, addr, backing);
            && |r.state.mem| == NUM_FRAMES && |r.state.mem[frame]| == FRAME_SIZE
            && r.out == Translation(FrameAddress(frame, Offset(addr)), r.state.mem[frame][Offset(addr)])
  {
    var page := PageNumber(addr);
    LookupPtMeaning(s, backing, page);
    if LookupTlb(s.tlb, page) != -1 {
      StepOnTlbHit(s, backing, addr);
    } else if s.pt[page].valid {
      StepOnPtHit(s, backing, addr);
    } else {
      StepOnFault(s, backing, addr);
    }
  }

  // ---------------------------------------------------------------------
  // Invariant preservation, one branch of the loop body at a time

  /** TLB hit (lines 311-315): only the two counters change. */
  lemma TlbHitPreservesInv(s: MmuState, backing: seq<Int8>, addr: Uint32)
    requires Inv(s, backing)
    requires LookupTlb(s.tlb, PageNumber(addr)) != -1
    ensures Inv(Step(s, addr, backing).state, backing)
  {
    StepOnTlbHit(s, backing, addr);
    TlbHitStateInv(s, backing);
  }

  /** Counting a hit keeps both cursors in step with the counters. */
  lemma TlbHitStateInv(s: MmuState, backing: seq<Int8>)
    requires Inv(s, backing)
    ensures Inv(s.(tlbHits := s.tlbHits + 1, totalReferences := s.totalReferences + 1), backing)
  {
    var s' := s.(tlbHits := s.tlbHits + 1, totalReferences := s.totalReferences + 1);
    assert s'.totalReferences - s'.tlbHits == s.totalReferences - s.tlbHits;
  }

  /** The TLB update that follows every miss (lines 304-309) keeps the TLB
      in agreement with the page table, provided the new page table maps
      the page to the frame being installed and no valid TLB slot already
      held the page. */
  lemma TlbRefreshKeepsAgreement(s: MmuState, pt': seq<PtEntry>, page: int, frame: int)
    requires Shape(s) && TlbAgreesWithPt(s) && TlbPagesUnique(s)
    requires |pt'| == PT_SIZE && 0 <= page < PT_SIZE
    requires pt'[page] == PtEntry(frame, true)
    requires forall k | 0 <= k < TLB_SIZE :: !MatchesAt(s.tlb, page, k)
    requires forall p | 0 <= p < PT_SIZE && p != page && s.pt[p].valid && s.pt[p].frameNum != frame ::
               pt'[p] == s.pt[p]
    ensures var t := TlbWithoutFrame(s.tlb, frame)[s.tlbPtr := TlbEntry(page, frame, true)];
            && (forall i | 0 <= i < TLB_SIZE && t[i].valid ::
                  0 <= t[i].pageNum < PT_SIZE && pt'[t[i].pageNum].valid &&
                  pt'[t[i].pageNum].frameNum == t[i].frameNum)
            && (forall i, j | 0 <= i < j < TLB_SIZE && t[i].valid && t[j].valid ::
                  t[i].pageNum != t[j].pageNum)
  {
    var t := TlbWithoutFrame(s.tlb, frame)[s.tlbPtr := TlbEntry(page, frame, true)];
    forall i | 0 <= i < TLB_SIZE && t[i].valid
      ensures 0 <= t[i].pageNum < PT_SIZE && pt'[t[i].pageNum].valid &&
              pt'[t[i].pageNum].frameNum == t[i].frameNum
    {
      if i != s.tlbPtr {
        assert t[i] == s.tlb[i] && s.tlb[i].frameNum != frame;
        assert !MatchesAt(s.tlb, page, i);
      }
    }
    forall i, j | 0 <= i < j < TLB_SIZE && t[i].valid && t[j].valid
      ensures t[i].pageNum != t[j].pageNum
    {
      if i != s.tlbPtr && j != s.tlbPtr {
        assert t[i] == s.tlb[i] && t[j] == s.tlb[j];
      } else if i == s.tlbPtr {
        assert !MatchesAt(s.tlb, page, j);
      } else {
        assert !MatchesAt(s.tlb, page, i);
      }
    }
  }

  /** The state after a TLB miss that found the page in the page table. */
  lemma PtHitStateInv(s: MmuState, backing: seq<Int8>, page: int)
    requires Inv(s, backing) && 0 <= page < PT_SIZE && s.pt[page].valid
    requires forall k | 0 <= k < TLB_SIZE :: !MatchesAt(s.tlb, page, k)
    ensures var frame := s.pt[page].frameNum;
            var t := TlbWithoutFrame(s.tlb, frame)[s.tlbPtr := TlbEntry(page, frame, true)];
            Inv(s.(tlb := t, tlbPtr := (s.tlbPtr + 1) % TLB_SIZE, totalReferences := s.totalReferences + 1), backing)
  {
    TlbRefreshKeepsAgreement(s, s.pt, page, s.pt[page].frameNum);
    CursorAdvance(s.totalReferences - s.tlbHits, TLB_SIZE);
  }

  /** TLB miss, page-table hit (lines 287-288, 304-309). */
  lemma PtHitPreservesInv(s: MmuState, backing: seq<Int8>, addr: Uint32)
    requires Inv(s, backing)
    requires LookupTlb(s.tlb, PageNumber(addr)) == -1
    requires s.pt[PageNumber(addr)].valid
    ensures Inv(Step(s, addr, backing).state, backing)
  {
    StepOnPtHit(s, backing, addr);
    LookupTlbMeaning(s, backing, PageNumber(addr));
    PtHitStateInv(s, backing, PageNumber(addr));
  }

  /** The page-table side of a fault (lines 291-301): after the invalidation
      loop and update_pt the frame has exactly one owner, and every valid
      entry's frame holds its page. */
  lemma FaultKeepsPageTable(s: MmuState, backing: seq<Int8>, page: int)
    requires Inv(s, backing) && 0 <= page < PT_SIZE
    ensures var f := s.framePtr;
            var pt' := PtWithoutFrame(s.pt, f)[page := PtEntry(f, true)];
            var mem' := s.mem[f := PageBytes(backing, page)];
            && (forall p | 0 <= p < PT_SIZE && pt'[p].valid :: 0 <= pt'[p].frameNum < NUM_FRAMES)
            && (forall p, q | 0 <= p < q < PT_SIZE && pt'[p].valid && pt'[q].valid ::
                  pt'[p].frameNum != pt'[q].frameNum)
            && (forall p | 0 <= p < PT_SIZE && pt'[p].valid :: mem'[pt'[p].frameNum] == PageBytes(backing, p))
  {
    var f := s.framePtr;
    var pt' := PtWithoutFrame(s.pt, f)[page := PtEntry(f, true)];
    var mem' := s.mem[f := PageBytes(backing, page)];
    forall p | 0 <= p < PT_SIZE && pt'[p].valid && p != page
      ensures pt'[p] == s.pt[p] && s.pt[p].frameNum != f
    {
    }
  }

  /** The state after a page fault. */
  lemma FaultStateInv(s: MmuState, backing: seq<Int8>, page: int)
    requires Inv(s, backing) && 0 <= page < PT_SIZE && !s.pt[page].valid
    requires forall k | 0 <= k < TLB_SIZE :: !MatchesAt(s.tlb, page, k)
    ensures var f := s.framePtr;
            var t := TlbWithoutFrame(s.tlb, f)[s.tlbPtr := TlbEntry(page, f, true)];
            var pt' := PtWithoutFrame(s.pt, f)[page := PtEntry(f, true)];
            Inv(MmuState(t, pt', s.mem[f := PageBytes(backing, page)], (f + 1) % NUM_FRAMES,
                         (s.tlbPtr + 1) % TLB_SIZE, s.pageFaults + 1, s.tlbHits, s.totalReferences + 1),
                backing)
  {
    var f := s.framePtr;
    FaultKeepsPageTable(s, backing, page);
    TlbRefreshKeepsAgreement(s, PtWithoutFrame(s.pt, f)[page := PtEntry(f, true)], page, f);
    CursorAdvance(s.totalReferences - s.tlbHits, TLB_SIZE);
    CursorAdvance(s.pageFaults, NUM_FRAMES);
  }

  /** TLB miss, page fault (lines 288-309). */
  lemma FaultPreservesInv(s: MmuState, backing: seq<Int8>, addr: Uint32)
    requires Inv(s, backing)
    requires LookupTlb(s.tlb, PageNumber(addr)) == -1
    requires !s.pt[PageNumber(addr)].valid
    ensures Inv(Step(s, addr, backing).state, backing)
  {
    StepOnFault(s, backing, addr);
    LookupTlbMeaning(s, backing, PageNumber(addr));
    FaultStateInv(s, backing, PageNumber(addr));
  }

  /** Consistency after every address: the TLB agrees with the page table,
      holds each page at most once, each frame has at most one valid owner
      and holds that owner's bytes, and the cursors follow the counters. */
  lemma StepPreservesInv(s: MmuState, backing: seq<Int8>, addr: Uint32)
    requires Inv(s, backing)
    ensures Inv(Step(s, addr, backing).state, backing)
  {
    var page := PageNumber(addr);
    if LookupTlb(s.tlb, page) != -1 {
      TlbHitPreservesInv(s, backing, addr);
    } else if s.pt[page].valid {
      PtHitPreservesInv(s, backing, addr);
    } else {
      FaultPreservesInv(s, backing, addr);
    }
  }

  /** The initial state (all entries invalid, memory -1) satisfies the
      invariant. */
  lemma InitialSatisfiesInv(s: MmuState, backing: seq<Int8>)
    requires Initial(s) && |backing| >= PT_SIZE * FRAME_SIZE
    ensures Inv(s, backing)
  {
  }

  // ---------------------------------------------------------------------
  // Accounting and FIFO cursors

  /** Every reference is counted once, as a TLB hit or as a miss; a hit
      changes nothing but the counters; a miss advances the TLB cursor, and
      it is a page fault exactly when the page-table entry was invalid. */
  lemma StepAccounting(s: MmuState, backing: seq<Int8>, addr: Uint32)
    requires Inv(s, backing)
    ensures var r := Step(s, addr, backing).state;
            var page := PageNumber(addr);
            var hit := exists k :: MatchesAt(s.tlb, page, k);
            && r.totalReferences == s.totalReferences + 1
            && r.tlbHits == s.tlbHits + (if hit then 1 else 0)
            && r.pageFaults == s.pageFaults + (if !hit && !s.pt[page].valid then 1 else 0)
            && (hit ==> r == s.(tlbHits := s.tlbHits + 1, totalReferences := s.totalReferences + 1))
            && (!hit ==> r.tlbPtr == (s.tlbPtr + 1) % TLB_SIZE)
  {
    LookupTlbMeaning(s, backing, PageNumber(addr));
  }

  /** FIFO frame replacement: the k-th page fault (counting from 0) loads
      the page into frame k % NUM_FRAMES and moves the frame cursor on;
      without a fault the frame cursor stays where it is. */
  lemma FaultLoadsCursorFrame(s: MmuState, backing: seq<Int8>, addr: Uint32)
    requires Inv(s, backing)
    ensures var r := Step(s, addr, backing).state;
            var page := PageNumber(addr);
            var victim := s.pageFaults % NUM_FRAMES;
            if r.pageFaults == s.pageFaults + 1 then
              && r.pt[page] == PtEntry(victim, true)
              && r.mem[victim] == PageBytes(backing, page)
              && r.framePtr == (s.pageFaults + 1) % NUM_FRAMES
            else
              r.pageFaults == s.pageFaults && r.framePtr == s.framePtr && r.mem == s.mem
  {
    StepAccounting(s, backing, addr);
    CursorAdvance(s.pageFaults, NUM_FRAMES);
  }

  /** Frame recycling: on a fault every other page that owned the victim
      frame loses its mapping, every other mapping is kept, and afterwards
      the only valid TLB entry that names the victim frame is the new page's. */
  lemma FaultRecyclesFrame(s: MmuState, backing: seq<Int8>, addr: Uint32)
    requires Inv(s, backing)
    requires !(exists k :: MatchesAt(s.tlb, PageNumber(addr), k))
    requires !s.pt[PageNumber(addr)].valid
    ensures var r := Step(s, addr, backing).state;
            var page := PageNumber(addr);
            var victim := s.framePtr;
            && (forall p | 0 <= p < PT_SIZE && p != page && s.pt[p].frameNum == victim :: !r.pt[p].valid)
            && (forall p | 0 <= p < PT_SIZE && p != page && s.pt[p].frameNum != victim :: r.pt[p] == s.pt[p])
            && (forall i | 0 <= i < TLB_SIZE && r.tlb[i].valid && r.tlb[i].frameNum == victim ::
                  r.tlb[i].pageNum == page)
  {
    LookupTlbMeaning(s, backing, PageNumber(addr));
  }

  // ---------------------------------------------------------------------
  // What the translation produces

  /** After each address its page is mapped, the TLB holds that mapping, the
      physical address is frame * 256 + offset (below 32768), decoding it
      gives back frame and offset, and the byte read is the backing-store
      byte at page * 256 + offset. */
  lemma {:induction false} StepReadsBackingStore(s: MmuState, backing: seq<Int8>, addr: Uint32)
    requires Inv(s, backing)
    ensures var res := Step(s, addr, backing);
            var r := res.state;
            var page := PageNumber(addr);
            var offset := Offset(addr);
            && r.pt[page].valid
            && (exists k :: MatchesAt(r.tlb, page, k) && r.tlb[k].frameNum == r.pt[page].frameNum)
            && res.out.physical == r.pt[page].frameNum * FRAME_SIZE + offset < 32768
            && PageNumber(res.out.physical) == r.pt[page].frameNum
            && Offset(res.out.physical) == offset
            && res.out.value == backing[page * FRAME_SIZE + offset]
  {
    var res := Step(s, addr, backing);
    var r := res.state;
    var page := PageNumber(addr);
    var offset := Offset(addr);
    StepPreservesInv(s, backing, addr);
    LookupTlbMeaning(s, backing, page);
    var frame := r.pt[page].frameNum;
    if exists k :: MatchesAt(s.tlb, page, k) {
      var k :| MatchesAt(s.tlb, page, k);
      assert MatchesAt(r.tlb, page, k);
    } else {
      assert MatchesAt(r.tlb, page, s.tlbPtr);
    }
    EncodeIsFrameTimesPageSize(frame, offset);
    DecodeEncode(frame, offset);
    assert res.out.value == r.mem[frame][offset];
  }

  /** The byte each address produces, on its own. */
  lemma StepValue(s: MmuState, backing: seq<Int8>, addr: Uint32)
    requires Inv(s, backing)
    ensures Step(s, addr, backing).out.value == backing[PageNumber(addr) * FRAME_SIZE + Offset(addr)]
  {
    StepReadsBackingStore(s, backing, addr);
  }

  /** Translating the same page twice in a row: the second translation is a
      TLB hit, causes no fault, uses the same frame and leaves the tables
      as they were; with the same offset it produces the same result. */
  lemma {:induction false} RepeatIsTlbHit(s: MmuState, backing: seq<Int8>, a: Uint32, b: Uint32)
    requires Inv(s, backing)
    requires PageNumber(a) == PageNumber(b)
    ensures Inv(Step(s, a, backing).state, backing)
    ensures var r1 := Step(s, a, backing);
            var r2 := Step(r1.state, b, backing);
            var page := PageNumber(a);
            && LookupTlb(r1.state.tlb, page) == r1.state.pt[page].frameNum
            && r2.state.tlbHits == r1.state.tlbHits + 1
            && r2.state.pageFaults == r1.state.pageFaults
            && r2.state.tlb == r1.state.tlb && r2.state.pt == r1.state.pt && r2.state.mem == r1.state.mem
            && r2.out.physical == r1.state.pt[page].frameNum * FRAME_SIZE + Offset(b)
            && (Offset(a) == Offset(b) ==> r2.out == r1.out)
  {
    var r1 := Step(s, a, backing);
    StepPreservesInv(s, backing, a);
    StepReadsBackingStore(s, backing, a);
    var page := PageNumber(a);
    LookupTlbMeaning(r1.state, backing, page);
    StepAccounting(r1.state, backing, b);
    StepReadsBackingStore(r1.state, backing, b);
  }

  // ---------------------------------------------------------------------
  // A whole run: the model of the loop at line 274 over a stream of
  // addresses.  Run is defined here rather than beside Step because its
  // recursive call needs StepPreservesInv.

  datatype RunResult = RunResult(state: MmuState, outputs: seq<Translation>)

  /** Translate the addresses one after the other, from state s. */
  function Run(s: MmuState, addrs: seq<Uint32>, backing: seq<Int8>): RunResult
    requires Inv(s, backing)
    decreases |addrs|
  {
    if addrs == [] then RunResult(s, [])
    else
      var first := Step(s, addrs[0], backing);
      StepPreservesInv(s, backing, addrs[0]);
      var rest := Run(first.state, addrs[1..], backing);
      RunResult(rest.state, [first.out] + rest.outputs)
  }

  /** Unfolding lemma: a run is its first Step followed by the run of the
      rest. */
  lemma RunCons(s: MmuState, addrs: seq<Uint32>, backing: seq<Int8>)
    requires Inv(s, backing) && addrs != []
    ensures Inv(Step(s, addrs[0], backing).state, backing)
    ensures var first := Step(s, addrs[0], backing);
            && Run(s, addrs, backing).state == Run(first.state, addrs[1..], backing).state
            && Run(s, addrs, backing).outputs == [first.out] + Run(first.state, addrs[1..], backing).outputs
  {
    StepPreservesInv(s, backing, addrs[0]);
  }

  /** The consistency invariant holds after every prefix of the stream. */
  lemma {:induction false} RunPreservesInv(s: MmuState, addrs: seq<Uint32>, backing: seq<Int8>)
    requires Inv(s, backing)
    ensures Inv(Run(s, addrs, backing).state, backing)
    decreases |addrs|
  {
    if addrs != [] {
      StepPreservesInv(s, backing, addrs[0]);
      RunPreservesInv(Step(s, addrs[0], backing).state, addrs[1..], backing);
    }
  }

  /** One reference is counted per address and the counters never
      decrease. */
  lemma {:induction false} RunCounters(s: MmuState, addrs: seq<Uint32>, backing: seq<Int8>)
    requires Inv(s, backing)
    ensures var r := Run(s, addrs, backing).state;
            && r.totalReferences == s.totalReferences + |addrs|
            && s.tlbHits <= r.tlbHits
            && s.pageFaults <= r.pageFaults
            && r.tlbHits + r.pageFaults <= r.totalReferences
    decreases |addrs|
  {
    RunPreservesInv(s, addrs, backing);
    if addrs != [] {
      StepPreservesInv(s, backing, addrs[0]);
      StepAccounting(s, backing, addrs[0]);
      RunCounters(Step(s, addrs[0], backing).state, addrs[1..], backing);
    }
  }

  /** Each output's byte is the backing-store byte of the address at the
      same position. */
  ghost predicate ReadsBackingStore(outs: seq<Translation>, addrs: seq<Uint32>, backing: seq<Int8>)
    requires |backing| >= PT_SIZE * FRAME_SIZE
  {
    && |outs| == |addrs|
    && forall i | 0 <= i < |addrs| ::
         outs[i].value == backing[PageNumber(addrs[i]) * FRAME_SIZE + Offset(addrs[i])]
  }

  lemma ReadsBackingStoreCons(o: Translation, outs: seq<Translation>, addrs: seq<Uint32>, backing: seq<Int8>)
    requires |backing| >= PT_SIZE * FRAME_SIZE && addrs != []
    requires o.value == backing[PageNumber(addrs[0]) * FRAME_SIZE + Offset(addrs[0])]
    requires ReadsBackingStore(outs, addrs[1..], backing)
    ensures ReadsBackingStore([o] + outs, addrs, backing)
  {
    var all := [o] + outs;
    forall i | 0 <= i < |addrs|
      ensures all[i].value == backing[PageNumber(addrs[i]) * FRAME_SIZE + Offset(addrs[i])]
    {
      if i > 0 {
        assert addrs[i] == addrs[1..][i - 1];
        assert all[i] == outs[i - 1];
      }
    }
  }

  /** One output per address, each the backing-store byte at that address's
      page and offset. */
  lemma {:induction false} RunReadsBackingStore(s: MmuState, addrs: seq<Uint32>, backing: seq<Int8>)
    requires Inv(s, backing)
    ensures ReadsBackingStore(Run(s, addrs, backing).outputs, addrs, backing)
    decreases |addrs|
  {
    if addrs != [] {
      RunCons(s, addrs, backing);
      var first := Step(s, addrs[0], backing);
      StepValue(s, backing, addrs[0]);
      RunReadsBackingStore(first.state, addrs[1..], backing);
      ReadsBackingStoreCons(first.out, Run(first.state, addrs[1..], backing).outputs, addrs, backing);
    }
  }
}
