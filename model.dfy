/** The state of the simulated memory manager as a value, and one pass of the
    translation loop of main_pr.c (lines 283-322) as a function of it.

    The imperative simulator in simulator.dfy is proved to move between these
    states; the properties of the translation are proved about `Step` in
    properties.dfy. */
module PagingModel {
  import opened AddressCodec

  /** Table sizes (main_pr.c lines 14-17). */
  const TLB_SIZE: nat := 16
  const PT_SIZE: nat := 256
  const FRAME_SIZE: nat := 256
  const NUM_FRAMES: nat := 128

  /** A C `int8_t`: the type of physical memory and of backing-store bytes. */
  type Int8 = x: int | -128 <= x < 128

  /** C's `%` for a positive divisor: the remainder takes the sign of the
      dividend. */
  function CRem(a: int, d: int): (r: int)
    requires d > 0
    ensures a >= 0 ==> r == a % d
    ensures a < 0 ==> r <= 0 && (a - r) % d == 0
    ensures -d < r < d
  {
    if a >= 0 then a % d
    else
      var q := (-a) / d;
      assert a + (-a) % d == -q * d;
      DivModUnique(a + (-a) % d, d, -q, 0);
      -((-a) % d)
  }

  /** Advancing a cursor that counts modulo n. */
  lemma CursorAdvance(x: nat, n: nat)
    requires n > 0
    ensures (x % n + 1) % n == (x + 1) % n
  {
    var q, r := x / n, x % n;
    assert x == q * n + r;
    if r + 1 < n {
      DivModUnique(x + 1, n, q, r + 1);
      DivModUnique(r + 1, n, 0, r + 1);
    } else {
      DivModUnique(x + 1, n, q + 1, 0);
      DivModUnique(r + 1, n, 1, 0);
    }
  }

  /** TLB_ENTRY (lines 26-31); `valid` is the C valid bit. */
  datatype TlbEntry = TlbEntry(pageNum: int, frameNum: int, valid: bool)

  /** PT_ENTRY (lines 34-38). */
  datatype PtEntry = PtEntry(frameNum: int, valid: bool)

  /** Everything one pass of the translation loop reads or writes: the
      global tables, physical memory (one row per frame), both FIFO cursors
      and the three counters of `main`. */
  datatype MmuState = MmuState(
    tlb: seq<TlbEntry>,
    pt: seq<PtEntry>,
    mem: seq<seq<Int8>>,
    framePtr: int,
    tlbPtr: int,
    pageFaults: nat,
    tlbHits: nat,
    totalReferences: nat)

  /** What one address produces: the physical address and the byte read. */
  datatype Translation = Translation(physical: nat, value: Int8)

  datatype StepResult = StepResult(state: MmuState, out: Translation)

  /** The 256 bytes at offset page * FRAME_SIZE of the backing store. */
  function PageBytes(backing: seq<Int8>, page: int): (bytes: seq<Int8>)
    requires 0 <= page < PT_SIZE && |backing| >= PT_SIZE * FRAME_SIZE
    ensures |bytes| == FRAME_SIZE
    ensures forall j | 0 <= j < FRAME_SIZE :: bytes[j] == backing[page * FRAME_SIZE + j]
  {
    backing[page * FRAME_SIZE .. page * FRAME_SIZE + FRAME_SIZE]
  }

  // ---------------------------------------------------------------------
  // TLB search (search_tlb, lines 110-124)

  /** Slot i holds a valid translation for `page` (the test at line 116). */
  predicate MatchesAt(tlb: seq<TlbEntry>, page: int, i: int)
  {
    0 <= i < |tlb| && tlb[i].pageNum == page && tlb[i].valid
  }

  /** Slot i is the first slot that matches `page`. */
  ghost predicate FirstMatch(tlb: seq<TlbEntry>, page: int, i: int)
  {
    MatchesAt(tlb, page, i) && forall j | 0 <= j < i :: !MatchesAt(tlb, page, j)
  }

  /** The scan of slots i, i+1, ... that stops at the first match. */
  function ScanTlbFrom(tlb: seq<TlbEntry>, page: int, i: nat): (frame: int)
    requires i <= |tlb|
    ensures (exists k | i <= k < |tlb| ::
               MatchesAt(tlb, page, k) && frame == tlb[k].frameNum &&
               forall j | i <= j < k :: !MatchesAt(tlb, page, j))
         || (frame == -1 && forall k | i <= k < |tlb| :: !MatchesAt(tlb, page, k))
    decreases |tlb| - i
  {
    if i == |tlb| then -1
    else if tlb[i].pageNum == page && tlb[i].valid then tlb[i].frameNum
    else ScanTlbFrom(tlb, page, i + 1)
  }

  /** search_tlb: the frame of the first valid slot holding `page`, or -1
      when no valid slot holds it. */
  function LookupTlb(tlb: seq<TlbEntry>, page: int): (frame: int)
    ensures (exists k :: FirstMatch(tlb, page, k) && frame == tlb[k].frameNum)
         || (frame == -1 && forall k | 0 <= k < |tlb| :: !MatchesAt(tlb, page, k))
  {
    ScanTlbFrom(tlb, page, 0)
  }

  // ---------------------------------------------------------------------
  // Page table (search_pt, update_pt, lines 77-92)

  /** search_pt: the entry's frame if it is valid, else -1. */
  function LookupPt(pt: seq<PtEntry>, page: int): int
    requires 0 <= page < |pt|
  {
    if pt[page].valid then pt[page].frameNum else -1
  }

  /** The loop at lines 296-300: every entry whose (possibly stale) frame
      number is `frame` loses its valid bit, valid or not. */
  function PtWithoutFrame(pt: seq<PtEntry>, frame: int): seq<PtEntry>
  {
    seq(|pt|, i requires 0 <= i < |pt| =>
      if pt[i].frameNum == frame then pt[i].(valid := false) else pt[i])
  }

  /** The loop at lines 304-308, the same rule over the TLB. */
  function TlbWithoutFrame(tlb: seq<TlbEntry>, frame: int): seq<TlbEntry>
  {
    seq(|tlb|, i requires 0 <= i < |tlb| =>
      if tlb[i].frameNum == frame then tlb[i].(valid := false) else tlb[i])
  }

  // ---------------------------------------------------------------------
  // The invariant that holds between any two addresses

  /** Table and memory dimensions, cursors in range. */
  ghost predicate Shape(s: MmuState)
  {
    && |s.tlb| == TLB_SIZE
    && |s.pt| == PT_SIZE
    && |s.mem| == NUM_FRAMES
    && (forall f | 0 <= f < |s.mem| :: |s.mem[f]| == FRAME_SIZE)
    && 0 <= s.framePtr < NUM_FRAMES
    && 0 <= s.tlbPtr < TLB_SIZE
  }

  /** Every valid page-table entry names a real frame. */
  ghost predicate PtFramesInRange(s: MmuState)
    requires Shape(s)
  {
    forall p | 0 <= p < PT_SIZE && s.pt[p].valid :: 0 <= s.pt[p].frameNum < NUM_FRAMES
  }

  /** Every valid TLB entry (p, f) agrees with a valid page-table entry p -> f. */
  ghost predicate TlbAgreesWithPt(s: MmuState)
    requires Shape(s)
  {
    forall i | 0 <= i < TLB_SIZE && s.tlb[i].valid ::
      0 <= s.tlb[i].pageNum < PT_SIZE &&
      s.pt[s.tlb[i].pageNum].valid &&
      s.pt[s.tlb[i].pageNum].frameNum == s.tlb[i].frameNum
  }

  /** At most one valid TLB entry per page. */
  ghost predicate TlbPagesUnique(s: MmuState)
    requires Shape(s)
  {
    forall i, j | 0 <= i < j < TLB_SIZE && s.tlb[i].valid && s.tlb[j].valid ::
      s.tlb[i].pageNum != s.tlb[j].pageNum
  }

  /** No two valid page-table entries share a frame. */
  ghost predicate FrameOwnersUnique(s: MmuState)
    requires Shape(s)
  {
    forall p, q | 0 <= p < q < PT_SIZE && s.pt[p].valid && s.pt[q].valid ::
      s.pt[p].frameNum != s.pt[q].frameNum
  }

  /** The frame of every valid page-table entry holds exactly that page's
      bytes from the backing store. */
  ghost predicate FramesHoldPages(s: MmuState, backing: seq<Int8>)
    requires Shape(s) && PtFramesInRange(s) && |backing| >= PT_SIZE * FRAME_SIZE
  {
    forall p | 0 <= p < PT_SIZE && s.pt[p].valid :: s.mem[s.pt[p].frameNum] == PageBytes(backing, p)
  }

  /** Counters and FIFO cursors: every reference is a TLB hit or a TLB miss,
      every fault is a miss, the frame cursor has advanced once per fault and
      the TLB cursor once per miss. */
  ghost predicate CountersAgree(s: MmuState)
  {
    && s.tlbHits + s.pageFaults <= s.totalReferences
    && s.framePtr == s.pageFaults % NUM_FRAMES
    && s.tlbPtr == (s.totalReferences - s.tlbHits) % TLB_SIZE
  }

  ghost predicate Inv(s: MmuState, backing: seq<Int8>)
  {
    && |backing| >= PT_SIZE * FRAME_SIZE
    && Shape(s)
    && PtFramesInRange(s)
    && TlbAgreesWithPt(s)
    && TlbPagesUnique(s)
    && FrameOwnersUnique(s)
    && FramesHoldPages(s, backing)
    && CountersAgree(s)
  }

  /** The state right after init_tlb, init_pt and init_mem (lines 229-231):
      nothing valid, every byte -1, cursors and counters zero.  The page and
      frame numbers of the entries are whatever malloc left there. */
  ghost predicate Initial(s: MmuState)
  {
    && |s.tlb| == TLB_SIZE
    && |s.pt| == PT_SIZE
    && |s.mem| == NUM_FRAMES
    && (forall i | 0 <= i < TLB_SIZE :: !s.tlb[i].valid)
    && (forall p | 0 <= p < PT_SIZE :: !s.pt[p].valid)
    && (forall f | 0 <= f < NUM_FRAMES :: s.mem[f] == seq(FRAME_SIZE, _ => -1))
    && s.framePtr == 0 && s.tlbPtr == 0
    && s.pageFaults == 0 && s.tlbHits == 0 && s.totalReferences == 0
  }

  // ---------------------------------------------------------------------
  // One pass of the loop body (lines 280-322)

  /** The frame a TLB lookup that did not return -1 reports is a real frame. */
  lemma TlbHitFrameInRange(s: MmuState, backing: seq<Int8>, page: int)
    requires Inv(s, backing)
    requires LookupTlb(s.tlb, page) != -1
    ensures 0 <= LookupTlb(s.tlb, page) < NUM_FRAMES
  {
    var k :| FirstMatch(s.tlb, page, k) && LookupTlb(s.tlb, page) == s.tlb[k].frameNum;
  }

  /** The frame the loop body settles on for `page` (the variable
      `frame_num` at line 317): the TLB's frame on a hit, else the page
      table's, else the frame under the frame cursor, which the fault
      fills. */
  function ResolvedFrame(s: MmuState, backing: seq<Int8>, page: int): (frame: int)
    requires Inv(s, backing) && 0 <= page < PT_SIZE
    ensures 0 <= frame < NUM_FRAMES
  {
    var tlbFrame := LookupTlb(s.tlb, page);
    if tlbFrame != -1 then
      TlbHitFrameInRange(s, backing, page);
      tlbFrame
    else if LookupPt(s.pt, page) != -1 then LookupPt(s.pt, page)
    else s.framePtr
  }

  /** Decode the address; on a TLB hit count it; on a miss consult the page
      table, and on a page fault load the page into the frame under the
      frame cursor, invalidate the page-table entries naming that frame and
      install the page; on every miss invalidate the TLB entries naming the
      frame and install the page in the slot under the TLB cursor.  Then
      count the reference and read the byte. */
  function Step(s: MmuState, addr: Uint32, backing: seq<Int8>): StepResult
    requires Inv(s, backing)
  {
    var page := PageNumber(addr);
    var offset := Offset(addr);
    var tlbFrame := LookupTlb(s.tlb, page);
    if tlbFrame != -1 then
      TlbHitFrameInRange(s, backing, page);
      var s' := s.(tlbHits := s.tlbHits + 1, totalReferences := s.totalReferences + 1);
      StepResult(s', Translation(FrameAddress(tlbFrame, offset), s'.mem[tlbFrame][offset]))
    else
      var ptFrame := LookupPt(s.pt, page);
      var fault := ptFrame == -1;
      var frame := if fault then s.framePtr else ptFrame;
      var pt' := if fault then PtWithoutFrame(s.pt, frame)[page := PtEntry(frame, true)] else s.pt;
      var mem' := if fault then s.mem[frame := PageBytes(backing, page)] else s.mem;
      var s' := MmuState(
        TlbWithoutFrame(s.tlb, frame)[s.tlbPtr := TlbEntry(page, frame, true)],
        pt',
        mem',
        if fault then (frame + 1) % NUM_FRAMES else s.framePtr,
        (s.tlbPtr + 1) % TLB_SIZE,
        if fault then s.pageFaults + 1 else s.pageFaults,
        s.tlbHits,
        s.totalReferences + 1);
      StepResult(s', Translation(FrameAddress(frame, offset), mem'[frame][offset]))
  }
}
