/** End to end: what a device reads through the chip's own buffer, in every interleaving, from
    the moment a mapping is written until it is unmapped. */
module DeviceView {
  import opened Arith
  import opened IommuArena
  import opened TlbCoherence
  import opened DmaMapping
  import opened ScatterSpec
  import opened ScatterGather

  /** Block b is live in every state from i to j. */
  ghost predicate LiveThrough(run: seq<System>, i: nat, j: nat, b: Block)
    requires j < |run|
  {
    forall t | i <= t <= j :: b in run[t].live
  }

  // --- Written entries stay --------------------------------------------------------

  /** As long as its block stays live, a written entry does not change. */
  lemma WrittenEntryKept(s: System, s': System, b: Block, k: nat)
    requires Inv(s) && Next(s, s') && b in s.live && b in s'.live && Holds(b, k)
    ensures k < |s.arena.ptes| == |s'.arena.ptes| && s'.base == s.base
    ensures PteValid(s.arena.ptes[k]) ==> s'.arena.ptes[k] == s.arena.ptes[k]
  {
    hide Inv, AllocStep, WriteStep, UnmapStep, UnmapListStep, PteValid, LoadStep, EvictStep, SafeEmptyStep,
      ResetStep, NothingStale;
    if r, p :| AllocStep(s, s', r, p) {
      AllocKeepsEntry(s, s', r, p, b, k);
    } else if m, paddr :| WriteStep(s, s', m, paddr) {
      WriteKeepsEntry(s, s', m, paddr, b, k);
    } else if seg :| UnmapStep(s, s', seg) {
      UnmapKeepsEntry(s, s', seg, b, k);
    } else if segs :| UnmapListStep(s, s', segs) {
      UnmapListKeepsEntry(s, s', segs, b, k);
    } else if r, p :| SafeEmptyStep(s, s', r, p) {
      EmptyKeepsEntry(s, s', r, p, b, k);
    } else {
      ChipKeepsEntry(s, s', b, k);
    }
  }

  lemma AllocKeepsEntry(s: System, s': System, r: Request, p: int, b: Block, k: nat)
    requires Inv(s) && AllocStep(s, s', r, p) && b in s.live && Holds(b, k)
    ensures k < |s.arena.ptes| == |s'.arena.ptes| && s'.base == s.base
    ensures s'.arena.ptes[k] == s.arena.ptes[k]
  {
    hide AlignUp, SpansBoundary;
    assert Owned(s.live, k);
    if p >= 0 {
      assert Candidate(s.arena.ptes, r, p);
      assert p <= k < p + r.n ==> IsFree(s.arena.ptes, k);
    }
  }

  lemma WriteKeepsEntry(s: System, s': System, m: nat, paddr: nat, b: Block, k: nat)
    requires Inv(s) && WriteStep(s, s', m, paddr) && b in s.live && Holds(b, k)
    ensures k < |s.arena.ptes| == |s'.arena.ptes| && s'.base == s.base
    ensures PteValid(s.arena.ptes[k]) ==> s'.arena.ptes[k] == s.arena.ptes[k]
  {}

  lemma UnmapKeepsEntry(s: System, s': System, seg: Segment, b: Block, k: nat)
    requires Inv(s) && UnmapStep(s, s', seg) && b in s.live && b in s'.live && Holds(b, k)
    ensures k < |s.arena.ptes| == |s'.arena.ptes| && s'.base == s.base
    ensures s'.arena.ptes[k] == s.arena.ptes[k]
  {
    var c := BlockOf(s.base, seg);
    assert b.ofs + b.n <= c.ofs || c.ofs + c.n <= b.ofs;
  }

  lemma UnmapListKeepsEntry(s: System, s': System, segs: seq<Segment>, b: Block, k: nat)
    requires Inv(s) && UnmapListStep(s, s', segs) && b in s.live && b in s'.live && Holds(b, k)
    ensures k < |s.arena.ptes| == |s'.arena.ptes| && s'.base == s.base
    ensures s'.arena.ptes[k] == s.arena.ptes[k]
  {
    hide FreeAll;
    FreeAllZeroes(s.arena.ptes, s.base, segs, k);
    assert !Owned(BlocksOf(s.base, segs), k);
  }

  lemma EmptyKeepsEntry(s: System, s': System, r: Request, p: int, b: Block, k: nat)
    requires Inv(s) && SafeEmptyStep(s, s', r, p) && b in s.live && Holds(b, k)
    ensures k < |s.arena.ptes| == |s'.arena.ptes| && s'.base == s.base
    ensures s'.arena.ptes[k] == s.arena.ptes[k]
  {
    hide AlignUp;
    EmptyStepMoves(s, s', r, p);
  }

  lemma ChipKeepsEntry(s: System, s': System, b: Block, k: nat)
    requires Inv(s) && b in s.live && Holds(b, k)
    requires (exists m :: LoadStep(s, s', m)) || (exists gone :: EvictStep(s, s', gone)) || ResetStep(s, s')
    ensures k < |s.arena.ptes| == |s'.arena.ptes| && s'.base == s.base
    ensures s'.arena.ptes[k] == s.arena.ptes[k]
  {}

  lemma {:induction false} EntryKeptInRun(run: seq<System>, i: nat, j: nat, b: Block, k: nat)
    requires Run(run) && i <= j < |run| && LiveThrough(run, i, j, b) && Holds(b, k)
    ensures k < |run[i].arena.ptes| == |run[j].arena.ptes| && run[j].base == run[i].base
    ensures PteValid(run[i].arena.ptes[k]) ==> run[j].arena.ptes[k] == run[i].arena.ptes[k]
    decreases j - i
  {
    hide Inv, Next, PteValid;
    RunKeepsInv(run, j);
    if i == j {
      assert Owned(run[i].live, k);
      TableMatchesMappings(run, i);
    } else {
      EntryKeptInRun(run, i, j - 1, b, k);
      RunKeepsInv(run, j - 1);
      WrittenEntryKept(run[j - 1], run[j], b, k);
    }
  }

  // --- Reading through the buffer ------------------------------------------------------

  predicate InTable(s: System, bus: nat) {
    s.base <= bus < s.base + |s.arena.ptes| * PAGE_SIZE
  }

  function PageOf(s: System, bus: nat): nat
    requires s.base <= bus
  {
    (bus - s.base) / PAGE_SIZE
  }

  /** The physical address the chip forms for a bus address of the window: by its buffered
      entry if it has one, otherwise by the table's. */
  function ChipLookup(s: System, bus: nat): Option<nat>
    requires s.base <= bus
  {
    var pte := EntryUsed(s.arena, PageOf(s, bus));
    if pte.Some? then Some(PtePage(pte.value) + bus % PAGE_SIZE) else None
  }

  /** What the table shows of a live mapping in one state, the chip forms in that state and in
      every later one until the unmap. */
  lemma ChipReadsLater(run: seq<System>, i: nat, j: nat, b: Block, bus: nat)
    requires Run(run) && i <= j < |run| && LiveThrough(run, i, j, b)
    requires InTable(run[i], bus) && Holds(b, PageOf(run[i], bus))
    ensures run[j].base == run[i].base
    ensures var seen := Lookup(Window(run[i].base, run[i].arena.ptes), bus);
            seen.Some? ==> ChipLookup(run[j], bus) == seen
  {
    hide Next, Inv, EntryUsed;
    var k := PageOf(run[i], bus);
    EntryKeptInRun(run, i, j, b, k);
    assert b in run[j].live && Owned(run[j].live, k);
    LiveMappingNeverStale(run, j, k);
  }

  /** One mapped buffer: from the state in which all its entries are written until its unmap,
      in every interleaving, the device reads the buffer byte for byte. */
  lemma DeviceReadsBuffer(run: seq<System>, i: nat, j: nat, b: Block, paddr: nat, size: nat, x: nat)
    requires Run(run) && i <= j < |run| && LiveThrough(run, i, j, b)
    requires b.n == NumPages(paddr, size) && x < size && b.ofs + b.n <= |run[i].arena.ptes|
    requires forall k | b.ofs <= k < b.ofs + b.n :: run[i].arena.ptes[k] == MkPte(Frame(paddr, k - b.ofs))
    ensures var bus := run[i].base + b.ofs * PAGE_SIZE + paddr % PAGE_SIZE + x;
            run[j].base == run[i].base && ChipLookup(run[j], bus) == Some(paddr + x)
  {
    hide Next, NumPages, MkPte, Frame, ChipLookup;
    var w := Window(run[i].base, run[i].arena.ptes);
    var bus := w.base + b.ofs * PAGE_SIZE + paddr % PAGE_SIZE + x;
    AlignedBase(run, i);
    FilledPagesTranslate(w, b.ofs, paddr, size, x);
    PageHeld(w.base / PAGE_SIZE, b.ofs, paddr, x, size);
    ChipReadsLater(run, i, j, b, bus);
  }

  lemma AlignedBase(run: seq<System>, i: nat)
    requires Run(run) && i < |run|
    ensures run[i].base % PAGE_SIZE == 0 && run[i].base + |run[i].arena.ptes| * PAGE_SIZE <= 0x1_0000_0000
  {
    RunKeepsInv(run, i);
  }

  lemma PageHeld(q: nat, ofs: nat, paddr: nat, x: nat, size: nat)
    requires x < size
    ensures var k := (q * PAGE_SIZE + ofs * PAGE_SIZE + paddr % PAGE_SIZE + x - q * PAGE_SIZE) / PAGE_SIZE;
            ofs <= k < ofs + NumPages(paddr, size)
  {
    hide NumPages;
    PageOfByte(q, ofs, paddr % PAGE_SIZE, x, size);
    SameOffsetSamePages(paddr % PAGE_SIZE, paddr, size);
  }

  // --- A mapped list -----------------------------------------------------------------

  /** The whole bus through the chip: the arena's window by way of the buffer, everything else
      as the bridge is wired. */
  ghost function ChipTranslate(v: BusView, s: System, bus: nat): Option<nat> {
    if InTable(s, bus) then ChipLookup(s, bus) else Translate(v, bus)
  }

  ghost function ChipSeen(v: BusView, s: System, addr: nat, len: nat): (r: seq<Option<nat>>)
    ensures |r| == len && forall k | 0 <= k < len :: r[k] == ChipTranslate(v, s, addr + k)
  {
    seq(len, k requires 0 <= k < len => ChipTranslate(v, s, addr + k))
  }

  /** What the device reads through the first o entries of a mapped list, by way of the chip. */
  ghost function ChipBytes(v: BusView, s: System, m: seq<int>, d: seq<nat>, o: nat): (r: seq<Option<nat>>)
    requires o <= |m| == |d|
  {
    if o == 0 then [] else ChipBytes(v, s, m, d, o - 1) + ChipSeen(v, s, BusAddress(m[o - 1]), d[o - 1])
  }

  /** v is the bus with the arena of s as the window that serves this mask. */
  ghost predicate ShowsArena(v: BusView, maxDma: nat, s: System) {
    Apart(v) && ServingWindow(v, maxDma) == Window(s.base, s.arena.ptes)
  }

  lemma SkippedNotInTable(v: BusView, maxDma: nat, s: System, bus: nat)
    requires ShowsArena(v, maxDma, s) && Skipped(v.plat, bus)
    ensures !InTable(s, bus)
  {}

  lemma SkippedByWiring(v: BusView, v': BusView, bus: nat)
    requires v.plat == v'.plat && Skipped(v.plat, bus)
    ensures Translate(v, bus) == Translate(v', bus)
  {}

  /** The bus range of a segment lies in the pages of its block. */
  lemma SegmentInBlock(base: nat, g: Segment, x: nat)
    requires base % PAGE_SIZE == 0 && base <= g.addr && x < g.len
    ensures Holds(BlockOf(base, g), (g.addr + x - base) / PAGE_SIZE)
  {
    SegmentPages(base / PAGE_SIZE, g.addr, g.len, x);
  }

  lemma SegmentPages(b: nat, addr: nat, len: nat, x: nat)
    requires b * PAGE_SIZE <= addr && x < len
    ensures var ofs := (addr - b * PAGE_SIZE) / PAGE_SIZE;
            ofs <= (addr + x - b * PAGE_SIZE) / PAGE_SIZE < ofs + NumPages(addr, len)
  {}

  /** One byte of one entry of a mapped list. */
  lemma ListByteLater(run: seq<System>, i: nat, j: nat, v: BusView, v': BusView, maxDma: nat,
                      addr: nat, len: nat, x: nat)
    requires Run(run) && i <= j < |run| && ShowsArena(v, maxDma, run[i]) && ShowsArena(v', maxDma, run[j])
    requires v.plat == v'.plat && x < len && SkippedThroughout(v.plat, addr, len)
    requires !Skipped(v.plat, addr) ==>
               run[i].base <= addr && BlockInRun(run, i, j, Segment(addr, len))
    requires Translate(v, addr + x).Some?
    ensures ChipTranslate(v', run[j], addr + x) == Translate(v, addr + x)
  {
    hide Next, Inv, EntryUsed, ServingWindow, Apart, Translate, Skipped, ChipLookup;
    var bus := addr + x;
    if Skipped(v.plat, addr) {
      assert SkippedAt(v.plat, addr, x);
      SkippedNotInTable(v', maxDma, run[j], bus);
      SkippedByWiring(v, v', bus);
    } else {
      var b := BlockOf(run[i].base, Segment(addr, len));
      AlignedBase(run, i);
      SegmentInBlock(run[i].base, Segment(addr, len), x);
      EntryKeptInRun(run, i, j, b, PageOf(run[i], bus));
      PageBound(run[i].base, bus, |run[i].arena.ptes|);
      ChipReadsLater(run, i, j, b, bus);
      WindowTranslates(v, maxDma, bus);
    }
  }

  lemma PageBound(base: nat, bus: nat, n: nat)
    requires base <= bus && (bus - base) / PAGE_SIZE < n
    ensures bus < base + n * PAGE_SIZE
  {}

  ghost predicate BlockInRun(run: seq<System>, i: nat, j: nat, g: Segment)
    requires i <= j < |run|
  {
    run[i].base <= g.addr && LiveThrough(run, i, j, BlockOf(run[i].base, g))
  }

  /** The blocks of a mapped list are live from state i to state j. */
  ghost predicate ListLive(run: seq<System>, i: nat, j: nat, segs: seq<Segment>)
    requires i <= j < |run|
  {
    forall g | g in segs :: BlockInRun(run, i, j, g)
  }

  lemma {:induction false} ChipBytesLater(run: seq<System>, i: nat, j: nat, v: BusView, v': BusView, maxDma: nat,
                                          m: seq<int>, d: seq<nat>, o: nat)
    requires Run(run) && i <= j < |run| && ShowsArena(v, maxDma, run[i]) && ShowsArena(v', maxDma, run[j])
    requires v.plat == v'.plat && o <= |m| == |d| && forall k | 0 <= k < o :: EntryOk(v.plat, m, d, k)
    requires ListLive(run, i, j, SegsOf(v.plat, m, d, o)) && None !in DeviceBytes(v, m, d, o)
    ensures ChipBytes(v', run[j], m, d, o) == DeviceBytes(v, m, d, o)
  {
    hide Run, ShowsArena, SkippedThroughout, BlockInRun, Skipped, Translate, ChipTranslate;
    if o == 0 {
    } else {
      var addr, len := BusAddress(m[o - 1]), d[o - 1];
      var rest, segs := DeviceBytes(v, m, d, o - 1), SegsOf(v.plat, m, d, o);
      assert forall x | x in rest :: x in DeviceBytes(v, m, d, o);
      assert forall g | g in SegsOf(v.plat, m, d, o - 1) :: g in segs;
      ChipBytesLater(run, i, j, v, v', maxDma, m, d, o - 1);
      assert EntryOk(v.plat, m, d, o - 1);
      if !Skipped(v.plat, addr) {
        assert segs[|segs| - 1] == Segment(addr, len) && Segment(addr, len) in segs;
        LiveHasBase(run, i, j, Segment(addr, len));
      }
      forall x: nat | x < len
        ensures ChipSeen(v', run[j], addr, len)[x] == Seen(v, addr, len)[x]
      {
        assert Seen(v, addr, len)[x] == DeviceBytes(v, m, d, o)[|rest| + x];
        ListByteLater(run, i, j, v, v', maxDma, addr, len, x);
      }
      assert ChipSeen(v', run[j], addr, len) == Seen(v, addr, len);
    }
  }

  lemma LiveHasBase(run: seq<System>, i: nat, j: nat, g: Segment)
    requires i <= j < |run| && BlockInRun(run, i, j, g)
    ensures run[i].base <= g.addr
  {}

  /** A list mapped by pci_map_sg: from the state in which it is mapped until its unmap, in
      every interleaving of other drivers and of the chip, the device reads the buffers' bytes
      in order. */
  lemma DeviceReadsList(run: seq<System>, i: nat, j: nat, v: BusView, v': BusView, maxDma: nat, was: seq<nat>,
                        bufs: seq<Buf>, m: seq<int>, d: seq<nat>, ret: nat)
    requires Run(run) && i <= j < |run| && ShowsArena(v, maxDma, run[i]) && ShowsArena(v', maxDma, run[j])
    requires v.plat == v'.plat && ret <= |m| == |d| && Mapped(v, maxDma, was, bufs, m, d, ret, |bufs|)
    requires ListLive(run, i, j, SegsOf(v.plat, m, d, ret))
    ensures ChipBytes(v', run[j], m, d, ret) == Known(BufBytes(bufs, 0, |bufs|))
  {
    hide Run, ShowsArena, TableIs, BufBytes, ListLive, EntryOk;
    ChipBytesLater(run, i, j, v, v', maxDma, m, d, ret);
  }

  // --- Its unmap -----------------------------------------------------------------------

  /** Whatever ran in between, the table still has the shape that unmapping the list needs: it
      is some table without the list's entries, plus exactly those entries. */
  lemma ListStillMapped(run: seq<System>, i: nat, j: nat, was: seq<nat>, segs: seq<Segment>)
    requires Run(run) && i <= j < |run| && ListLive(run, i, j, segs)
    requires TableIs(run[i].base, was, run[i].arena.ptes, segs)
    ensures run[j].base == run[i].base
    ensures TableIs(run[j].base, FreeAll(run[j].arena.ptes, run[i].base, segs), run[j].arena.ptes, segs)
  {
    hide Run, FreeAll, PteValid, NumPages;
    var base, now := run[i].base, run[j].arena.ptes;
    var w := FreeAll(now, base, segs);
    WindowKept(run, i, j);
    forall k: nat | k < |now|
      ensures EntryIs(base, w, now, segs, k)
    {
      FreeAllZeroes(now, base, segs, k);
      assert EntryIs(base, was, run[i].arena.ptes, segs, k);
      if Owned(BlocksOf(base, segs), k) {
        var c :| c in BlocksOf(base, segs) && Holds(c, k);
        var g :| g in segs && c == BlockOf(base, g);
        assert BlockInRun(run, i, j, g);
        EntryKeptInRun(run, i, j, c, k);
      }
    }
  }

  /** The window keeps its place and its size. */
  lemma {:induction false} WindowKept(run: seq<System>, i: nat, j: nat)
    requires Run(run) && i <= j < |run|
    ensures run[j].base == run[i].base && |run[j].arena.ptes| == |run[i].arena.ptes|
    decreases j - i
  {
    if i == j {
    } else {
      WindowKept(run, i, j - 1);
      StepKeepsWindow(run[j - 1], run[j]);
    }
  }

  lemma StepKeepsWindow(s: System, s': System)
    requires Next(s, s')
    ensures s'.base == s.base && |s'.arena.ptes| == |s.arena.ptes|
  {}
}
