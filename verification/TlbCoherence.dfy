/** Lazy flushing of the translation buffer, over every run.

    Any number of drivers map and unmap; the chip may load any valid entry of the table
    into its buffer, and drop any cached one, between any two steps.  Allocation and
    unmapping happen under the arena lock and are one step each; the entries of a new
    mapping are written one by one outside the lock, so each write is a step. */
module TlbCoherence {
  import opened Arith
  import opened IommuArena

  /** A run of table entries held by one mapping. */
  datatype Block = Block(ofs: nat, n: nat)

  datatype System = System(arena: ArenaState, base: nat, live: set<Block>)

  ghost predicate Holds(b: Block, k: nat) {
    b.ofs <= k < b.ofs + b.n
  }

  ghost predicate Owned(live: set<Block>, k: nat) {
    exists b :: b in live && Holds(b, k)
  }

  function BlockOf(base: nat, seg: Segment): Block
    requires base <= seg.addr
  {
    Block(FirstPte(base, seg), PteCount(seg))
  }

  /** The blocks named by a list of segments. */
  function BlocksOf(base: nat, segs: seq<Segment>): set<Block>
    requires forall g | g in segs :: base <= g.addr
  {
    set g | g in segs :: BlockOf(base, g)
  }

  ghost predicate WindowOk(s: System) {
    s.base % PAGE_SIZE == 0 && s.base + |s.arena.ptes| * PAGE_SIZE <= 0x1_0000_0000
  }

  // --- Steps -------------------------------------------------------------------

  ghost predicate Init(s: System) {
    && (forall k | 0 <= k < |s.arena.ptes| :: s.arena.ptes[k] == 0)
    && s.arena.next == 0 && s.arena.tlb == map[] && s.live == {}
    && WindowOk(s)
  }

  /** iommu_arena_alloc, granted at p or refused with p == -1. */
  ghost predicate AllocStep(s: System, s': System, r: Request, p: int) {
    && r.align > 0 && r.boundary > 0 && r.n > 0
    && NextFit(s.arena.ptes, s.arena.next, r, p)
    && s' == System(Granted(s.arena, r, p, INVALID_PTE), s.base,
                    if p < 0 then s.live else s.live + {Block(p, r.n)})
  }

  /** iommu_arena_alloc of no entries, for a zero-length buffer at the start of a page: only
      next_entry moves. */
  ghost predicate EmptyStep(s: System, s': System, r: Request, p: int) {
    && r.align > 0 && r.boundary > 0 && r.n == 0
    && NextFit(s.arena.ptes, s.arena.next, r, p)
    && s' == s.(arena := Granted(s.arena, r, p, INVALID_PTE))
  }

  /** iommu_reserve of no entries with the mask -1, for an aperture of less than a page: the
      search answers 0, and next_entry goes back there. */
  ghost predicate ResetStep(s: System, s': System) {
    s' == s.(arena := s.arena.(next := 0))
  }

  /** One store of the mapping loop: entry k of a fresh block becomes valid. */
  ghost predicate WriteStep(s: System, s': System, k: nat, paddr: nat) {
    && k < |s.arena.ptes| && s.arena.ptes[k] == INVALID_PTE
    && s' == s.(arena := s.arena.(ptes := s.arena.ptes[k := MkPte(paddr)]))
  }

  /** pci_unmap_single of a live mapping. */
  ghost predicate UnmapStep(s: System, s': System, seg: Segment) {
    && s.base <= seg.addr && BlockOf(s.base, seg) in s.live
    && s' == System(UnmapOne(s.arena, s.base, seg), s.base, s.live - {BlockOf(s.base, seg)})
  }

  /** pci_unmap_sg of live mappings. */
  ghost predicate UnmapListStep(s: System, s': System, segs: seq<Segment>) {
    && (forall g | g in segs :: s.base <= g.addr && BlockOf(s.base, g) in s.live)
    && s' == System(UnmapAll(s.arena, s.base, segs), s.base,
                    s.live - BlocksOf(s.base, segs))
  }

  /** The chip caches a valid entry. */
  ghost predicate LoadStep(s: System, s': System, k: nat) {
    && k < |s.arena.ptes| && PteValid(s.arena.ptes[k])
    && s' == s.(arena := s.arena.(tlb := s.arena.tlb[k := s.arena.ptes[k]]))
  }

  /** The chip forgets some cached entries, on its own account, or because a flush aimed at
      another range covered more than it had to, or because an unmap of no pages flushed. */
  ghost predicate EvictStep(s: System, s': System, gone: set<nat>) {
    s' == s.(arena := s.arena.(tlb := s.arena.tlb - gone))
  }

  ghost predicate Next(s: System, s': System) {
    || (exists r, p :: AllocStep(s, s', r, p))
    || (exists k, paddr :: WriteStep(s, s', k, paddr))
    || (exists seg :: UnmapStep(s, s', seg))
    || (exists segs :: UnmapListStep(s, s', segs))
    || (exists k :: LoadStep(s, s', k))
    || (exists gone :: EvictStep(s, s', gone))
    || (exists r, p :: SafeEmptyStep(s, s', r, p))
    || (ResetStep(s, s') && NothingStale(s.arena))
  }

  /** A mapping of no pages that leaves next_entry off every live block.  (The others, and
      when they do harm, are the subject of a module of their own.) */
  ghost predicate SafeEmptyStep(s: System, s': System, r: Request, p: int) {
    EmptyStep(s, s', r, p) && NoStraddle(s'.arena.next, s.live)
  }

  /** Every cached entry is the table's. */
  ghost predicate NothingStale(s: ArenaState) {
    forall k | k in s.tlb :: k < |s.ptes| && s.tlb[k] == s.ptes[k]
  }

  ghost predicate Run(run: seq<System>) {
    && |run| > 0 && Init(run[0])
    && forall i | 0 <= i < |run| - 1 :: Next(run[i], run[i + 1])
  }

  // --- Invariant ---------------------------------------------------------------

  /** The table and the blocks agree: an entry is nonzero exactly when a block holds it,
      and then it is either not yet written or valid. */
  ghost predicate TableOk(ptes: seq<nat>, live: set<Block>) {
    && (forall b | b in live :: b.n > 0 && b.ofs + b.n <= |ptes|)
    && (forall k | 0 <= k < |ptes| :: ptes[k] == 0 <==> !Owned(live, k))
    && (forall k | 0 <= k < |ptes| :: ptes[k] == 0 || ptes[k] == INVALID_PTE || PteValid(ptes[k]))
  }

  ghost predicate Disjoint(live: set<Block>) {
    forall b, c | b in live && c in live && b != c :: b.ofs + b.n <= c.ofs || c.ofs + c.n <= b.ofs
  }

  /** No live block straddles next_entry. */
  ghost predicate NoStraddle(next: nat, live: set<Block>) {
    forall b | b in live :: b.ofs + b.n <= next || next <= b.ofs
  }

  /** A cached entry that disagrees with the table is for a freed entry below next. */
  ghost predicate StaleOnlyBehind(s: ArenaState) {
    forall k | k in s.tlb ::
      k < |s.ptes| && PteValid(s.tlb[k]) &&
      (s.tlb[k] == s.ptes[k] || (s.ptes[k] == 0 && k < s.next))
  }

  ghost predicate Inv(s: System) {
    && WindowOk(s)
    && TableOk(s.arena.ptes, s.live)
    && Disjoint(s.live)
    && NoStraddle(s.arena.next, s.live)
    && StaleOnlyBehind(s.arena)
  }

  // --- Preservation ------------------------------------------------------------

  lemma AllocKeepsInv(s: System, s': System, r: Request, p: int)
    requires Inv(s) && AllocStep(s, s', r, p)
    ensures Inv(s')
  {
    hide AlignUp, SpansBoundary, TableOk;
    if p >= 0 {
      var b := Block(p, r.n);
      assert Candidate(s.arena.ptes, r, p);
      FreeBlockUnowned(s.arena.ptes, s.live, b);
      GrantKeepsTable(s, s', b);
      forall k | k in s'.arena.tlb
        ensures !Holds(b, k)
      {
        assert Holds(b, k) ==> IsFree(s.arena.ptes, k);
      }
    }
  }

  /** Free entries belong to no block, so a block of them lies clear of every live one. */
  lemma FreeBlockUnowned(ptes: seq<nat>, live: set<Block>, b: Block)
    requires TableOk(ptes, live) && b.n > 0 && AllFree(ptes, b.ofs, b.n)
    ensures b.ofs + b.n <= |ptes|
    ensures forall k: nat | Holds(b, k) :: !Owned(live, k)
    ensures forall c | c in live :: c.ofs + c.n <= b.ofs || b.ofs + b.n <= c.ofs
  {
    assert IsFree(ptes, b.ofs + b.n - 1);
    forall k: nat | Holds(b, k)
      ensures !Owned(live, k)
    {
      assert IsFree(ptes, k);
    }
    forall c | c in live
      ensures c.ofs + c.n <= b.ofs || b.ofs + b.n <= c.ofs
    {
      var k := Max(c.ofs, b.ofs);
      assert !(Holds(b, k) && Holds(c, k));
    }
  }

  lemma GrantKeepsTable(s: System, s': System, b: Block)
    requires TableOk(s.arena.ptes, s.live) && b.n > 0 && b.ofs + b.n <= |s.arena.ptes|
    requires forall k: nat | Holds(b, k) :: !Owned(s.live, k)
    requires s'.arena.ptes == MarkRange(s.arena.ptes, b.ofs, b.n, INVALID_PTE)
    requires s'.live == s.live + {b}
    ensures TableOk(s'.arena.ptes, s'.live)
  {
    forall k: nat
      ensures Owned(s'.live, k) <==> Owned(s.live, k) || Holds(b, k)
    {
      if Holds(b, k) { assert b in s'.live; }
    }
  }

  lemma EmptyStepMoves(s: System, s': System, r: Request, p: int)
    requires EmptyStep(s, s', r, p)
    ensures s' == s.(arena := s.arena.(next := AlignUp(s.arena.next, r.align)))
  {
    hide AlignUp, SpansBoundary;
    var start := AlignUp(s.arena.next, r.align);
    NoPagesNoSpan(r, start);
    assert Candidate(s.arena.ptes, r, start);
    assert MarkRange(s.arena.ptes, start, 0, INVALID_PTE) == s.arena.ptes;
  }

  lemma SafeEmptyStepKeepsInv(s: System, s': System, r: Request, p: int)
    requires Inv(s) && SafeEmptyStep(s, s', r, p)
    ensures Inv(s')
  {
    hide AlignUp, TableOk, EmptyStep;
    EmptyStepMoves(s, s', r, p);
  }

  lemma SafeResetKeepsInv(s: System, s': System)
    requires Inv(s) && ResetStep(s, s') && NothingStale(s.arena)
    ensures Inv(s')
  {
    hide TableOk, Disjoint;
  }

  lemma WriteKeepsInv(s: System, s': System, k: nat, paddr: nat)
    requires Inv(s) && WriteStep(s, s', k, paddr)
    ensures Inv(s')
  {
    MadePteNamesPage(paddr);
  }

  /** Freeing whole blocks keeps the table in step with the blocks that remain. */
  lemma FreeKeepsTable(s: System, s': System, gone: set<Block>)
    requires TableOk(s.arena.ptes, s.live) && Disjoint(s.live) && gone <= s.live
    requires |s'.arena.ptes| == |s.arena.ptes| && s'.live == s.live - gone
    requires forall k: nat | k < |s.arena.ptes| ::
               s'.arena.ptes[k] == if Owned(gone, k) then 0 else s.arena.ptes[k]
    ensures TableOk(s'.arena.ptes, s'.live) && Disjoint(s'.live)
  {
    forall k: nat | k < |s.arena.ptes|
      ensures Owned(s'.live, k) <==> Owned(s.live, k) && !Owned(gone, k)
    {
      if Owned(s.live, k) && !Owned(gone, k) {
        var b :| b in s.live && Holds(b, k);
        assert b in s'.live;
      }
    }
  }

  lemma UnmapKeepsInv(s: System, s': System, seg: Segment)
    requires Inv(s) && UnmapStep(s, s', seg)
    ensures Inv(s')
  {
    var b := BlockOf(s.base, seg);
    var gone := {b};
    forall k: nat
      ensures Owned(gone, k) <==> Holds(b, k)
    {
      if Holds(b, k) { assert b in gone; }
    }
    FreeKeepsTable(s, s', gone);
    forall k | k in s'.arena.tlb && Holds(b, k)
      ensures k < s.arena.next
    {
      if b.ofs >= s.arena.next { SegmentCoversItsPages(s.base, seg, k); }
    }
  }

  /** The bus range of a segment touches every page of its block, which is what makes a
      flush of that range drop every cached entry of the block. */
  lemma SegmentCoversItsPages(base: nat, seg: Segment, k: nat)
    requires base <= seg.addr && Holds(BlockOf(base, seg), k) && base % PAGE_SIZE == 0
    ensures seg.addr < base + (k + 1) * PAGE_SIZE
    ensures base + k * PAGE_SIZE <= seg.addr + seg.len - 1
  {}

  /** Freeing a list zeroes the entries of its blocks and nothing else. */
  lemma {:induction false} FreeAllZeroes(ptes: seq<nat>, base: nat, segs: seq<Segment>, k: nat)
    requires forall g | g in segs :: base <= g.addr
    requires k < |ptes|
    ensures FreeAll(ptes, base, segs)[k] == if Owned(BlocksOf(base, segs), k) then 0 else ptes[k]
  {
    if segs == [] {
    } else {
      var rest, last := segs[..|segs| - 1], segs[|segs| - 1];
      FreeAllZeroes(ptes, base, rest, k);
      assert segs == rest + [last];
      assert BlocksOf(base, segs) == BlocksOf(base, rest) + {BlockOf(base, last)};
      OwnedUnion(BlocksOf(base, rest), BlockOf(base, last), k);
    }
  }

  lemma OwnedUnion(live: set<Block>, b: Block, k: nat)
    ensures Owned(live + {b}, k) <==> Owned(live, k) || Holds(b, k)
  {
    if Owned(live, k) {
      var c :| c in live && Holds(c, k);
      assert c in live + {b};
    }
    assert b in live + {b};
  }

  lemma {:induction false} FlushSpansSegments(segs: seq<Segment>, g: Segment)
    requires g in segs
    ensures FlushBegin(segs) <= g.addr && g.addr + g.len - 1 <= FlushEnd(segs)
  {
    var rest, last := segs[..|segs| - 1], segs[|segs| - 1];
    assert segs == rest + [last];
    if g !in rest {
      assert g == last;
    } else {
      FlushSpansSegments(rest, g);
    }
  }

  lemma {:induction false} FlushEndBounded(segs: seq<Segment>, hi: nat)
    requires forall g | g in segs :: g.addr + g.len <= hi
    ensures FlushEnd(segs) <= hi
  {
    if segs == [] {
    } else {
      FlushEndBounded(segs[..|segs| - 1], hi);
    }
  }

  /** The single test on `fend` decides for every block: a freed block at or above
      next_entry forces a flush, and that flush reaches all its pages. */
  lemma ListFlushSuffices(s: System, segs: seq<Segment>, g: Segment, k: nat)
    requires Inv(s) && g in segs
    requires forall h | h in segs :: s.base <= h.addr && BlockOf(s.base, h) in s.live
    requires Holds(BlockOf(s.base, g), k)
    requires k in UnmapAll(s.arena, s.base, segs).tlb
    ensures k < s.arena.next
  {
    hide U64, NumPages, FreeAll, TableOk, Disjoint, StaleOnlyBehind;
    FlushSpansSegments(segs, g);
    SegmentCoversItsPages(s.base, g, k);
    EndsInWindow(s, segs);
    U64Small(FlushEnd(segs) - s.base);
  }

  lemma EndsInWindow(s: System, segs: seq<Segment>)
    requires Inv(s)
    requires forall h | h in segs :: s.base <= h.addr && BlockOf(s.base, h) in s.live
    ensures FlushEnd(segs) <= 0x1_0000_0000
  {
    forall h | h in segs
      ensures h.addr + h.len <= 0x1_0000_0000
    {
      assert BlockOf(s.base, h) in s.live;
    }
    FlushEndBounded(segs, 0x1_0000_0000);
  }

  lemma UnmapListKeepsInv(s: System, s': System, segs: seq<Segment>)
    requires Inv(s) && UnmapListStep(s, s', segs)
    ensures Inv(s')
  {
    var gone := BlocksOf(s.base, segs);
    forall k: nat | k < |s.arena.ptes|
      ensures s'.arena.ptes[k] == if Owned(gone, k) then 0 else s.arena.ptes[k]
    {
      FreeAllZeroes(s.arena.ptes, s.base, segs, k);
    }
    FreeKeepsTable(s, s', gone);
    forall k: nat | k in s'.arena.tlb && Owned(gone, k)
      ensures k < s.arena.next
    {
      var b :| b in gone && Holds(b, k);
      var g :| g in segs && b == BlockOf(s.base, g);
      ListFlushSuffices(s, segs, g, k);
    }
  }

  lemma NextKeepsInv(s: System, s': System)
    requires Inv(s) && Next(s, s')
    ensures Inv(s')
  {
    hide Inv, AllocStep, WriteStep, UnmapStep, UnmapListStep, SafeEmptyStep, ResetStep, NothingStale;
    if r, p :| AllocStep(s, s', r, p) {
      AllocKeepsInv(s, s', r, p);
    } else if k, paddr :| WriteStep(s, s', k, paddr) {
      WriteKeepsInv(s, s', k, paddr);
    } else if seg :| UnmapStep(s, s', seg) {
      UnmapKeepsInv(s, s', seg);
    } else if segs :| UnmapListStep(s, s', segs) {
      UnmapListKeepsInv(s, s', segs);
    } else if r, p :| SafeEmptyStep(s, s', r, p) {
      SafeEmptyStepKeepsInv(s, s', r, p);
    } else if ResetStep(s, s') && NothingStale(s.arena) {
      SafeResetKeepsInv(s, s');
    } else {
      ChipKeepsInv(s, s');
    }
  }

  lemma ChipKeepsInv(s: System, s': System)
    requires Inv(s) && ((exists k :: LoadStep(s, s', k)) || (exists gone :: EvictStep(s, s', gone)))
    ensures Inv(s')
  {
    hide TableOk, Disjoint;
  }

  lemma {:induction false} RunKeepsInv(run: seq<System>, i: nat)
    requires Run(run) && i < |run|
    ensures Inv(run[i])
  {
    if i == 0 {
    } else {
      RunKeepsInv(run, i - 1);
      NextKeepsInv(run[i - 1], run[i]);
    }
  }

  // --- What the device sees ----------------------------------------------------

  /** The entry the chip uses for page k: the cached one if there is one, otherwise the
      table's if it is valid. */
  function EntryUsed(s: ArenaState, k: nat): Option<nat> {
    if k in s.tlb then Some(s.tlb[k])
    else if k < |s.ptes| && PteValid(s.ptes[k]) then Some(s.ptes[k])
    else None
  }

  /** What the table itself says of page k. */
  function EntryHeld(s: ArenaState, k: nat): Option<nat> {
    if k < |s.ptes| && PteValid(s.ptes[k]) then Some(s.ptes[k]) else None
  }

  /** The chip uses another entry for page k of a live mapping than the mapping's own. */
  ghost predicate StaleLive(s: System, k: nat) {
    Owned(s.live, k) && EntryUsed(s.arena, k) != EntryHeld(s.arena, k)
  }

  lemma InvNotStale(s: System, k: nat)
    requires Inv(s)
    ensures !StaleLive(s, k)
  {}

  /** In every reachable state a page of a live mapping is translated by its own table
      entry and by nothing else; while that entry is not yet written, not at all. */
  lemma LiveMappingNeverStale(run: seq<System>, i: nat, k: nat)
    requires Run(run) && i < |run| && Owned(run[i].live, k)
    ensures k < |run[i].arena.ptes|
    ensures var pte := run[i].arena.ptes[k];
            EntryUsed(run[i].arena, k) == if PteValid(pte) then Some(pte) else None
  {
    RunKeepsInv(run, i);
  }

  /** In every reachable state the free entries are exactly those no mapping holds, and
      live mappings never overlap. */
  lemma TableMatchesMappings(run: seq<System>, i: nat)
    requires Run(run) && i < |run|
    ensures TableOk(run[i].arena.ptes, run[i].live) && Disjoint(run[i].live)
  {
    RunKeepsInv(run, i);
  }

  /** Flushing really is lazy, and the guarantee is about live mappings and no more: right
      after an unmap the chip still uses a freed entry exactly if it had cached it and the
      block lies below next_entry. */
  lemma FreedEntryUsed(s: System, s': System, seg: Segment, k: nat)
    requires Inv(s) && UnmapStep(s, s', seg) && Holds(BlockOf(s.base, seg), k)
    ensures EntryUsed(s'.arena, k).Some? <==> k in s.arena.tlb && BlockOf(s.base, seg).ofs < s.arena.next
  {
    SegmentCoversItsPages(s.base, seg, k);
  }

  /** After an unmap of a list: exactly if it had cached it and every block of the list lies
      below next_entry. */
  lemma FreedListEntryUsed(s: System, s': System, segs: seq<Segment>, g: Segment, k: nat)
    requires Inv(s) && UnmapListStep(s, s', segs) && g in segs && Holds(BlockOf(s.base, g), k)
    ensures EntryUsed(s'.arena, k).Some? <==>
            k in s.arena.tlb && forall h | h in segs :: BlockOf(s.base, h).ofs < s.arena.next
  {
    hide U64, NumPages, FreeAll, FlushEnd, FlushBegin, Disjoint, StaleOnlyBehind;
    BlockInTable(s, g);
    assert Owned(BlocksOf(s.base, segs), k) by { assert BlockOf(s.base, g) in BlocksOf(s.base, segs); }
    FreeAllZeroes(s.arena.ptes, s.base, segs, k);
    FlushSpansSegments(segs, g);
    SegmentCoversItsPages(s.base, g, k);
    FlushDecided(s, segs);
  }

  lemma BlockInTable(s: System, g: Segment)
    requires Inv(s) && s.base <= g.addr && BlockOf(s.base, g) in s.live
    ensures var b := BlockOf(s.base, g); b.n > 0 && b.ofs + b.n <= |s.arena.ptes|
    ensures var b := BlockOf(s.base, g); b.ofs + b.n <= s.arena.next || s.arena.next <= b.ofs
  {}

  /** The list unmap flushes exactly if some block lies at or above next_entry. */
  lemma FlushDecided(s: System, segs: seq<Segment>)
    requires Inv(s) && segs != []
    requires forall h | h in segs :: s.base <= h.addr && BlockOf(s.base, h) in s.live
    ensures U64(FlushEnd(segs) - s.base) / PAGE_SIZE >= s.arena.next <==>
            exists h :: h in segs && BlockOf(s.base, h).ofs >= s.arena.next
  {
    hide U64, NumPages, FlushEnd, TableOk, Disjoint, StaleOnlyBehind;
    forall h | h in segs
      ensures h.addr + h.len > 0
    {
      BlockInTable(s, h);
      LastPage(s.base, h);
    }
    var last := FlushEndReached(segs);
    FlushSpansSegments(segs, last);
    BlockInTable(s, last);
    LastPage(s.base, last);
    EndsInWindow(s, segs);
    U64Small(FlushEnd(segs) - s.base);
    forall h | h in segs && BlockOf(s.base, h).ofs >= s.arena.next
      ensures (FlushEnd(segs) - s.base) / PAGE_SIZE >= s.arena.next
    {
      FlushSpansSegments(segs, h);
      BlockInTable(s, h);
      LastPage(s.base, h);
    }
  }

  /** The last byte of a segment lies in the last page of its block. */
  lemma LastPage(base: nat, g: Segment)
    requires base <= g.addr && base % PAGE_SIZE == 0 && BlockOf(base, g).n > 0
    ensures g.addr + g.len > base
    ensures (g.addr + g.len - 1 - base) / PAGE_SIZE == BlockOf(base, g).ofs + BlockOf(base, g).n - 1
  {
    PageSpan(base / PAGE_SIZE, g.addr, g.len);
  }

  lemma PageSpan(b: nat, addr: nat, len: nat)
    requires b * PAGE_SIZE <= addr && NumPages(addr, len) > 0
    ensures addr + len > b * PAGE_SIZE
    ensures (addr + len - 1 - b * PAGE_SIZE) / PAGE_SIZE == (addr - b * PAGE_SIZE) / PAGE_SIZE + NumPages(addr, len) - 1
  {
    var d: nat := addr - b * PAGE_SIZE;
    var o, r := d / PAGE_SIZE, d % PAGE_SIZE;
    DivModUnique(addr, PAGE_SIZE, b + o, r);
    var x := r + len;
    assert x > 0;
    var q, t := (x - 1) / PAGE_SIZE, (x - 1) % PAGE_SIZE;
    DivModUnique(x + (PAGE_SIZE - 1), PAGE_SIZE, q + 1, t);
    DivModUnique(d + len - 1, PAGE_SIZE, o + q, t);
  }

  lemma {:induction false} FlushEndReached(segs: seq<Segment>) returns (g: Segment)
    requires segs != [] && forall h | h in segs :: h.addr + h.len > 0
    ensures g in segs && FlushEnd(segs) == g.addr + g.len - 1
  {
    var rest, last := segs[..|segs| - 1], segs[|segs| - 1];
    assert segs == rest + [last];
    if rest == [] || FlushEnd(rest) <= last.addr + last.len - 1 {
      g := last;
    } else {
      g := FlushEndReached(rest);
    }
  }

  /** A run that shows it: map one page, let the chip cache it, unmap it. */
  lemma FreedEntryMayStayCached() returns (run: seq<System>)
    ensures Run(run) && |run| == 5
    ensures run[4].arena.ptes == [0] && run[4].live == {} && EntryUsed(run[4].arena, 0) == Some(1)
  {
    hide AlignUp;
    var r, seg := Request(1, 1, 1, 0x8_0000), Segment(0x2000, 1);
    var s0 := System(ArenaState([0], 0, map[]), 0x2000, {});
    var s1 := System(ArenaState([2], 1, map[]), 0x2000, {Block(0, 1)});
    var s2 := s1.(arena := ArenaState([1], 1, map[]));
    var s3 := s1.(arena := ArenaState([1], 1, map[0 := 1]));
    var s4 := System(ArenaState([0], 1, map[0 := 1]), 0x2000, {});
    FirstAllocation(r);
    assert MarkRange([0], 0, 1, INVALID_PTE) == [2] && MarkRange([1], 0, 1, 0) == [0];
    assert AllocStep(s0, s1, r, 0);
    assert [2][0 := MkPte(0)] == [1];
    assert WriteStep(s1, s2, 0, 0);
    assert LoadStep(s2, s3, 0);
    assert BlockOf(0x2000, seg) == Block(0, 1);
    assert UnmapStep(s3, s4, seg);
    run := [s0, s1, s2, s3, s4];
  }

  lemma FirstAllocation(r: Request)
    requires r == Request(1, 1, 1, 0x8_0000)
    ensures NextFit([0], 0, r, 0) && !Wraps([0], 0, r)
  {
    assert AlignUp(0, 1) == 0;
    assert Candidate([0], r, 0);
  }
}
