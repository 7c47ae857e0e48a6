/** The AGP extension of the IOMMU arena: reserving an aperture, binding pages into it, and
    translating aperture addresses, beside the DMA mappings that share the table. */
module AgpGart {
  import opened Arith
  import opened IommuArena
  import opened TlbCoherence

  const EINVAL := -22
  const EBUSY := -16
  const ENOMEM := -12

  ghost predicate AllReserved(ptes: seq<nat>, start: nat, n: nat)
    requires start + n <= |ptes|
  {
    forall k | start <= k < start + n :: ptes[k] == RESERVED_PTE
  }

  /** The table with pages bound from entry `start` on. */
  function Bound(ptes: seq<nat>, start: nat, pages: seq<nat>): (r: seq<nat>)
    ensures |r| == |ptes|
    ensures forall k | 0 <= k < |ptes| ::
              r[k] == if start <= k < start + |pages| then MkPte(pages[k - start]) else ptes[k]
  {
    seq(|ptes|, k requires 0 <= k < |ptes| => BoundEntry(ptes, start, pages, k))
  }

  function BoundEntry(ptes: seq<nat>, start: nat, pages: seq<nat>, k: nat): nat
    requires k < |ptes|
  {
    if start <= k < start + |pages| then MkPte(pages[k - start]) else ptes[k]
  }

  // --- The four operations -----------------------------------------------------------

  /** iommu_reserve, for any mask; a mask of -1 comes with a request for no entries. */
  method Reserve(arena: Arena?, n: nat, alignMask: int) returns (p: int)
    requires arena != null ==> arena.Shape()
    requires alignMask >= -1 && (n > 0 ==> alignMask >= 0)
    modifies arena, if arena == null then {} else {arena.ptes}
    ensures arena == null ==> p == EINVAL
    ensures arena != null ==>
              Granting(arena.RequestFor(n, alignMask + 1, 0x8_0000), alignMask, old(arena.State()), arena.State(), p)
  {
    hide SpansBoundary, AlignUp, Masked;
    if arena == null { return EINVAL; }
    p := arena.FindPages(n, alignMask, 0x8_0000);
    if p < 0 { return -1; }
    assert n > 0 ==> IsFree(arena.ptes[..], p + n - 1);
    arena.Mark(p, n, RESERVED_PTE);
    arena.nextEntry := p + n;
  }

  /** From s to t a run was reserved at p, or refused: always a free run off every boundary and
      off the mask's bits; for a mask one less than a power of two, the next fit. */
  ghost predicate Granting(r: Request, mask: int, s: ArenaState, t: ArenaState, p: int)
    requires r.align == mask + 1 && r.boundary > 0
  {
    && (if p < 0 then p == -1 && t == s.(tlb := t.tlb)
        else Fits(s.ptes, r, p) && Masked(p, mask) &&
             t == ArenaState(MarkRange(s.ptes, p, r.n, RESERVED_PTE), p + r.n, t.tlb))
    && (t.tlb == s.tlb || t.tlb == map[])
    && (mask == -1 && r.n == 0 ==> p == 0)
    && (Pow2Mask(mask) ==> NextFit(s.ptes, s.next, r, p) && t == Granted(s, r, p, RESERVED_PTE))
  }

  method CheckReserved(arena: Arena, start: nat, n: nat) returns (ok: bool)
    requires start + n <= arena.ptes.Length
    ensures ok <==> AllReserved(arena.ptes[..], start, n)
  {
    for i := start to start + n
      invariant forall k | start <= k < i :: arena.ptes[k] == RESERVED_PTE
    {
      if arena.ptes[i] != RESERVED_PTE {
        assert arena.ptes[..][i] != RESERVED_PTE;
        return false;
      }
    }
    return true;
  }

  method Release(arena: Arena?, start: nat, n: nat) returns (status: int)
    requires arena != null ==> start + n <= arena.ptes.Length
    modifies if arena == null then {} else {arena.ptes}
    ensures arena == null ==> status == EINVAL
    ensures arena != null ==>
              if AllReserved(old(arena.ptes[..]), start, n)
              then status == 0 && arena.ptes[..] == MarkRange(old(arena.ptes[..]), start, n, 0)
              else status == EBUSY && arena.ptes[..] == old(arena.ptes[..])
  {
    if arena == null { return EINVAL; }
    var ok := CheckReserved(arena, start, n);
    if !ok { return EBUSY; }
    arena.Free(start, n);
    return 0;
  }

  method Bind(arena: Arena?, start: nat, pages: seq<nat>) returns (status: int)
    requires arena != null ==> start + |pages| <= arena.ptes.Length
    modifies if arena == null then {} else {arena.ptes}
    ensures arena == null ==> status == EINVAL
    ensures arena != null ==>
              if AllReserved(old(arena.ptes[..]), start, |pages|)
              then status == 0 && arena.ptes[..] == Bound(old(arena.ptes[..]), start, pages)
              else status == EBUSY && arena.ptes[..] == old(arena.ptes[..])
  {
    if arena == null { return EINVAL; }
    var ok := CheckReserved(arena, start, |pages|);
    if !ok { return EBUSY; }
    for i := 0 to |pages|
      invariant arena.ptes[..] == Bound(old(arena.ptes[..]), start, pages[..i])
    {
      arena.ptes[start + i] := MkPte(pages[i]);
    }
    assert pages[..|pages|] == pages;
    return 0;
  }

  method Unbind(arena: Arena?, start: nat, n: nat) returns (status: int)
    requires arena != null ==> start + n <= arena.ptes.Length
    modifies if arena == null then {} else {arena.ptes}
    ensures arena == null ==> status == EINVAL
    ensures arena != null ==> status == 0 && arena.ptes[..] == MarkRange(old(arena.ptes[..]), start, n, RESERVED_PTE)
  {
    if arena == null { return EINVAL; }
    arena.Mark(start, n, RESERVED_PTE);
    return 0;
  }

  // --- The marvel bridge -----------------------------------------------------------

  datatype Aperture = Aperture(pgStart: nat, pgCount: nat, busBase: nat, size: nat)

  ghost predicate ApertureOk(a: Arena, ap: Aperture) {
    ap.pgStart + ap.pgCount <= a.ptes.Length &&
    ap.busBase == a.dmaBase + ap.pgStart * PAGE_SIZE && ap.size == ap.pgCount * PAGE_SIZE
  }

  /** marvel_agp_setup, for any configured size.  The page count minus one is used as the
      alignment mask: for a power of two of pages the aperture is naturally aligned, otherwise
      its first entry is only clear of the mask's bits.  A size below a page makes an empty
      aperture and takes next_entry back to 0. */
  method AgpSetup(arena: Arena?, gartSize: nat) returns (r: Option<Aperture>)
    requires arena != null ==> arena.Shape()
    modifies arena, if arena == null then {} else {arena.ptes}
    ensures r.Some? ==> arena != null && ApertureOk(arena, r.value) && r.value.pgCount == gartSize / PAGE_SIZE
    ensures r.Some? ==> AllFree(old(arena.ptes[..]), r.value.pgStart, r.value.pgCount) &&
                        Masked(r.value.pgStart, r.value.pgCount - 1) &&
                        (IsPow2(r.value.pgCount) ==>
                           r.value.pgCount > 0 && r.value.pgStart % r.value.pgCount == 0) &&
                        arena.ptes[..] ==
                          MarkRange(old(arena.ptes[..]), r.value.pgStart, r.value.pgCount, RESERVED_PTE) &&
                        arena.nextEntry == r.value.pgStart + r.value.pgCount
    ensures arena != null && 0 < gartSize < PAGE_SIZE ==> r == Some(Aperture(0, 0, arena.dmaBase, 0))
    ensures r.None? && arena != null ==> arena.ptes[..] == old(arena.ptes[..])
    ensures r.None? && arena != null && gartSize >= PAGE_SIZE && IsPow2(gartSize / PAGE_SIZE) ==>
              var n := gartSize / PAGE_SIZE;
              NoCandidateFrom(old(arena.ptes[..]), arena.RequestFor(n, n, 0x8_0000), 0)
  {
    hide SpansBoundary, AlignUp, Masked, IsPow2, NoCandidateFrom, NoCandidateIn;
    if gartSize == 0 { return None; }
    var n := gartSize / PAGE_SIZE;
    ghost var was := if arena == null then [] else arena.ptes[..];
    var p := Reserve(arena, n, n - 1);
    if p < 0 { return None; }
    if IsPow2(n) {
      Pow2IsPositive(n);
      MaskedMeansMultiple(p, n - 1);
    }
    assert n > 0 ==> IsFree(was, p + n - 1);
    return Some(Aperture(p, n, arena.dmaBase + p * PAGE_SIZE, n * PAGE_SIZE));
  }

  lemma Pow2IsPositive(n: nat)
    requires IsPow2(n)
    ensures n > 0
  {}

  /** marvel_agp_cleanup: whatever is still bound, the whole aperture ends up free. */
  method AgpCleanup(arena: Arena, ap: Aperture) returns (status: int)
    requires ApertureOk(arena, ap)
    modifies arena.ptes
    ensures status == 0
    ensures arena.ptes[..] == MarkRange(old(arena.ptes[..]), ap.pgStart, ap.pgCount, 0)
  {
    status := Release(arena, ap.pgStart, ap.pgCount);
    if status == EBUSY {
      var _ := Unbind(arena, ap.pgStart, ap.pgCount);
      status := Release(arena, ap.pgStart, ap.pgCount);
    }
  }

  /** marvel_agp_translate; negative on error. */
  function AgpTranslate(ptes: seq<nat>, dmaBase: nat, ap: Aperture, addr: nat): int
    requires ap.busBase == dmaBase + ap.pgStart * PAGE_SIZE && ap.size == ap.pgCount * PAGE_SIZE
    requires ap.pgStart + ap.pgCount <= |ptes|
  {
    if addr < ap.busBase || addr >= ap.busBase + ap.size then EINVAL
    else
      var pte := ptes[(addr - dmaBase) / PAGE_SIZE];
      if !PteValid(pte) then EINVAL else PtePage(pte)
  }

  /** Every address of page i of a bound range translates to pages[i]. */
  lemma BoundPageTranslates(ptes: seq<nat>, dmaBase: nat, ap: Aperture, start: nat, pages: seq<nat>, i: nat, x: nat)
    requires ap.busBase == dmaBase + ap.pgStart * PAGE_SIZE && ap.size == ap.pgCount * PAGE_SIZE
    requires ap.pgStart + ap.pgCount <= |ptes| && start + |pages| <= ap.pgCount
    requires i < |pages| && pages[i] % PAGE_SIZE == 0 && x < PAGE_SIZE
    ensures var addr := ap.busBase + (start + i) * PAGE_SIZE + x;
            AgpTranslate(Bound(ptes, ap.pgStart + start, pages), dmaBase, ap, addr) == pages[i]
  {
    var addr := ap.busBase + (start + i) * PAGE_SIZE + x;
    assert (addr - dmaBase) / PAGE_SIZE == ap.pgStart + start + i;
    MadePteNamesPage(pages[i]);
  }

  // --- Every run -------------------------------------------------------------------

  /** The shared table, the DMA blocks, the reserved apertures, and for each entry the
      page bound there. */
  datatype Gart = Gart(ptes: seq<nat>, dma: set<Block>, apertures: set<Block>, bound: seq<Option<nat>>)

  /** The record of bound pages after binding the given pages, or unbinding, n entries. */
  function Rebound(bound: seq<Option<nat>>, start: nat, n: nat, pages: Option<seq<nat>>): (r: seq<Option<nat>>)
    requires pages.Some? ==> |pages.value| == n
    ensures |r| == |bound|
    ensures forall k | 0 <= k < |bound| ::
              r[k] == if start <= k < start + n then (if pages.Some? then Some(pages.value[k - start]) else None)
                      else bound[k]
  {
    seq(|bound|, k requires 0 <= k < |bound| =>
      if start <= k < start + n then (if pages.Some? then Some(pages.value[k - start]) else None) else bound[k])
  }

  datatype EntryKind = Free | InUseInvalid | Reserved | Valid | Corrupt

  function KindOf(pte: nat): EntryKind {
    if pte == 0 then Free
    else if pte == INVALID_PTE then InUseInvalid
    else if pte == RESERVED_PTE then Reserved
    else if PteValid(pte) then Valid
    else Corrupt
  }

  ghost predicate Start(s: Gart) {
    (forall k | 0 <= k < |s.ptes| :: s.ptes[k] == 0) && s.dma == {} && s.apertures == {} &&
    |s.bound| == |s.ptes| && forall k | 0 <= k < |s.bound| :: s.bound[k] == None
  }

  ghost predicate Inside(n: nat, b: Block) {
    b.n > 0 && b.ofs + b.n <= n
  }

  /** A DMA mapping is allocated, one of its entries written, or a whole mapping freed. */
  ghost predicate DmaAlloc(s: Gart, t: Gart, b: Block) {
    Inside(|s.ptes|, b) && AllFree(s.ptes, b.ofs, b.n) &&
    t == s.(ptes := MarkRange(s.ptes, b.ofs, b.n, INVALID_PTE), dma := s.dma + {b})
  }

  ghost predicate DmaWrite(s: Gart, t: Gart, k: nat, paddr: nat) {
    k < |s.ptes| && s.ptes[k] == INVALID_PTE && t == s.(ptes := s.ptes[k := MkPte(paddr)])
  }

  ghost predicate DmaFree(s: Gart, t: Gart, b: Block) {
    b in s.dma && t == s.(ptes := MarkRange(s.ptes, b.ofs, b.n, 0), dma := s.dma - {b})
  }

  ghost predicate ReserveStep(s: Gart, t: Gart, b: Block) {
    Inside(|s.ptes|, b) && AllFree(s.ptes, b.ofs, b.n) &&
    t == s.(ptes := MarkRange(s.ptes, b.ofs, b.n, RESERVED_PTE), apertures := s.apertures + {b})
  }

  /** iommu_bind inside an aperture; refused without effect unless all is reserved. */
  ghost predicate BindStep(s: Gart, t: Gart, a: Block, start: nat, pages: seq<nat>) {
    a in s.apertures && a.ofs <= start && start + |pages| <= a.ofs + a.n && a.ofs + a.n <= |s.ptes| &&
    t == if AllReserved(s.ptes, start, |pages|)
         then s.(ptes := Bound(s.ptes, start, pages),
                 bound := Rebound(s.bound, start, |pages|, Some(pages)))
         else s
  }

  ghost predicate UnbindStep(s: Gart, t: Gart, a: Block, start: nat, n: nat) {
    a in s.apertures && a.ofs <= start && start + n <= a.ofs + a.n &&
    t == s.(ptes := MarkRange(s.ptes, start, n, RESERVED_PTE),
            bound := Rebound(s.bound, start, n, None))
  }

  /** iommu_release of a whole aperture; refused without effect while something is bound. */
  ghost predicate ReleaseStep(s: Gart, t: Gart, a: Block) {
    a in s.apertures && a.ofs + a.n <= |s.ptes| &&
    t == if AllReserved(s.ptes, a.ofs, a.n)
         then s.(ptes := MarkRange(s.ptes, a.ofs, a.n, 0), apertures := s.apertures - {a})
         else s
  }

  ghost predicate GartNext(s: Gart, t: Gart) {
    || (exists b :: DmaAlloc(s, t, b))
    || (exists k, paddr :: DmaWrite(s, t, k, paddr))
    || (exists b :: DmaFree(s, t, b))
    || (exists b :: ReserveStep(s, t, b))
    || (exists a, start, pages :: BindStep(s, t, a, start, pages))
    || (exists a, start, n :: UnbindStep(s, t, a, start, n))
    || (exists a :: ReleaseStep(s, t, a))
  }

  ghost predicate GartRun(run: seq<Gart>) {
    |run| > 0 && Start(run[0]) && forall i | 0 <= i < |run| - 1 :: GartNext(run[i], run[i + 1])
  }

  /** Blocks of both sorts are inside the table and never overlap. */
  ghost predicate BlocksOk(s: Gart) {
    (forall b | b in s.dma + s.apertures :: Inside(|s.ptes|, b)) &&
    s.dma !! s.apertures && Disjoint(s.dma + s.apertures)
  }

  /** What entry k must be, by who owns it. */
  ghost predicate EntryMatchesOwner(s: Gart, k: nat)
    requires k < |s.ptes| == |s.bound|
  {
    (Owned(s.dma, k) ==> KindOf(s.ptes[k]) == InUseInvalid || KindOf(s.ptes[k]) == Valid) &&
    (Owned(s.apertures, k) ==> s.ptes[k] == if s.bound[k].Some? then MkPte(s.bound[k].value) else RESERVED_PTE) &&
    (!Owned(s.dma, k) && !Owned(s.apertures, k) ==> s.ptes[k] == 0) &&
    (s.bound[k].Some? ==> Owned(s.apertures, k))
  }

  ghost predicate GartInv(s: Gart) {
    |s.bound| == |s.ptes| && BlocksOk(s) && forall k: nat | k < |s.ptes| :: EntryMatchesOwner(s, k)
  }

  lemma NotOwnedByBoth(s: Gart, k: nat)
    requires BlocksOk(s)
    ensures !(Owned(s.dma, k) && Owned(s.apertures, k))
  {}

  /** A block of free entries overlaps no block in use. */
  lemma FreeBlockApart(s: Gart, b: Block)
    requires GartInv(s) && Inside(|s.ptes|, b) && AllFree(s.ptes, b.ofs, b.n)
    ensures b !in s.dma + s.apertures
    ensures forall c | c in s.dma + s.apertures :: b.ofs + b.n <= c.ofs || c.ofs + c.n <= b.ofs
  {
    forall c | c in s.dma + s.apertures
      ensures b.ofs + b.n <= c.ofs || c.ofs + c.n <= b.ofs
    {
      var k := Max(b.ofs, c.ofs);
      if Holds(b, k) && Holds(c, k) {
        assert IsFree(s.ptes, k) && EntryMatchesOwner(s, k);
        assert Owned(s.dma, k) || Owned(s.apertures, k);
        MadePteIsNotFree(s, k);
      }
    }
  }

  lemma MadePteIsNotFree(s: Gart, k: nat)
    requires GartInv(s) && k < |s.ptes| && (Owned(s.dma, k) || Owned(s.apertures, k))
    ensures s.ptes[k] != 0
  {
    assert EntryMatchesOwner(s, k);
    if Owned(s.apertures, k) && s.bound[k].Some? { MadePteNamesPage(s.bound[k].value); }
  }

  lemma TakeKeepsInv(s: Gart, t: Gart, b: Block, mark: nat)
    requires GartInv(s) && Inside(|s.ptes|, b) && AllFree(s.ptes, b.ofs, b.n)
    requires t.ptes == MarkRange(s.ptes, b.ofs, b.n, mark) && t.bound == s.bound
    requires (mark == INVALID_PTE && t.dma == s.dma + {b} && t.apertures == s.apertures) ||
             (mark == RESERVED_PTE && t.dma == s.dma && t.apertures == s.apertures + {b})
    ensures GartInv(t)
  {
    FreeBlockApart(s, b);
    forall k: nat | k < |t.ptes|
      ensures EntryMatchesOwner(t, k)
    {
      assert EntryMatchesOwner(s, k);
      OwnedUnion(s.dma, b, k);
      OwnedUnion(s.apertures, b, k);
      if Holds(b, k) { assert IsFree(s.ptes, k); NotOwnedWhenFree(s, k); }
    }
  }

  lemma NotOwnedWhenFree(s: Gart, k: nat)
    requires GartInv(s) && IsFree(s.ptes, k)
    ensures !Owned(s.dma, k) && !Owned(s.apertures, k)
  {
    if Owned(s.dma, k) || Owned(s.apertures, k) { MadePteIsNotFree(s, k); }
  }

  lemma DmaWriteKeepsInv(s: Gart, t: Gart, k: nat, paddr: nat)
    requires GartInv(s) && DmaWrite(s, t, k, paddr)
    ensures GartInv(t)
  {
    MadePteNamesPage(paddr);
    forall j: nat | j < |t.ptes|
      ensures EntryMatchesOwner(t, j)
    {
      assert EntryMatchesOwner(s, j);
      NotOwnedByBoth(s, j);
      if s.bound[j].Some? { MadePteNamesPage(s.bound[j].value); }
    }
  }

  /** Dropping a block and clearing its entries, when nothing is bound in it. */
  lemma DropKeepsInv(s: Gart, t: Gart, b: Block)
    requires GartInv(s) && b in s.dma + s.apertures
    requires t == s.(ptes := MarkRange(s.ptes, b.ofs, b.n, 0), dma := s.dma - {b}, apertures := s.apertures - {b})
    requires b in s.apertures ==> forall k: nat | Holds(b, k) :: k < |s.ptes| && s.bound[k] == None
    ensures GartInv(t)
  {
    forall k: nat | k < |t.ptes|
      ensures EntryMatchesOwner(t, k)
    {
      assert EntryMatchesOwner(s, k);
      NotOwnedByBoth(s, k);
      OwnedWithout(s.dma + s.apertures, s.dma, b, k);
      OwnedWithout(s.dma + s.apertures, s.apertures, b, k);
    }
  }

  lemma OwnedWithout(all: set<Block>, live: set<Block>, b: Block, k: nat)
    requires Disjoint(all) && live <= all && b in all && forall c | c in all :: c.n > 0
    ensures Owned(live - {b}, k) <==> Owned(live, k) && !Holds(b, k)
  {
    if Owned(live, k) && !Holds(b, k) {
      var c :| c in live && Holds(c, k);
      assert c in live - {b};
    }
    if Owned(live - {b}, k) {
      var c :| c in live - {b} && Holds(c, k);
      assert c in all;
    }
  }

  /** Changing what is bound inside an aperture, in the record and the table alike. */
  lemma RebindKeepsInv(s: Gart, t: Gart, a: Block, start: nat, n: nat, pages: Option<seq<nat>>)
    requires GartInv(s) && a in s.apertures && a.ofs <= start && start + n <= a.ofs + a.n
    requires pages.Some? ==> |pages.value| == n
    requires t.dma == s.dma && t.apertures == s.apertures && t.bound == Rebound(s.bound, start, n, pages)
    requires t.ptes == if pages.Some? then Bound(s.ptes, start, pages.value)
                       else MarkRange(s.ptes, start, n, RESERVED_PTE)
    ensures GartInv(t)
  {
    forall k: nat | k < |t.ptes|
      ensures EntryMatchesOwner(t, k)
    {
      assert EntryMatchesOwner(s, k);
      NotOwnedByBoth(s, k);
      if start <= k < start + n { assert Holds(a, k); }
    }
  }

  /** The code's "all reserved" test is "nothing bound", inside an aperture. */
  lemma ReservedMeansUnbound(s: Gart, a: Block, start: nat, n: nat)
    requires GartInv(s) && a in s.apertures && a.ofs <= start && start + n <= a.ofs + a.n && start + n <= |s.ptes|
    ensures AllReserved(s.ptes, start, n) <==> forall k | start <= k < start + n :: s.bound[k] == None
  {
    forall k | start <= k < start + n
      ensures s.ptes[k] == RESERVED_PTE <==> s.bound[k] == None
    {
      assert Holds(a, k) && EntryMatchesOwner(s, k);
      if s.bound[k].Some? { MadePteNamesPage(s.bound[k].value); }
    }
  }

  lemma GartNextKeepsInv(s: Gart, t: Gart)
    requires GartInv(s) && GartNext(s, t)
    ensures GartInv(t)
  {
    hide GartInv, Bound, MarkRange, Rebound;
    if b :| DmaAlloc(s, t, b) {
      TakeKeepsInv(s, t, b, INVALID_PTE);
    } else if k, paddr :| DmaWrite(s, t, k, paddr) {
      DmaWriteKeepsInv(s, t, k, paddr);
    } else if b :| DmaFree(s, t, b) {
      ApertureNotDma(s, b);
      DropKeepsInv(s, t, b);
    } else if b :| ReserveStep(s, t, b) {
      TakeKeepsInv(s, t, b, RESERVED_PTE);
    } else if a, start, pages :| BindStep(s, t, a, start, pages) {
      if AllReserved(s.ptes, start, |pages|) {
        RebindKeepsInv(s, t, a, start, |pages|, Some(pages));
      }
    } else if a, start, n :| UnbindStep(s, t, a, start, n) {
      RebindKeepsInv(s, t, a, start, n, None);
    } else if a :| ReleaseStep(s, t, a) {
      if AllReserved(s.ptes, a.ofs, a.n) {
        ReservedMeansUnbound(s, a, a.ofs, a.n);
        ApertureNotDma(s, a);
        InsideTable(s, a);
        DropKeepsInv(s, t, a);
      }
    }
  }

  lemma ApertureNotDma(s: Gart, b: Block)
    requires GartInv(s)
    ensures b in s.dma ==> b !in s.apertures && s.apertures - {b} == s.apertures
    ensures b in s.apertures ==> b !in s.dma && s.dma - {b} == s.dma
  {}

  lemma InsideTable(s: Gart, a: Block)
    requires GartInv(s) && a in s.apertures
    ensures |s.bound| == |s.ptes| && a.ofs + a.n <= |s.ptes|
  {}

  lemma {:induction false} GartRunKeepsInv(run: seq<Gart>, i: nat)
    requires GartRun(run) && i < |run|
    ensures GartInv(run[i])
  {
    if i == 0 {
    } else {
      GartRunKeepsInv(run, i - 1);
      GartNextKeepsInv(run[i - 1], run[i]);
    }
  }

  /** In every reachable state an entry is free exactly when nobody owns it, translates or
      waits exactly inside DMA blocks and apertures, reads as reserved exactly where an
      aperture has nothing bound, and is never anything else. */
  lemma EntryKindsMatchOwners(run: seq<Gart>, i: nat, k: nat)
    requires GartRun(run) && i < |run| && k < |run[i].ptes|
    ensures var s := run[i];
            |s.bound| == |s.ptes| &&
            KindOf(s.ptes[k]) != Corrupt && !(Owned(s.dma, k) && Owned(s.apertures, k)) &&
            (KindOf(s.ptes[k]) == Free <==> !Owned(s.dma, k) && !Owned(s.apertures, k)) &&
            (KindOf(s.ptes[k]) == Reserved <==> Owned(s.apertures, k) && s.bound[k] == None) &&
            (KindOf(s.ptes[k]) == InUseInvalid ==> Owned(s.dma, k)) &&
            (s.bound[k].Some? ==> s.ptes[k] == MkPte(s.bound[k].value))
  {
    GartRunKeepsInv(run, i);
    assert EntryMatchesOwner(run[i], k);
    NotOwnedByBoth(run[i], k);
    if run[i].bound[k].Some? { MadePteNamesPage(run[i].bound[k].value); }
  }

  // --- Translation in every run ----------------------------------------------------

  /** The aperture of a reserved block. */
  function ApertureOf(dmaBase: nat, a: Block): Aperture {
    Aperture(a.ofs, a.n, dmaBase + a.ofs * PAGE_SIZE, a.n * PAGE_SIZE)
  }

  /** In every reachable state, an address of entry k of an aperture translates to the page that
      is bound there, and to nothing if none is. */
  lemma TranslatesToBound(run: seq<Gart>, i: nat, dmaBase: nat, a: Block, k: nat, x: nat)
    requires GartRun(run) && i < |run| && a in run[i].apertures && Holds(a, k) && x < PAGE_SIZE
    ensures a.ofs + a.n <= |run[i].ptes| == |run[i].bound|
    ensures var addr, page := dmaBase + k * PAGE_SIZE + x, run[i].bound[k];
            AgpTranslate(run[i].ptes, dmaBase, ApertureOf(dmaBase, a), addr) ==
            if page.Some? then page.value - page.value % PAGE_SIZE else EINVAL
  {
    hide MkPte, PtePage, PteValid;
    GartRunKeepsInv(run, i);
    InsideTable(run[i], a);
    assert Owned(run[i].apertures, k) && EntryMatchesOwner(run[i], k);
    EntryOfAddress(k, x);
    ReservedIsInvalid();
    if run[i].bound[k].Some? { MadePteNamesPage(run[i].bound[k].value); }
  }

  lemma EntryOfAddress(k: nat, x: nat)
    requires x < PAGE_SIZE
    ensures (k * PAGE_SIZE + x) / PAGE_SIZE == k
  {}

  lemma ReservedIsInvalid()
    ensures !PteValid(RESERVED_PTE)
  {}

  /** The step unbinds entry k. */
  ghost predicate Unbinds(s: Gart, t: Gart, k: nat) {
    exists a, start: nat, n: nat :: UnbindStep(s, t, a, start, n) && start <= k < start + n
  }

  /** A bound page stays bound, whatever else is bound, mapped or released, until it is
      unbound. */
  lemma BoundUntilUnbound(s: Gart, t: Gart, k: nat)
    requires GartInv(s) && GartNext(s, t) && k < |s.bound| && s.bound[k].Some? && !Unbinds(s, t, k)
    ensures k < |t.bound| && t.bound[k] == s.bound[k]
  {
    hide GartInv, Bound, MarkRange, Rebound;
    if a, start, pages :| BindStep(s, t, a, start, pages) {
      BindSpares(s, t, a, start, pages, k);
    }
  }

  /** A bind of a range that holds a bound entry is refused. */
  lemma BindSpares(s: Gart, t: Gart, a: Block, start: nat, pages: seq<nat>, k: nat)
    requires GartInv(s) && BindStep(s, t, a, start, pages) && k < |s.bound| && s.bound[k].Some?
    ensures k < |t.bound| && t.bound[k] == s.bound[k]
  {
    ReservedMeansUnbound(s, a, start, |pages|);
  }

  /** From the bind on, until the unbind, every address of the page translates to it. */
  lemma TranslatesUntilUnbound(run: seq<Gart>, i: nat, j: nat, dmaBase: nat, a: Block, k: nat, page: nat, x: nat)
    requires GartRun(run) && i <= j < |run| && Holds(a, k) && x < PAGE_SIZE && page % PAGE_SIZE == 0
    requires k < |run[i].bound| && run[i].bound[k] == Some(page) && a in run[j].apertures
    requires forall t | i <= t < j :: !Unbinds(run[t], run[t + 1], k)
    ensures a.ofs + a.n <= |run[j].ptes|
    ensures AgpTranslate(run[j].ptes, dmaBase, ApertureOf(dmaBase, a), dmaBase + k * PAGE_SIZE + x) == page
  {
    hide AgpTranslate, Unbinds;
    BoundInRun(run, i, j, k);
    TranslatesToBound(run, j, dmaBase, a, k, x);
  }

  lemma {:induction false} BoundInRun(run: seq<Gart>, i: nat, j: nat, k: nat)
    requires GartRun(run) && i <= j < |run| && k < |run[i].bound| && run[i].bound[k].Some?
    requires forall t | i <= t < j :: !Unbinds(run[t], run[t + 1], k)
    ensures k < |run[j].bound| && run[j].bound[k] == run[i].bound[k]
    decreases j - i
  {
    hide GartInv, GartNext, Unbinds;
    if i == j {
    } else {
      BoundInRun(run, i, j - 1, k);
      GartRunKeepsInv(run, j - 1);
      assert GartNext(run[j - 1], run[j]);
      BoundUntilUnbound(run[j - 1], run[j], k);
    }
  }

  // --- The calls as steps ------------------------------------------------------------

  /** A run that iommu_reserve found becomes an aperture in one step. */
  lemma ReservingIsStep(s: Gart, r: Request, mask: int, x: ArenaState, y: ArenaState, p: nat) returns (t: Gart)
    requires r.align == mask + 1 && r.boundary > 0 && r.n > 0 && Granting(r, mask, x, y, p) && x.ptes == s.ptes
    ensures GartNext(s, t) && t.ptes == y.ptes && t.apertures == s.apertures + {Block(p, r.n)}
  {
    hide SpansBoundary, Masked, NextFit, Granted;
    assert IsFree(s.ptes, p + r.n - 1);
    t := s.(ptes := y.ptes, apertures := s.apertures + {Block(p, r.n)});
    assert ReserveStep(s, t, Block(p, r.n));
  }

  /** What Bind promises inside an aperture is a step, whether it is refused or not. */
  lemma BindingIsStep(s: Gart, a: Block, start: nat, pages: seq<nat>) returns (t: Gart)
    requires GartInv(s) && a in s.apertures && a.ofs <= start && start + |pages| <= a.ofs + a.n
    ensures start + |pages| <= |s.ptes| && GartNext(s, t)
    ensures t.ptes == if AllReserved(s.ptes, start, |pages|) then Bound(s.ptes, start, pages) else s.ptes
  {
    hide EntryMatchesOwner, Disjoint;
    assert Inside(|s.ptes|, a);
    t := if AllReserved(s.ptes, start, |pages|)
         then s.(ptes := Bound(s.ptes, start, pages), bound := Rebound(s.bound, start, |pages|, Some(pages)))
         else s;
    assert BindStep(s, t, a, start, pages);
  }

  /** So is what Unbind promises, and what Release promises for a whole aperture. */
  lemma UnbindingIsStep(s: Gart, a: Block, start: nat, n: nat) returns (t: Gart)
    requires a in s.apertures && a.ofs <= start && start + n <= a.ofs + a.n
    ensures GartNext(s, t) && t.ptes == MarkRange(s.ptes, start, n, RESERVED_PTE)
  {
    t := s.(ptes := MarkRange(s.ptes, start, n, RESERVED_PTE), bound := Rebound(s.bound, start, n, None));
    assert UnbindStep(s, t, a, start, n);
  }

  lemma ReleasingIsStep(s: Gart, a: Block) returns (t: Gart)
    requires GartInv(s) && a in s.apertures
    ensures a.ofs + a.n <= |s.ptes| && GartNext(s, t)
    ensures if AllReserved(s.ptes, a.ofs, a.n)
            then t.ptes == MarkRange(s.ptes, a.ofs, a.n, 0) && t.apertures == s.apertures - {a} else t == s
  {
    hide EntryMatchesOwner, Disjoint;
    assert Inside(|s.ptes|, a);
    t := if AllReserved(s.ptes, a.ofs, a.n)
         then s.(ptes := MarkRange(s.ptes, a.ofs, a.n, 0), apertures := s.apertures - {a})
         else s;
    assert ReleaseStep(s, t, a);
  }
}
