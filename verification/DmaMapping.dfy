/** Mapping and unmapping one buffer: the direct window, the DAC range and the two IOMMU
    windows of a host bridge, and what a device reaches through each. */
module DmaMapping {
  import opened Arith
  import opened IommuArena

  const ISA_DMA_MASK: nat := 0x00ff_ffff

  /** Machine constants: the direct-map window, the DAC offset (0 if there is none), and
      whether the chip has a buffer-invalidate routine (no IOMMU use without one). */
  datatype Platform = Platform(directBase: nat, directSize: nat, dacOffset: nat, hasTbi: bool)

  datatype Device = Device(mask: nat, segBoundary: nat, maxSegSize: nat, isaBridge: bool)

  function MaxDma(dev: Option<Device>): nat {
    if dev.Some? then dev.value.mask else ISA_DMA_MASK
  }

  /** The segment boundary in pages; 4 GB for requests without a device. */
  function Boundary(dev: Option<Device>): nat {
    if dev.Some? then (dev.value.segBoundary + 1) / PAGE_SIZE else 0x8_0000
  }

  /** Only the ISA bridge forces an alignment, to 64 KB. */
  function AlignFor(dev: Option<Device>): nat {
    if dev.Some? && dev.value.isaBridge then 8 else 0
  }

  ghost predicate DeviceOk(dev: Option<Device>) {
    Boundary(dev) > 0 && IsPow2(Boundary(dev))
  }

  datatype Route = Direct | Dac | NoIommu | Iommu

  predicate DirectOk(plat: Platform, paddr: nat, size: nat, maxDma: nat) {
    U64(paddr + size + plat.directBase - 1) <= maxDma && paddr + size <= plat.directSize
  }

  function RouteFor(plat: Platform, paddr: nat, size: nat, maxDma: nat, dacAllowed: bool): Route {
    if DirectOk(plat, paddr, size, maxDma) then Direct
    else if dacAllowed then Dac
    else if !plat.hasTbi then NoIommu
    else Iommu
  }

  predicate InDirectWindow(plat: Platform, bus: nat) {
    plat.directBase <= bus < plat.directBase + plat.directSize
  }

  // --- What a device may be given --------------------------------------------------

  predicate DirectByte(plat: Platform, mask: nat, paddr: nat, k: nat) {
    paddr + k < plat.directSize && plat.directBase + paddr + k <= mask
  }

  /** Every byte of the buffer lies in the direct window, at a bus address the device can drive. */
  ghost predicate DirectServes(plat: Platform, mask: nat, paddr: nat, size: nat) {
    forall k: nat | k < size :: DirectByte(plat, mask, paddr, k)
  }

  /** The direct window ends within the 64-bit bus. */
  predicate FitsBus(plat: Platform) {
    plat.directBase + plat.directSize <= U64_MODULUS
  }

  /** The two comparisons of the direct route are exactly that every byte is served. */
  lemma DirectOkMeans(plat: Platform, paddr: nat, size: nat, mask: nat)
    requires size > 0 && FitsBus(plat)
    ensures DirectOk(plat, paddr, size, mask) <==> DirectServes(plat, mask, paddr, size)
  {
    if DirectServes(plat, mask, paddr, size) {
      assert DirectByte(plat, mask, paddr, size - 1);
      U64Small(paddr + size + plat.directBase - 1);
    }
    if DirectOk(plat, paddr, size, mask) {
      U64Small(paddr + size + plat.directBase - 1);
    }
  }

  /** A multiple of s lies strictly inside the len bytes from addr on. */
  ghost predicate CrossesMultiple(addr: nat, len: nat, s: nat) {
    exists q: nat :: addr < q * s < addr + len
  }

  /** Pages off every multiple of a boundary, in pages, are bytes off every multiple of it, in
      bytes. */
  lemma BytesOffBoundary(r: Request, p: nat, addr: nat, len: nat, s: nat)
    requires r.boundary > 0 && !SpansBoundary(r, p) && s == r.boundary * PAGE_SIZE
    requires (r.base + p) * PAGE_SIZE <= addr && addr + len <= (r.base + p + r.n) * PAGE_SIZE
    ensures !CrossesMultiple(addr, len, s)
  {
    SpanMeansCrossing(r, p);
    forall q: nat
      ensures !(addr < q * s < addr + len)
    {
      if addr < q * s < addr + len {
        PagesBetween(r.base + p, q * r.boundary, r.base + p + r.n, q, r.boundary);
        assert false;
      }
    }
  }

  lemma PagesBetween(lo: nat, x: nat, hi: nat, q: nat, b: nat)
    requires x == q * b && lo * PAGE_SIZE < q * (b * PAGE_SIZE) < hi * PAGE_SIZE
    ensures lo < q * b < hi
  {
    assert q * (b * PAGE_SIZE) == x * PAGE_SIZE;
  }

  // --- What a device reaches -----------------------------------------------------

  datatype Window = Window(base: nat, ptes: seq<nat>)

  predicate Within(w: Window, bus: nat) {
    w.base <= bus < w.base + |w.ptes| * PAGE_SIZE
  }

  /** The physical address behind a bus address of an IOMMU window. */
  function Lookup(w: Window, bus: nat): Option<nat>
    requires Within(w, bus)
  {
    var pte := w.ptes[(bus - w.base) / PAGE_SIZE];
    if PteValid(pte) then Some(PtePage(pte) + bus % PAGE_SIZE) else None
  }

  datatype BusView = BusView(plat: Platform, pci: Option<Window>, isa: Window)

  function Translate(v: BusView, bus: nat): Option<nat> {
    if InDirectWindow(v.plat, bus) then Some(bus - v.plat.directBase)
    else if bus > 0xffff_ffff then
      (if v.plat.dacOffset != 0 && bus >= v.plat.dacOffset then Some(bus - v.plat.dacOffset) else None)
    else if v.pci.Some? && Within(v.pci.value, bus) then Lookup(v.pci.value, bus)
    else if Within(v.isa, bus) then Lookup(v.isa, bus)
    else None
  }

  predicate ReachesAt(v: BusView, bus: nat, paddr: nat, k: nat) {
    Translate(v, bus + k) == Some(paddr + k)
  }

  /** Byte for byte, the device that starts at `bus` reaches the buffer at `paddr`. */
  ghost predicate Reaches(v: BusView, bus: nat, paddr: nat, size: nat) {
    forall k: nat | k < size :: ReachesAt(v, bus, paddr, k)
  }

  /** The windows are apart: ISA below PCI, both below 4 GB and clear of the direct map,
      the DAC range above all of them. */
  ghost predicate Apart(v: BusView) {
    ApartExtents(v.plat, ExtentOf(v.isa), if v.pci.Some? then Some(ExtentOf(v.pci.value)) else None)
  }

  /** Where a window lies and how many entries it has. */
  datatype Extent = Extent(base: nat, count: nat)

  function ExtentOf(w: Window): Extent {
    Extent(w.base, |w.ptes|)
  }

  ghost predicate ApartExtents(plat: Platform, isa: Extent, pci: Option<Extent>) {
    && ClearOfDirect(plat, isa)
    && (pci.Some? ==> ClearOfDirect(plat, pci.value) && isa.base + isa.count * PAGE_SIZE <= pci.value.base)
    && (plat.dacOffset != 0 ==>
          plat.dacOffset >= 0x1_0000_0000 && plat.directBase + plat.directSize <= plat.dacOffset)
  }

  ghost predicate ClearOfDirect(plat: Platform, e: Extent) {
    && e.base % PAGE_SIZE == 0
    && e.base + e.count * PAGE_SIZE <= 0x1_0000_0000
    && (plat.directBase + plat.directSize <= e.base || e.base + e.count * PAGE_SIZE <= plat.directBase)
  }

  /** The window that serves mappings made with this mask: the PCI one if there is one and
      the device can address all of it. */
  function ServingWindow(v: BusView, maxDma: nat): Window {
    if UsesIsa(v, maxDma) then v.isa else v.pci.value
  }

  predicate UsesIsa(v: BusView, maxDma: nat) {
    v.pci.None? || v.pci.value.base + |v.pci.value.ptes| * PAGE_SIZE - 1 > maxDma
  }

  lemma DirectReaches(v: BusView, paddr: nat, size: nat, maxDma: nat)
    requires DirectOk(v.plat, paddr, size, maxDma)
    ensures Reaches(v, paddr + v.plat.directBase, paddr, size)
  {}

  lemma DacReaches(v: BusView, paddr: nat, size: nat)
    requires Apart(v) && v.plat.dacOffset != 0
    ensures Reaches(v, paddr + v.plat.dacOffset, paddr, size)
  {}

  /** Inside its window a bus address is translated by the window's table. */
  lemma WindowTranslates(v: BusView, maxDma: nat, bus: nat)
    requires Apart(v) && Within(ServingWindow(v, maxDma), bus)
    ensures Translate(v, bus) == Lookup(ServingWindow(v, maxDma), bus)
  {}

  // --- A mapping written out -----------------------------------------------------

  /** The page frame of the i-th page after the one that holds paddr. */
  function Frame(paddr: nat, i: nat): nat {
    paddr - paddr % PAGE_SIZE + i * PAGE_SIZE
  }

  function Fill(ptes: seq<nat>, ofs: nat, n: nat, paddr: nat): (r: seq<nat>)
    ensures |r| == |ptes|
    ensures forall k | 0 <= k < |ptes| ::
              r[k] == if ofs <= k < ofs + n then MkPte(Frame(paddr, k - ofs)) else ptes[k]
  {
    seq(|ptes|, k requires 0 <= k < |ptes| => Filled(ptes, ofs, n, paddr, k))
  }

  function Filled(ptes: seq<nat>, ofs: nat, n: nat, paddr: nat, k: nat): nat
    requires k < |ptes|
  {
    if ofs <= k < ofs + n then MkPte(Frame(paddr, k - ofs)) else ptes[k]
  }

  /** Byte k of the buffer is reached at byte k of the mapping. */
  lemma FilledPagesTranslate(w: Window, ofs: nat, paddr: nat, size: nat, k: nat)
    requires w.base % PAGE_SIZE == 0 && ofs + NumPages(paddr, size) <= |w.ptes| && k < size
    requires forall j | ofs <= j < ofs + NumPages(paddr, size) :: w.ptes[j] == MkPte(Frame(paddr, j - ofs))
    ensures var bus := w.base + ofs * PAGE_SIZE + paddr % PAGE_SIZE + k;
            Within(w, bus) && Lookup(w, bus) == Some(paddr + k)
  {
    hide MkPte, PtePage, PteValid, NumPages;
    var off := paddr % PAGE_SIZE;
    var i := (off + k) / PAGE_SIZE;
    PageOfByte(w.base / PAGE_SIZE, ofs, off, k, size);
    SameOffsetSamePages(off, paddr, size);
    FrameNamed(paddr, i);
  }

  lemma FrameNamed(paddr: nat, i: nat)
    ensures PteValid(MkPte(Frame(paddr, i)))
    ensures PtePage(MkPte(Frame(paddr, i))) == Frame(paddr, i)
  {
    hide MkPte, PtePage, PteValid, Frame;
    FrameAligned(paddr, i);
    MadePteNamesPage(Frame(paddr, i));
  }

  lemma FrameAligned(paddr: nat, i: nat)
    ensures Frame(paddr, i) % PAGE_SIZE == 0
  {
    assert Frame(paddr, i) == (paddr / PAGE_SIZE + i) * PAGE_SIZE;
    MultipleHasNoRemainder(paddr / PAGE_SIZE + i, PAGE_SIZE);
  }

  lemma PageOfByte(b: nat, ofs: nat, off: nat, k: nat, size: nat)
    requires k < size && off < PAGE_SIZE
    ensures var bus, i := b * PAGE_SIZE + ofs * PAGE_SIZE + off + k, (off + k) / PAGE_SIZE;
            (bus - b * PAGE_SIZE) / PAGE_SIZE == ofs + i &&
            bus % PAGE_SIZE == off + k - i * PAGE_SIZE &&
            i < NumPages(off, size)
  {}

  lemma WindowReaches(v: BusView, maxDma: nat, ofs: nat, paddr: nat, size: nat)
    requires Apart(v)
    requires var w := ServingWindow(v, maxDma);
             ofs + NumPages(paddr, size) <= |w.ptes| &&
             forall j | ofs <= j < ofs + NumPages(paddr, size) :: w.ptes[j] == MkPte(Frame(paddr, j - ofs))
    ensures Reaches(v, ServingWindow(v, maxDma).base + ofs * PAGE_SIZE + paddr % PAGE_SIZE, paddr, size)
  {
    hide NumPages, Lookup, Apart, Translate, MkPte;
    var w := ServingWindow(v, maxDma);
    var bus := w.base + ofs * PAGE_SIZE + paddr % PAGE_SIZE;
    assert w.base % PAGE_SIZE == 0 by { AlignedWindow(v, maxDma); }
    forall k: nat | k < size
      ensures ReachesAt(v, bus, paddr, k)
    {
      FilledPagesTranslate(w, ofs, paddr, size, k);
      WindowTranslates(v, maxDma, bus + k);
    }
  }

  lemma AlignedWindow(v: BusView, maxDma: nat)
    requires Apart(v)
    ensures ServingWindow(v, maxDma).base % PAGE_SIZE == 0
  {}

  // --- One buffer through the IOMMU -------------------------------------------------

  /** The request that a mapping of [paddr, paddr + size) makes. */
  ghost function MapRequest(a: Arena, dev: Option<Device>, paddr: nat, size: nat): Request {
    a.RequestFor(NumPages(paddr, size), Max(AlignFor(dev), a.alignEntry), Boundary(dev))
  }

  /** From s to t, arena a served a mapping at entry p, or refused it with p == -1. */
  ghost predicate MappedThrough(r: Request, s: ArenaState, t: ArenaState, paddr: nat, p: int)
    requires r.align > 0 && r.boundary > 0
  {
    NextFit(s.ptes, s.next, r, p) &&
    t == if p < 0 then Granted(s, r, p, INVALID_PTE)
         else Granted(s, r, p, INVALID_PTE).(ptes := Fill(s.ptes, p, r.n, paddr))
  }

  /** The loop that stores the entries of one physically contiguous run. */
  method WritePages(arena: Arena, ofs: nat, n: nat, paddr: nat)
    requires n > 0 ==> ofs + n <= arena.ptes.Length
    modifies arena.ptes
    ensures arena.ptes[..] == Fill(old(arena.ptes[..]), ofs, n, paddr)
  {
    hide Frame, MkPte;
    for i := 0 to n
      invariant arena.ptes[..] == Fill(old(arena.ptes[..]), ofs, i, paddr)
    {
      arena.ptes[i + ofs] := MkPte(Frame(paddr, i));
    }
  }

  /** The IOMMU leg of pci_map_single_1: allocate, then write the entries. */
  method MapThrough(arena: Arena, dev: Option<Device>, paddr: nat, size: nat) returns (p: int)
    requires arena.Shape() && DeviceOk(dev)
    modifies arena, arena.ptes
    ensures MappedThrough(MapRequest(arena, dev, paddr, size), old(arena.State()), arena.State(), paddr, p)
    ensures p >= 0 && NumPages(paddr, size) > 0 ==> p + NumPages(paddr, size) <= arena.ptes.Length
  {
    hide AlignUp, SpansBoundary, IsPow2, NumPages, Frame, MkPte;
    var n := NumPages(paddr, size);
    EightIsPow2();
    ghost var was := arena.ptes[..];
    p := arena.Alloc(n, AlignFor(dev), Boundary(dev));
    if p < 0 { return; }
    assert n > 0 ==> IsFree(was, p + n - 1);
    WritePages(arena, p, n, paddr);
    assert arena.ptes[..] == Fill(was, p, n, paddr);
  }

  lemma MappedPagesReach(v: BusView, r: Request, s: ArenaState, t: ArenaState,
                         maxDma: nat, paddr: nat, size: nat, p: int)
    requires r.align > 0 && r.boundary > 0 && r.n == NumPages(paddr, size) && p >= 0
    requires MappedThrough(r, s, t, paddr, p)
    requires Apart(v) && ServingWindow(v, maxDma).ptes == t.ptes
    ensures Reaches(v, ServingWindow(v, maxDma).base + p * PAGE_SIZE + paddr % PAGE_SIZE, paddr, size)
  {
    hide AlignUp, SpansBoundary, NumPages, Frame, MkPte, Reaches, Apart;
    if r.n == 0 {
      NoPagesNoBytes(paddr, size);
      ReachesNothing(v, ServingWindow(v, maxDma).base + p * PAGE_SIZE + paddr % PAGE_SIZE, paddr);
    } else {
      assert IsFree(s.ptes, p + r.n - 1);
      WindowReaches(v, maxDma, p, paddr, size);
    }
  }

  lemma NoPagesNoBytes(paddr: nat, size: nat)
    requires NumPages(paddr, size) == 0
    ensures size == 0
  {}

  lemma ReachesNothing(v: BusView, bus: nat, paddr: nat)
    ensures Reaches(v, bus, paddr, 0)
  {}

  lemma EightIsPow2()
    ensures IsPow2(8)
  {
    assert Pow2(3) == 8;
  }

  /** Whether an unmap of bus address addr reaches the table of a window at all. */
  predicate TakesBack(plat: Platform, base: nat, size: nat, addr: nat) {
    !InDirectWindow(plat, addr) && addr <= 0xffff_ffff &&
    U64(addr - base) / PAGE_SIZE * PAGE_SIZE < size
  }

  /** The bogus-address test passes exactly for addresses at or above the window whose
      page lies in it. */
  lemma TakesBackMeansInside(plat: Platform, base: nat, size: nat, addr: nat)
    requires base % PAGE_SIZE == 0 && size % PAGE_SIZE == 0 && base + size <= 0x1_0000_0000
    ensures TakesBack(plat, base, size, addr) <==>
            !InDirectWindow(plat, addr) && base <= addr < base + size
    ensures TakesBack(plat, base, size, addr) ==> U64(addr - base) == addr - base
  {}

  /** The range lies in arena a's window, at the buffer's place in its page, and strictly inside
      it there is no multiple of the segment size. */
  ghost predicate ThroughWindow(a: Arena, seg: nat, paddr: nat, addr: nat, len: nat) {
    a.dmaBase <= addr && addr + len <= a.dmaBase + a.size && addr % PAGE_SIZE == paddr % PAGE_SIZE &&
    (seg % PAGE_SIZE == 0 ==> !CrossesMultiple(addr, len, seg))
  }

  /** Where a buffer, or a group of buffers, of len > 0 bytes belongs for a device with this mask
      and segment size: at its direct address if that serves every byte of it, else in the DAC
      range if that is allowed, else in the PCI window if the device can drive all of that
      window, else in the ISA window.  The first two need physically contiguous bytes. */
  ghost predicate Routed(h: Hose, plat: Platform, mask: nat, seg: nat, dacAllowed: bool, contiguous: bool,
                         paddr: nat, addr: int, len: nat)
  {
    FitsBus(plat) ==>
      if contiguous && DirectServes(plat, mask, paddr, len) then addr == paddr + plat.directBase
      else if contiguous && dacAllowed then addr == paddr + plat.dacOffset
      else
        plat.hasTbi && addr >= 0 &&
        ThroughWindow(if h.sgPci != null && h.sgPci.dmaBase + h.sgPci.size - 1 <= mask then h.sgPci else h.sgIsa,
                      seg, paddr, addr, len)
  }

  /** So the device can drive the whole range, unless it is a DAC range or in the ISA window. */
  lemma RoutedDrivable(h: Hose, plat: Platform, mask: nat, seg: nat, dacAllowed: bool, contiguous: bool,
                       paddr: nat, addr: int, len: nat)
    requires Routed(h, plat, mask, seg, dacAllowed, contiguous, paddr, addr, len) && FitsBus(plat) && len > 0
    ensures addr >= 0
    ensures addr + len - 1 <= mask || (contiguous && dacAllowed && addr == paddr + plat.dacOffset) ||
            h.sgIsa.dmaBase <= addr < addr + len <= h.sgIsa.dmaBase + h.sgIsa.size
  {
    if contiguous && DirectServes(plat, mask, paddr, len) {
      assert DirectByte(plat, mask, paddr, len - 1);
    }
  }

  /** There is no place in the table for the pages of these bytes. */
  ghost predicate NoRoom(a: Arena, ptes: seq<nat>, paddr: nat, size: nat, align: nat, boundary: nat)
    requires align > 0 && boundary > 0
  {
    NoCandidateFrom(ptes, Request(NumPages(paddr, size), align, a.dmaBase / PAGE_SIZE, boundary), 0)
  }

  /** There is no place for them in the table that serves this device. */
  ghost predicate NoRoomFor(h: Hose, dev: Option<Device>, ptes: seq<nat>, paddr: nat, size: nat) {
    var mask := if dev.Some? then dev.value.mask else 0xff_ffff;
    var a := if h.sgPci != null && h.sgPci.dmaBase + h.sgPci.size - 1 <= mask then h.sgPci else h.sgIsa;
    var boundary := if dev.Some? then (dev.value.segBoundary + 1) / PAGE_SIZE else 0x8_0000;
    a.alignEntry > 0 && boundary > 0 && NoRoom(a, ptes, paddr, size, a.alignEntry, boundary)
  }

  /** A next-fit grant for the bytes lies in the window and off the device's segment boundary. */
  lemma GrantThroughWindow(a: Arena, dev: Option<Device>, ptes: seq<nat>, next: nat, align: nat,
                           paddr: nat, size: nat, p: nat)
    requires a.Shape() && DeviceOk(dev) && align > 0 && size > 0 && |ptes| == a.ptes.Length
    requires NextFit(ptes, next, a.RequestFor(NumPages(paddr, size), align, Boundary(dev)), p)
    ensures ThroughWindow(a, if dev.Some? then dev.value.segBoundary + 1 else 0x1_0000_0000, paddr,
                          a.dmaBase + p * PAGE_SIZE + paddr % PAGE_SIZE, size)
  {
    hide AlignUp, SpansBoundary, NumPages, IsPow2;
    var r := a.RequestFor(NumPages(paddr, size), align, Boundary(dev));
    var addr: nat := a.dmaBase + p * PAGE_SIZE + paddr % PAGE_SIZE;
    var seg: nat := if dev.Some? then dev.value.segBoundary + 1 else 0x1_0000_0000;
    assert Candidate(ptes, r, p);
    if r.n == 0 { NoPagesNoBytes(paddr, size); }
    assert IsFree(ptes, p + r.n - 1);
    BytesInPages(paddr, size);
    SameOffset(a.dmaBase / PAGE_SIZE + p, paddr);
    if seg % PAGE_SIZE == 0 {
      assert seg == Boundary(dev) * PAGE_SIZE;
      BytesOffBoundary(r, p, addr, size, seg);
    }
  }

  lemma BytesInPages(paddr: nat, size: nat)
    ensures paddr % PAGE_SIZE + size <= NumPages(paddr, size) * PAGE_SIZE
  {}

  lemma SameOffset(q: nat, paddr: nat)
    ensures (q * PAGE_SIZE + paddr % PAGE_SIZE) % PAGE_SIZE == paddr % PAGE_SIZE
  {
    DivModUnique(q * PAGE_SIZE + paddr % PAGE_SIZE, PAGE_SIZE, q, paddr % PAGE_SIZE);
  }

  /** A power of two of at least eight is a multiple of eight. */
  lemma EightDivides(a: nat, p: nat)
    requires IsPow2(a) && a >= 8 && p % a == 0
    ensures p % 8 == 0
  {
    hide Pow2;
    var k: nat :| a == Pow2(k);
    assert Pow2(2) < 8 && Pow2(3) == 8 by { SmallPowers(); }
    if k < 3 { Pow2Grows(k, 2); }
    Pow2Sum(3, k - 3);
    DivMod(p, a);
    var x := p / a * Pow2(k - 3);
    assert p == x * 8 by { Regroup(p / a, 8, Pow2(k - 3)); }
    MultipleHasNoRemainder(x, 8);
  }

  lemma SmallPowers()
    ensures Pow2(2) == 4 && Pow2(3) == 8
  {
    assert Pow2(1) == 2;
  }

  lemma Regroup(x: nat, y: nat, z: nat)
    ensures x * (y * z) == (x * z) * y
  {}

  /** Why a single buffer is refused: its direct address is bus address 0, which reads as a
      failure; or it has no direct and no DAC route, and there is no IOMMU or no room in it. */
  ghost predicate SingleRefused(plat: Platform, dev: Option<Device>, a: Arena, mask: nat, ptes: seq<nat>,
                                dacAllowed: bool, paddr: nat, size: nat)
    requires DeviceOk(dev) && a.alignEntry > 0
  {
    if DirectServes(plat, mask, paddr, size) then paddr + plat.directBase == 0
    else
      !dacAllowed &&
      (plat.hasTbi ==>
         NoRoom(a, ptes, paddr, size,
                Max(if dev.Some? && dev.value.isaBridge then 8 else 0, a.alignEntry),
                if dev.Some? then (dev.value.segBoundary + 1) / PAGE_SIZE else 0x8_0000))
  }

  class Hose {
    const sgPci: Arena?
    const sgIsa: Arena

    constructor (pci: Arena?, isa: Arena)
      ensures sgPci == pci && sgIsa == isa
    {
      sgPci, sgIsa := pci, isa;
    }

    ghost function View(plat: Platform): BusView
      reads sgIsa.ptes, if sgPci == null then {} else {sgPci.ptes}
    {
      BusView(plat, if sgPci == null then None else Some(Window(sgPci.dmaBase, sgPci.ptes[..])),
              Window(sgIsa.dmaBase, sgIsa.ptes[..]))
    }

    ghost predicate Valid(plat: Platform) {
      && sgIsa.Shape()
      && (sgPci != null ==> sgPci.Shape() && sgPci != sgIsa && sgPci.ptes != sgIsa.ptes)
      && ApartExtents(plat, Extent(sgIsa.dmaBase, sgIsa.ptes.Length),
                      if sgPci == null then None else Some(Extent(sgPci.dmaBase, sgPci.ptes.Length)))
    }

    function MapArena(maxDma: nat): Arena {
      if sgPci == null || sgPci.dmaBase + sgPci.size - 1 > maxDma then sgIsa else sgPci
    }

    function UnmapArena(addr: nat): Arena {
      if sgPci == null || addr < sgPci.dmaBase then sgIsa else sgPci
    }

    /** pci_map_single_1; a bus address of 0 reports failure.  The ghost result is what
        the search answered, when it ran. */
    method MapSingle(plat: Platform, dev: Option<Device>, paddr: nat, size: nat, dacAllowed: bool)
      returns (ret: nat, ghost p: int)
      requires Valid(plat) && DeviceOk(dev) && (dacAllowed ==> plat.dacOffset != 0)
      modifies MapArena(MaxDma(dev)), MapArena(MaxDma(dev)).ptes
      ensures var a, route := MapArena(MaxDma(dev)), RouteFor(plat, paddr, size, MaxDma(dev), dacAllowed);
              (route != Iommu ==> a.State() == old(a.State())) &&
              (route == Direct ==> ret == paddr + plat.directBase) &&
              (route == Dac ==> ret == paddr + plat.dacOffset) &&
              (route == NoIommu ==> ret == 0) &&
              (route == Iommu ==>
                MappedThrough(MapRequest(a, dev, paddr, size), old(a.State()), a.State(), paddr, p) &&
                ret == if p < 0 then 0 else a.dmaBase + p * PAGE_SIZE + paddr % PAGE_SIZE)
      ensures ret != 0 ==> Reaches(View(plat), ret, paddr, size)
      ensures var mask := if dev.Some? then dev.value.mask else 0xff_ffff;
              var seg := if dev.Some? then dev.value.segBoundary + 1 else 0x1_0000_0000;
              ret != 0 && size > 0 ==> Routed(this, plat, mask, seg, dacAllowed, true, paddr, ret, size)
      ensures var mask := if dev.Some? then dev.value.mask else 0xff_ffff;
              (dev.Some? && dev.value.isaBridge && FitsBus(plat) && size > 0 && ret != 0 &&
               !DirectServes(plat, mask, paddr, size) && !dacAllowed) ==> p >= 0 && p % 8 == 0
      ensures var mask := if dev.Some? then dev.value.mask else 0xff_ffff;
              var a := if sgPci != null && sgPci.dmaBase + sgPci.size - 1 <= mask then sgPci else sgIsa;
              FitsBus(plat) && size > 0 && ret == 0 ==>
                SingleRefused(plat, dev, a, mask, old(a.ptes[..]), dacAllowed, paddr, size)
    {
      hide ApartExtents, Reaches, NumPages, DirectOk, AlignUp, IsPow2, Routed, DirectServes, SingleRefused,
        MappedThrough, FitsBus;
      p := -1;
      var maxDma := MaxDma(dev);
      ghost var was := MapArena(maxDma).State();
      if DirectOk(plat, paddr, size, maxDma) {
        DirectReaches(View(plat), paddr, size, maxDma);
        ret := paddr + plat.directBase;
      } else if dacAllowed {
        DacReaches(View(plat), paddr, size);
        ret := paddr + plat.dacOffset;
      } else if !plat.hasTbi {
        ret := 0;
      } else {
        var arena := MapArena(maxDma);
        var ofs := MapThrough(arena, dev, paddr, size);
        p := ofs;
        if ofs < 0 {
          ret := 0;
        } else {
          ret := arena.dmaBase + ofs * PAGE_SIZE + paddr % PAGE_SIZE;
          assert ServingWindow(View(plat), maxDma) == Window(arena.dmaBase, arena.ptes[..]);
          MappedPagesReach(View(plat), MapRequest(arena, dev, paddr, size), was, arena.State(),
                           maxDma, paddr, size, p);
        }
      }
      if size > 0 { SingleRouted(this, plat, dev, paddr, size, dacAllowed, was, MapArena(maxDma).State(), ret, p); }
    }

    /** pci_unmap_single.  Past the bogus-address test the code trusts its caller: the
        segment must lie in the table. */
    method UnmapSingle(plat: Platform, addr: nat, size: nat)
      requires Valid(plat)
      requires var a, g := UnmapArena(addr), Segment(addr, size);
               TakesBack(plat, a.dmaBase, a.size, addr) ==>
                 a.dmaBase <= addr && FirstPte(a.dmaBase, g) + PteCount(g) <= a.ptes.Length
      modifies UnmapArena(addr), UnmapArena(addr).ptes
      ensures var a := UnmapArena(addr);
              a.State() == if TakesBack(plat, a.dmaBase, a.size, addr)
                           then UnmapOne(old(a.State()), a.dmaBase, Segment(addr, size)) else old(a.State())
    {
      hide NumPages, U64;
      var arena := UnmapArena(addr);
      var ofs := U64(addr - arena.dmaBase) / PAGE_SIZE;
      if InDirectWindow(plat, addr) || addr > 0xffff_ffff || ofs * PAGE_SIZE >= arena.size { return; }
      U64Small(addr - arena.dmaBase);
      var n := NumPages(addr, size);
      arena.Free(ofs, n);
      if ofs >= arena.nextEntry {
        arena.FlushTlb(addr, addr + size - 1);
      }
    }
  }

  /** What the route taken by pci_map_single_1 means for the device. */
  lemma SingleRouted(h: Hose, plat: Platform, dev: Option<Device>, paddr: nat, size: nat, dacAllowed: bool,
                     s: ArenaState, t: ArenaState, ret: nat, p: int)
    requires h.Valid(plat) && DeviceOk(dev) && size > 0 && |s.ptes| == h.MapArena(MaxDma(dev)).ptes.Length
    requires dacAllowed ==> plat.dacOffset != 0
    requires var a, route := h.MapArena(MaxDma(dev)), RouteFor(plat, paddr, size, MaxDma(dev), dacAllowed);
             (route == Direct ==> ret == paddr + plat.directBase) &&
             (route == Dac ==> ret == paddr + plat.dacOffset) &&
             (route == NoIommu ==> ret == 0) &&
             (route == Iommu ==>
               MappedThrough(MapRequest(a, dev, paddr, size), s, t, paddr, p) &&
               ret == if p < 0 then 0 else a.dmaBase + p * PAGE_SIZE + paddr % PAGE_SIZE)
    ensures var mask := if dev.Some? then dev.value.mask else 0xff_ffff;
            var seg := if dev.Some? then dev.value.segBoundary + 1 else 0x1_0000_0000;
            ret != 0 ==> Routed(h, plat, mask, seg, dacAllowed, true, paddr, ret, size)
    ensures var mask := if dev.Some? then dev.value.mask else 0xff_ffff;
            (dev.Some? && dev.value.isaBridge && FitsBus(plat) && ret != 0 &&
             !DirectServes(plat, mask, paddr, size) && !dacAllowed) ==> p >= 0 && p % 8 == 0
    ensures var mask := if dev.Some? then dev.value.mask else 0xff_ffff;
            var a := if h.sgPci != null && h.sgPci.dmaBase + h.sgPci.size - 1 <= mask then h.sgPci else h.sgIsa;
            FitsBus(plat) && ret == 0 ==> SingleRefused(plat, dev, a, mask, s.ptes, dacAllowed, paddr, size)
  {
    hide ApartExtents, NumPages, DirectOk, AlignUp, IsPow2, DirectServes, ThroughWindow, NextFit, NoRoom, MappedThrough;
    var mask := MaxDma(dev);
    if FitsBus(plat) { DirectOkMeans(plat, paddr, size, mask); }
    if RouteFor(plat, paddr, size, mask, dacAllowed) == Iommu {
      IommuRouted(h.MapArena(mask), dev, paddr, size, s, t, p);
    }
  }

  lemma IommuRouted(a: Arena, dev: Option<Device>, paddr: nat, size: nat, s: ArenaState, t: ArenaState, p: int)
    requires a.Shape() && DeviceOk(dev) && size > 0 && |s.ptes| == a.ptes.Length
    requires MappedThrough(MapRequest(a, dev, paddr, size), s, t, paddr, p)
    ensures p >= 0 ==>
              ThroughWindow(a, if dev.Some? then dev.value.segBoundary + 1 else 0x1_0000_0000, paddr,
                            a.dmaBase + p * PAGE_SIZE + paddr % PAGE_SIZE, size)
    ensures p >= 0 && dev.Some? && dev.value.isaBridge ==> p % 8 == 0
    ensures p < 0 ==>
              NoRoom(a, s.ptes, paddr, size,
                     Max(if dev.Some? && dev.value.isaBridge then 8 else 0, a.alignEntry),
                     if dev.Some? then (dev.value.segBoundary + 1) / PAGE_SIZE else 0x8_0000)
  {
    hide NumPages, AlignUp, IsPow2, ThroughWindow, SpansBoundary;
    var align := Max(AlignFor(dev), a.alignEntry);
    var r := MapRequest(a, dev, paddr, size);
    if p >= 0 {
      GrantThroughWindow(a, dev, s.ptes, s.next, align, paddr, size, p);
      assert Candidate(s.ptes, r, p);
      if dev.Some? && dev.value.isaBridge {
        EightIsPow2();
        EightDivides(align, p);
      }
    }
  }

  /** The address that a mapping returned leads the unmap back to the same arena, the same
      first entry and the same number of entries, whatever happened in between. */
  lemma UnmapFindsMapping(h: Hose, plat: Platform, maxDma: nat, paddr: nat, size: nat, p: nat)
    requires h.Valid(plat) && NumPages(paddr, size) > 0
    requires p + NumPages(paddr, size) <= h.MapArena(maxDma).ptes.Length
    ensures var a := h.MapArena(maxDma);
            var g := Segment(a.dmaBase + p * PAGE_SIZE + paddr % PAGE_SIZE, size);
            h.UnmapArena(g.addr) == a && TakesBack(plat, a.dmaBase, a.size, g.addr) &&
            FirstPte(a.dmaBase, g) == p && PteCount(g) == NumPages(paddr, size)
  {
    hide NumPages, TakesBack;
    var a := h.MapArena(maxDma);
    var addr := a.dmaBase + p * PAGE_SIZE + paddr % PAGE_SIZE;
    assert addr % PAGE_SIZE == paddr % PAGE_SIZE;
    SameOffsetSamePages(addr, paddr, size);
    TakesBackMeansInside(plat, a.dmaBase, a.size, addr);
  }

  /** Unmapping takes back exactly what mapping put there: if w is any table without the
      mapping, reached through whatever other calls, and u is w with the mapping written
      in, then unmapping u gives w. */
  lemma UnmapUndoesMap(w: seq<nat>, u: ArenaState, base: nat, g: Segment, p: nat, paddr: nat)
    requires base <= g.addr && FirstPte(base, g) == p
    requires AllFree(w, p, PteCount(g)) && u.ptes == Fill(w, p, PteCount(g), paddr)
    ensures UnmapOne(u, base, g).ptes == w
  {
    forall k | 0 <= k < |w|
      ensures UnmapOne(u, base, g).ptes[k] == w[k]
    {
      assert p <= k < p + PteCount(g) ==> IsFree(w, k);
    }
  }
}
