/** The PCI IOMMU arena: a table of page-table entries, the next-fit search over it,
    and the chip's translation buffer, which caches entries of that table. */
module IommuArena {
  import opened Arith

  const INVALID_PTE: nat := 0x2      // in use, not yet translating
  const RESERVED_PTE: nat := 0xface  // held by the AGP aperture, not bound

  /** `(paddr >> (PAGE_SHIFT - 1)) | 1` */
  function MkPte(paddr: nat): nat {
    var v := paddr / 4096;
    if v % 2 == 0 then v + 1 else v
  }

  predicate PteValid(pte: nat) {
    pte % 2 == 1
  }

  /** The page frame address that a valid entry names. */
  function PtePage(pte: nat): nat {
    pte / 2 * PAGE_SIZE
  }

  /** A made entry is valid and names the page that holds paddr; hence it is none of
      the three even markers 0, INVALID_PTE and RESERVED_PTE. */
  lemma MadePteNamesPage(paddr: nat)
    ensures PteValid(MkPte(paddr))
    ensures PtePage(MkPte(paddr)) == paddr - paddr % PAGE_SIZE
  {
    var v := paddr / 4096;
    assert v / 2 == paddr / 8192;
    assert MkPte(paddr) / 2 == v / 2;
  }

  /** What an allocation asks for: n entries, start a multiple of `align`, and, with the
      window starting at bus page `base`, no crossing of a multiple of `boundary`. */
  datatype Request = Request(n: nat, align: nat, base: nat, boundary: nat)

  /** iommu_is_span_boundary */
  predicate SpansBoundary(r: Request, p: nat)
    requires r.boundary > 0
  {
    (r.base + p) % r.boundary + r.n > r.boundary
  }

  /** The span test is exactly "a boundary multiple lies strictly inside the run". */
  lemma SpanMeansCrossing(r: Request, p: nat)
    requires r.boundary > 0
    ensures SpansBoundary(r, p) <==>
            exists m: nat :: r.base + p < m * r.boundary < r.base + p + r.n
  {
    var x, b := r.base + p, r.boundary;
    var q := x / b;
    assert x == q * b + x % b;
    assert (q + 1) * b == q * b + b;
    if SpansBoundary(r, p) {
      assert x < (q + 1) * b < x + r.n;
    }
    if m: nat :| x < m * b < x + r.n {
      assert m >= q + 1 by {
        if m < q { MulGap(m, q, b); }
      }
      if q + 1 < m { MulGap(q + 1, m, b); }
    }
  }

  ghost predicate IsFree(ptes: seq<nat>, k: nat) {
    k < |ptes| && ptes[k] == 0
  }

  ghost predicate AllFree(ptes: seq<nat>, p: nat, n: nat) {
    forall k: nat | p <= k < p + n :: IsFree(ptes, k)
  }

  /** p is a place where the request can be granted. */
  ghost predicate Candidate(ptes: seq<nat>, r: Request, p: nat)
    requires r.align > 0 && r.boundary > 0
  {
    p % r.align == 0 && AllFree(ptes, p, r.n) && !SpansBoundary(r, p)
  }

  ghost predicate NoCandidateIn(ptes: seq<nat>, r: Request, lo: nat, hi: nat)
    requires r.align > 0 && r.boundary > 0
  {
    forall q: nat | lo <= q < hi :: !Candidate(ptes, r, q)
  }

  ghost predicate NoCandidateFrom(ptes: seq<nat>, r: Request, lo: nat)
    requires r.align > 0 && r.boundary > 0
  {
    forall q: nat | lo <= q :: !Candidate(ptes, r, q)
  }

  /** Whether a search starting at `next` runs off the end and starts again at 0. */
  ghost predicate Wraps(ptes: seq<nat>, next: nat, r: Request)
    requires r.align > 0 && r.boundary > 0
  {
    NoCandidateFrom(ptes, r, AlignUp(next, r.align))
  }

  /** Next fit: the least candidate at or after the aligned `next`; failing that the
      least candidate of all; failing that -1. */
  ghost predicate NextFit(ptes: seq<nat>, next: nat, r: Request, p: int)
    requires r.align > 0 && r.boundary > 0
  {
    var start := AlignUp(next, r.align);
    if !Wraps(ptes, next, r) then
      p >= start && Candidate(ptes, r, p) && NoCandidateIn(ptes, r, start, p)
    else if !NoCandidateFrom(ptes, r, 0) then
      p >= 0 && Candidate(ptes, r, p) && NoCandidateIn(ptes, r, 0, p)
    else
      p == -1
  }

  /** A run of r.n free entries at p crosses no boundary. */
  ghost predicate Fits(ptes: seq<nat>, r: Request, p: nat)
    requires r.boundary > 0
  {
    AllFree(ptes, p, r.n) && !SpansBoundary(r, p)
  }

  /** For a mask one less than a power of two: no candidate lies between `from` and q. */
  ghost predicate Searched(ptes: seq<nat>, r: Request, mask: int, from: nat, q: nat)
    requires r.boundary > 0 && r.align == mask + 1
  {
    Pow2Mask(mask) ==> NoCandidateIn(ptes, r, from, q)
  }

  /** For such a mask: no candidate lies at `from` or after. */
  ghost predicate Missed(ptes: seq<nat>, r: Request, mask: int, from: nat)
    requires r.boundary > 0 && r.align == mask + 1
  {
    Pow2Mask(mask) ==> NoCandidateFrom(ptes, r, from)
  }

  function MarkRange(ptes: seq<nat>, p: nat, n: nat, v: nat): (r: seq<nat>)
    ensures |r| == |ptes|
    ensures forall k | 0 <= k < |ptes| :: r[k] == if p <= k < p + n then v else ptes[k]
  {
    seq(|ptes|, k requires 0 <= k < |ptes| => if p <= k < p + n then v else ptes[k])
  }

  /** The cached translations that survive a flush of bus addresses [first, last], for a
      window starting at bus address `base`. */
  function FlushRange(tlb: map<nat, nat>, base: nat, first: nat, last: int): map<nat, nat> {
    map k | k in tlb && !(first < base + (k + 1) * PAGE_SIZE && base + k * PAGE_SIZE <= last) :: tlb[k]
  }

  datatype ArenaState = ArenaState(ptes: seq<nat>, next: nat, tlb: map<nat, nat>)

  /** The state after an allocation for which the search answered p. */
  ghost function Granted(s: ArenaState, r: Request, p: int, mark: nat): ArenaState
    requires r.align > 0 && r.boundary > 0
  {
    var tlb := if Wraps(s.ptes, s.next, r) then map[] else s.tlb;
    if p < 0 then s.(tlb := tlb)
    else ArenaState(MarkRange(s.ptes, p, r.n, mark), p + r.n, tlb)
  }

  /** A mapped stretch of bus addresses, as an unmap call names it. */
  datatype Segment = Segment(addr: nat, len: nat)

  /** The page-table entries that `seg` occupies: [FirstPte, FirstPte + PteCount). */
  function FirstPte(base: nat, seg: Segment): nat
    requires base <= seg.addr
  {
    (seg.addr - base) / PAGE_SIZE
  }

  function PteCount(seg: Segment): nat {
    NumPages(seg.addr, seg.len)
  }

  /** What pci_unmap_single does to the arena. */
  function UnmapOne(s: ArenaState, base: nat, seg: Segment): ArenaState
    requires base <= seg.addr
  {
    var ofs := FirstPte(base, seg);
    ArenaState(MarkRange(s.ptes, ofs, PteCount(seg), 0), s.next,
               if ofs >= s.next then FlushRange(s.tlb, base, seg.addr, seg.addr + seg.len - 1) else s.tlb)
  }

  function FreeAll(ptes: seq<nat>, base: nat, segs: seq<Segment>): (r: seq<nat>)
    requires forall g | g in segs :: base <= g.addr
    ensures |r| == |ptes|
  {
    if segs == [] then ptes
    else
      var last := segs[|segs| - 1];
      MarkRange(FreeAll(ptes, base, segs[..|segs| - 1]), FirstPte(base, last), PteCount(last), 0)
  }

  /** fbeg and fend: the least first and greatest last bus address among the segments. */
  function FlushBegin(segs: seq<Segment>): nat {
    if segs == [] then U64(-1)
    else
      var b, last := FlushBegin(segs[..|segs| - 1]), segs[|segs| - 1];
      if b > last.addr then last.addr else b
  }

  function FlushEnd(segs: seq<Segment>): nat {
    if segs == [] then 0
    else
      var e, last := FlushEnd(segs[..|segs| - 1]), segs[|segs| - 1];
      if e < last.addr + last.len - 1 then last.addr + last.len - 1 else e
  }

  /** What pci_unmap_sg does to the arena: free everything, then decide on one flush.
      The subtraction is unsigned: with no segment at all it wraps. */
  function UnmapAll(s: ArenaState, base: nat, segs: seq<Segment>): ArenaState
    requires forall g | g in segs :: base <= g.addr
  {
    ArenaState(FreeAll(s.ptes, base, segs), s.next,
               if U64(FlushEnd(segs) - base) / PAGE_SIZE >= s.next
               then FlushRange(s.tlb, base, FlushBegin(segs), FlushEnd(segs)) else s.tlb)
  }

  class Arena {
    const dmaBase: nat     // bus address of the window
    const size: nat        // bytes in the window
    const alignEntry: nat
    const ptes: array<nat>
    var nextEntry: nat
    var tlb: map<nat, nat> // the part of the chip's buffer that caches this table

    /** Facts fixed when the window is created. */
    ghost predicate Shape() {
      ptes.Length == size / PAGE_SIZE && alignEntry > 0 && IsPow2(alignEntry) &&
      dmaBase > 0 && dmaBase % PAGE_SIZE == 0 && size % PAGE_SIZE == 0 &&
      dmaBase + size <= 0x1_0000_0000
    }

    ghost function State(): ArenaState
      reads this, ptes
    {
      ArenaState(ptes[..], nextEntry, tlb)
    }

    /** The request an allocation of n entries makes of this arena. */
    function RequestFor(n: nat, align: nat, boundary: nat): Request {
      Request(n, align, dmaBase / PAGE_SIZE, boundary)
    }

    /** iommu_arena_new: an empty table. */
    constructor (base: nat, windowSize: nat)
      requires base > 0 && base % PAGE_SIZE == 0 && windowSize % PAGE_SIZE == 0
      requires base + windowSize <= 0x1_0000_0000
      ensures Shape() && dmaBase == base && size == windowSize && fresh(ptes)
      ensures State() == ArenaState(seq(windowSize / PAGE_SIZE, _ => 0), 0, map[])
    {
      dmaBase := base;
      size := windowSize;
      alignEntry := 1;
      ptes := new nat[windowSize / PAGE_SIZE](_ => 0);
      nextEntry := 0;
      tlb := map[];
      new;
      assert alignEntry == Pow2(0);
      assert ptes[..] == seq(windowSize / PAGE_SIZE, _ => 0);
    }

    /** alpha_mv.mv_pci_tbi, restricted to this window. */
    method FlushTlb(first: nat, last: nat)
      modifies this`tlb
      ensures tlb == FlushRange(old(tlb), dmaBase, first, last)
    {
      tlb := FlushRange(tlb, dmaBase, first, last);
    }

    /** iommu_arena_find_pages, for any mask.  What is found is always a free run off every
        boundary and off the mask's bits; for a mask one less than a power of two it is exactly
        the next fit. */
    method FindPages(n: nat, mask: int, boundary: nat) returns (p: int)
      requires Shape() && boundary > 0 && mask >= -1 && (n > 0 ==> mask >= 0)
      modifies this`tlb
      ensures p >= 0 ==> Fits(ptes[..], RequestFor(n, mask + 1, boundary), p) && Masked(p, mask)
      ensures p >= -1 && (tlb == old(tlb) || tlb == map[])
      ensures n == 0 && mask == -1 ==> p == 0
      ensures Pow2Mask(mask) ==>
                var r := RequestFor(n, mask + 1, boundary);
                NextFit(ptes[..], nextEntry, r, p) &&
                tlb == if Wraps(ptes[..], nextEntry, r) then map[] else old(tlb)
    {
      hide AlignUp, AlignMask, SpansBoundary, Fits, Masked, Pow2Mask, Searched, Missed;
      ghost var r, t, start := RequestFor(n, mask + 1, boundary), ptes[..], AlignMask(nextEntry, mask);
      var q, pass := AlignMask(nextEntry, mask), 0;
      AlignMaskMasked(nextEntry, mask);
      ZeroMasked(mask);
      while true
        invariant pass <= 1 && Masked(q, mask) && ptes[..] == t
        invariant pass == 0 ==> q == start && tlb == old(tlb)
        invariant pass == 1 ==> q == 0 && n > 0 && Missed(t, r, mask, start) && tlb == map[]
        decreases 1 - pass
      {
        var from, i := q, 0;
        q, i := Scan(q, n, mask, boundary);
        if i < n {
          if pass < 1 {
            tlb := map[];  // mv_pci_tbi(hose, 0, -1)
            pass, q := pass + 1, 0;
          } else {
            NothingFound(t, nextEntry, r, mask);
            return -1;
          }
        } else {
          FirstFound(t, nextEntry, r, mask, pass == 1, q);
          if n == 0 && mask == -1 { NoMaskNoStart(nextEntry); }
          return q;
        }
      }
    }

    /** The inner `while` of the search: from the aligned entry `from`, the first place
        that fits, or an i < n at the end of the table. */
    method Scan(from: nat, n: nat, mask: int, boundary: nat) returns (q: nat, i: nat)
      requires Shape() && boundary > 0 && mask >= -1 && (n > 0 ==> mask >= 0) && Masked(from, mask)
      ensures var r := RequestFor(n, mask + 1, boundary);
              from <= q && i <= n && Masked(q, mask) && (n == 0 ==> q == from) &&
              if i < n then Missed(ptes[..], r, mask, from)
              else Fits(ptes[..], r, q) && Searched(ptes[..], r, mask, from, q)
    {
      hide AlignUp, AlignMask, SpansBoundary, Masked, Pow2Mask, Searched, Missed;
      ghost var r, t := RequestFor(n, mask + 1, boundary), ptes[..];
      var base, nent := dmaBase / PAGE_SIZE, size / PAGE_SIZE;
      q, i := from, 0;
      NothingSearched(t, r, mask, from);
      while i < n && q + i < nent
        invariant from <= q && Masked(q, mask) && i <= n && (n == 0 ==> q == from)
        invariant AllFree(t, q, i)
        invariant i > 0 ==> !SpansBoundary(r, q)
        invariant Searched(t, r, mask, from, q)
        decreases nent - q, n - i
      {
        if i == 0 && SpansBoundary(Request(n, mask + 1, base, boundary), q) {
          SkipStart(t, r, mask, from, q);
          q := AlignMask(q + 1, mask);
        } else if ptes[q + i] != 0 {
          SkipBusy(t, r, mask, from, q, q + i);
          q, i := AlignMask(q + i + 1, mask), 0;
        } else {
          i := i + 1;
        }
      }
      if i < n {
        NoneAtTheEnd(t, r, mask, from, q, i);
      } else if n == 0 {
        NoPagesNoSpan(r, q);
      }
    }

    /** iommu_arena_alloc; iommu_reserve differs in the mark and in taking its mask
        from the caller. */
    method Alloc(n: nat, align: nat, boundary: nat) returns (p: int)
      requires Shape() && IsPow2(boundary) && boundary > 0
      requires align == 0 || IsPow2(align)
      modifies this, ptes
      ensures var r := RequestFor(n, Max(align, alignEntry), boundary);
              NextFit(old(ptes[..]), old(nextEntry), r, p) &&
              State() == Granted(old(State()), r, p, INVALID_PTE)
    {
      hide SpansBoundary, AlignUp, Fits, Masked;
      var mask := Max(align, alignEntry) - 1;
      assert Pow2Mask(mask);
      p := FindPages(n, mask, boundary);
      if p < 0 { return; }
      assert n > 0 ==> IsFree(ptes[..], p + n - 1);
      Mark(p, n, INVALID_PTE);
      nextEntry := p + n;
    }

    method Mark(p: nat, n: nat, v: nat)
      requires n > 0 ==> p + n <= ptes.Length
      modifies ptes
      ensures ptes[..] == MarkRange(old(ptes[..]), p, n, v)
    {
      for i := 0 to n
        invariant ptes[..] == MarkRange(old(ptes[..]), p, i, v)
      {
        ptes[p + i] := v;
      }
    }

    /** iommu_arena_free */
    method Free(ofs: nat, n: nat)
      requires n > 0 ==> ofs + n <= ptes.Length
      modifies ptes
      ensures ptes[..] == MarkRange(old(ptes[..]), ofs, n, 0)
    {
      Mark(ofs, n, 0);
    }
  }

  lemma NoPagesNoSpan(r: Request, p: nat)
    requires r.n == 0 && r.boundary > 0
    ensures !SpansBoundary(r, p)
  {}

  lemma ZeroMasked(mask: int)
    ensures Masked(0, mask)
  {}

  lemma NoMaskNoStart(next: nat)
    ensures AlignMask(next, -1) == 0
  {}

  lemma NothingSearched(ptes: seq<nat>, r: Request, mask: int, from: nat)
    requires r.boundary > 0 && r.align == mask + 1
    ensures Searched(ptes, r, mask, from, from)
  {}

  /** What the search knows when it stops on a candidate. */
  lemma FirstFound(ptes: seq<nat>, next: nat, r: Request, mask: int, wrapped: bool, p: nat)
    requires r.boundary > 0 && r.align == mask + 1 && Fits(ptes, r, p) && Masked(p, mask)
    requires mask >= -1
    requires var start := AlignMask(next, mask);
             if wrapped then Missed(ptes, r, mask, start) && Searched(ptes, r, mask, 0, p)
             else start <= p && Searched(ptes, r, mask, start, p)
    ensures Pow2Mask(mask) ==> NextFit(ptes, next, r, p) && (Wraps(ptes, next, r) <==> wrapped)
  {
    hide AlignUp, AlignMask, SpansBoundary, Masked, IsPow2;
    if Pow2Mask(mask) {
      AlignMaskIsUp(next, mask);
      MaskedMeansMultiple(p, mask);
      assert Candidate(ptes, r, p);
    }
  }

  lemma NothingFound(ptes: seq<nat>, next: nat, r: Request, mask: int)
    requires r.boundary > 0 && r.align == mask + 1 && mask >= -1
    requires Missed(ptes, r, mask, AlignMask(next, mask)) && Missed(ptes, r, mask, 0)
    ensures Pow2Mask(mask) ==> NextFit(ptes, next, r, -1) && Wraps(ptes, next, r)
  {
    hide AlignUp, AlignMask, SpansBoundary, Candidate, IsPow2;
    if Pow2Mask(mask) { AlignMaskIsUp(next, mask); }
  }

  /** A run that cannot start at p: the next start worth trying is the next aligned one. */
  lemma SkipStart(ptes: seq<nat>, r: Request, mask: int, from: nat, p: nat)
    requires r.boundary > 0 && r.align == mask + 1 && mask >= 0 && from <= p
    requires Searched(ptes, r, mask, from, p) && !Fits(ptes, r, p)
    ensures Searched(ptes, r, mask, from, AlignMask(p + 1, mask)) && Masked(AlignMask(p + 1, mask), mask)
  {
    hide AlignUp, AlignMask, SpansBoundary, IsPow2, Masked;
    AlignMaskMasked(p + 1, mask);
    if Pow2Mask(mask) {
      AlignMaskIsUp(p + 1, mask);
      SkipToNext(ptes, r, p);
    }
  }

  lemma SkipToNext(ptes: seq<nat>, r: Request, p: nat)
    requires r.align > 0 && r.boundary > 0 && !Fits(ptes, r, p)
    ensures NoCandidateIn(ptes, r, p, AlignUp(p + 1, r.align))
  {
    hide AlignUp, SpansBoundary;
    forall q: nat | p < q < AlignUp(p + 1, r.align)
      ensures !Candidate(ptes, r, q)
    {
      if Candidate(ptes, r, q) {
        assert q % r.align == 0;
        AlignUpLeast(p + 1, r.align, q);
      }
    }
  }

  /** A run at p spoiled by a busy entry: every start up to that entry is spoiled too. */
  lemma SkipBusy(ptes: seq<nat>, r: Request, mask: int, from: nat, p: nat, bad: nat)
    requires r.boundary > 0 && r.align == mask + 1 && mask >= 0 && from <= p
    requires Searched(ptes, r, mask, from, p)
    requires p <= bad < p + r.n && bad < |ptes| && ptes[bad] != 0
    ensures Searched(ptes, r, mask, from, AlignMask(bad + 1, mask)) && Masked(AlignMask(bad + 1, mask), mask)
  {
    hide AlignUp, AlignMask, SpansBoundary, IsPow2, Masked;
    AlignMaskMasked(bad + 1, mask);
    if Pow2Mask(mask) {
      forall q: nat | p <= q <= bad
        ensures !Candidate(ptes, r, q)
      {
        assert !IsFree(ptes, bad);
      }
      AlignMaskIsUp(bad + 1, mask);
      assert !IsFree(ptes, bad);
      SkipToNext(ptes, r, bad);
    }
  }

  lemma NoneAtTheEnd(ptes: seq<nat>, r: Request, mask: int, from: nat, p: nat, i: nat)
    requires r.boundary > 0 && r.align == mask + 1 && mask >= 0 && from <= p
    requires Searched(ptes, r, mask, from, p) && i < r.n && p + i >= |ptes|
    ensures Missed(ptes, r, mask, from)
  {
    hide SpansBoundary, IsPow2;
    if Pow2Mask(mask) {
      forall q: nat | p <= q
        ensures !Candidate(ptes, r, q)
      {
        assert !IsFree(ptes, q + r.n - 1);
      }
    }
  }

  /** The specification leaves the search no choice. */
  lemma NextFitUnique(ptes: seq<nat>, next: nat, r: Request, p: int, q: int)
    requires r.align > 0 && r.boundary > 0
    requires NextFit(ptes, next, r, p) && NextFit(ptes, next, r, q)
    ensures p == q
  {
  }
}
