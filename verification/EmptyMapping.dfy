/** Mappings of no pages: a zero-length buffer at the start of a page.  They take no entry but
    move next_entry to its aligned value, and that alone can break the lazy flush. */
module EmptyMapping {
  import opened Arith
  import opened IommuArena
  import opened TlbCoherence

  // --- When a state goes wrong -----------------------------------------------------------

  /** States one after the other, from any start. */
  ghost predicate Path(path: seq<System>) {
    |path| > 0 && forall i | 0 <= i < |path| - 1 :: Next(path[i], path[i + 1])
  }

  ghost predicate PathToStale(s: System, path: seq<System>, k: nat) {
    Path(path) && path[0] == s && StaleLive(path[|path| - 1], k)
  }

  /** From s some further steps lead to a live mapping that is read through a stale entry. */
  ghost predicate GoesStale(s: System) {
    exists path, k :: PathToStale(s, path, k)
  }

  lemma {:induction false} PathKeepsInv(path: seq<System>, i: nat)
    requires Path(path) && i < |path| && Inv(path[0])
    ensures Inv(path[i])
  {
    hide Inv, Next;
    if i == 0 {
    } else {
      PathKeepsInv(path, i - 1);
      NextKeepsInv(path[i - 1], path[i]);
    }
  }

  /** From a state with the invariant nothing goes wrong. */
  lemma NeverStale(s: System)
    requires Inv(s)
    ensures !GoesStale(s)
  {
    hide Inv, StaleLive, Next;
    forall path, k
      ensures !PathToStale(s, path, k)
    {
      if Path(path) && path[0] == s {
        PathKeepsInv(path, |path| - 1);
        InvNotStale(path[|path| - 1], k);
      }
    }
  }

  /** One step before a state that goes stale. */
  lemma StaleNext(s: System, t: System)
    requires Next(s, t) && GoesStale(t)
    ensures GoesStale(s)
  {
    hide Next, StaleLive;
    var path, k :| PathToStale(t, path, k);
    var longer := [s] + path;
    forall i | 0 <= i < |longer| - 1
      ensures Next(longer[i], longer[i + 1])
    {
      assert i > 0 ==> Next(path[i - 1], path[i]);
    }
    assert PathToStale(s, longer, k);
  }

  lemma StaleNow(s: System, k: nat)
    requires StaleLive(s, k)
    ensures GoesStale(s)
  {
    assert PathToStale(s, [s], k);
  }

  // --- Granting a page whose old entry is still cached -----------------------------------

  /** A mapping of one page without an alignment. */
  function OnePage(s: System): Request {
    Request(1, 1, s.base / PAGE_SIZE, 0x8_0000)
  }

  /** Entry k is free, at or above next_entry, and the chip still has an entry for it. */
  ghost predicate CachedAhead(s: System, k: nat) {
    s.arena.next <= k < |s.arena.ptes| && s.arena.ptes[k] == 0 && k in s.arena.tlb
  }

  /** The least free entry at or above `from`. */
  ghost function LeastFree(ptes: seq<nat>, from: nat, k: nat): (p: nat)
    requires from <= k < |ptes| && ptes[k] == 0
    ensures from <= p <= k && ptes[p] == 0 && forall q | from <= q < p :: ptes[q] != 0
    decreases k - from
  {
    if ptes[from] == 0 then from else LeastFree(ptes, from + 1, k)
  }

  lemma OneFits(s: System, p: nat)
    ensures !SpansBoundary(OnePage(s), p)
  {}

  /** A mapping of one page is granted at the least free entry, without a flush. */
  lemma GrantLeast(s: System, p: nat)
    requires s.arena.next <= p < |s.arena.ptes| && s.arena.ptes[p] == 0
    requires forall q | s.arena.next <= q < p :: s.arena.ptes[q] != 0
    ensures AllocStep(s, GrantedOne(s, p), OnePage(s), p)
  {
    hide SpansBoundary, AlignUp;
    var r := OnePage(s);
    AlignOne(s.arena.next);
    OneFits(s, p);
    assert Candidate(s.arena.ptes, r, p);
    forall q: nat | s.arena.next <= q < p
      ensures !Candidate(s.arena.ptes, r, q)
    {
      assert !IsFree(s.arena.ptes, q);
    }
    assert MarkRange(s.arena.ptes, p, 1, INVALID_PTE) == s.arena.ptes[p := INVALID_PTE];
  }

  function GrantedOne(s: System, p: nat): System
    requires p < |s.arena.ptes|
  {
    System(ArenaState(s.arena.ptes[p := INVALID_PTE], p + 1, s.arena.tlb), s.base, s.live + {Block(p, 1)})
  }

  lemma AlignOne(x: nat)
    ensures AlignUp(x, 1) == x
  {}

  /** Mapping single pages comes to entry k in the end, without a flush on the way; the new
      mapping there is read through the old entry. */
  lemma {:induction false} CachedAheadGoesStale(s: System, k: nat)
    requires CachedAhead(s, k)
    ensures GoesStale(s)
    decreases k - s.arena.next
  {
    hide GoesStale, Next, AllocStep, StaleLive;
    var p := LeastFree(s.arena.ptes, s.arena.next, k);
    var t := GrantedOne(s, p);
    GrantLeast(s, p);
    AllocIsNext(s, t, OnePage(s), p);
    if p == k {
      WrittenOver(t, k);
    } else {
      CachedAheadGoesStale(t, k);
    }
    StaleNext(s, t);
  }

  lemma AllocIsNext(s: System, t: System, r: Request, p: int)
    requires AllocStep(s, t, r, p)
    ensures Next(s, t)
  {}

  /** Writing a fresh mapping's entry while the chip has an old one for it. */
  lemma WrittenOver(s: System, k: nat)
    requires k < |s.arena.ptes| && s.arena.ptes[k] == INVALID_PTE && k in s.arena.tlb && Block(k, 1) in s.live
    ensures GoesStale(s)
  {
    hide GoesStale;
    var paddr := if s.arena.tlb[k] == MkPte(0) then PAGE_SIZE else 0;
    var t := s.(arena := s.arena.(ptes := s.arena.ptes[k := MkPte(paddr)]));
    assert WriteStep(s, t, k, paddr);
    MadePteNamesPage(paddr);
    assert MkPte(PAGE_SIZE) != MkPte(0);
    assert Holds(Block(k, 1), k) && StaleLive(t, k);
    StaleNow(t, k);
    StaleNext(s, t);
  }

  // --- Mappings of no pages --------------------------------------------------------------

  /** A mapping of no pages does harm exactly if a live block straddles the aligned next_entry:
      then, and only then, later steps lead to a live mapping read through a stale entry.
      Without an alignment it never does. */
  lemma EmptyStepGoesStale(s: System, s': System, r: Request, p: int)
    requires Inv(s) && EmptyStep(s, s', r, p)
    ensures GoesStale(s') <==> !NoStraddle(AlignUp(s.arena.next, r.align), s.live)
    ensures r.align == 1 ==> !GoesStale(s')
  {
    hide AlignUp, Inv, EmptyStep, GoesStale;
    EmptyStepMoves(s, s', r, p);
    var next := AlignUp(s.arena.next, r.align);
    if NoStraddle(next, s.live) {
      SafeEmptyStepKeepsInv(s, s', r, p);
      NeverStale(s');
    } else {
      var b :| b in s.live && !(b.ofs + b.n <= next || next <= b.ofs);
      StraddledGoesStale(s, s', b);
    }
    if r.align == 1 { NextStraddlesNothing(s); AlignOne(s.arena.next); }
  }

  lemma NextStraddlesNothing(s: System)
    requires Inv(s)
    ensures NoStraddle(s.arena.next, s.live)
  {}

  /** next_entry inside a live block: the block's entry there is written and loaded, the block
      unmapped without a flush, and the entry granted again. */
  lemma StraddledGoesStale(s: System, t: System, b: Block)
    requires Inv(s) && b in s.live && b.ofs < t.arena.next < b.ofs + b.n
    requires t == s.(arena := s.arena.(next := t.arena.next))
    ensures GoesStale(t)
  {
    hide GoesStale, Disjoint, NoStraddle, StaleOnlyBehind;
    var k := t.arena.next;
    assert Owned(s.live, k) by { assert Holds(b, k); }
    if t.arena.ptes[k] == INVALID_PTE {
      var u := t.(arena := t.arena.(ptes := t.arena.ptes[k := MkPte(0)]));
      assert WriteStep(t, u, k, 0);
      MadePteNamesPage(0);
      WrittenGoesStale(u, b);
      StaleNext(t, u);
    } else {
      WrittenGoesStale(t, b);
    }
  }

  lemma WrittenGoesStale(s: System, b: Block)
    requires b in s.live && b.ofs < s.arena.next < b.ofs + b.n <= |s.arena.ptes| && s.base % PAGE_SIZE == 0
    requires PteValid(s.arena.ptes[s.arena.next])
    ensures GoesStale(s)
  {
    hide GoesStale, PteValid;
    var k := s.arena.next;
    var t := s.(arena := s.arena.(tlb := s.arena.tlb[k := s.arena.ptes[k]]));
    assert LoadStep(s, t, k);
    var g := RangeOf(s.base, b);
    var u := System(UnmapOne(t.arena, s.base, g), s.base, s.live - {b});
    UnmapBehind(t, u, b, g);
    CachedAheadGoesStale(u, k);
    StaleNext(t, u);
    StaleNext(s, t);
  }

  /** The bus range that names a block. */
  function RangeOf(base: nat, b: Block): Segment {
    Segment(base + b.ofs * PAGE_SIZE, b.n * PAGE_SIZE)
  }

  lemma RangeNames(base: nat, b: Block)
    requires base % PAGE_SIZE == 0
    ensures BlockOf(base, RangeOf(base, b)) == b
  {
    PagesOf(base / PAGE_SIZE, b.ofs, b.n);
  }

  lemma PagesOf(q: nat, ofs: nat, n: nat)
    ensures (q * PAGE_SIZE + ofs * PAGE_SIZE - q * PAGE_SIZE) / PAGE_SIZE == ofs
    ensures NumPages(q * PAGE_SIZE + ofs * PAGE_SIZE, n * PAGE_SIZE) == n
  {}

  /** The unmap of a block that starts below next_entry does not flush. */
  lemma UnmapBehind(s: System, t: System, b: Block, g: Segment)
    requires b in s.live && b.ofs < s.arena.next < b.ofs + b.n <= |s.arena.ptes| && s.base % PAGE_SIZE == 0
    requires g == RangeOf(s.base, b) && s.arena.next in s.arena.tlb
    requires t == System(UnmapOne(s.arena, s.base, g), s.base, s.live - {b})
    ensures Next(s, t) && CachedAhead(t, s.arena.next)
  {
    hide NumPages;
    RangeNames(s.base, b);
    assert UnmapStep(s, t, g);
  }

  // --- next_entry back to 0 ----------------------------------------------------------------

  /** Taking next_entry back to 0 does harm exactly if the chip has a stale entry at that
      moment. */
  lemma ResetGoesStale(s: System, s': System)
    requires Inv(s) && ResetStep(s, s')
    ensures GoesStale(s') <==> !NothingStale(s.arena)
    ensures NothingStale(s.arena) <==> forall k | k in s.arena.tlb :: EntryHeld(s.arena, k) == Some(s.arena.tlb[k])
  {
    hide GoesStale, TableOk, Disjoint, NoStraddle;
    if NothingStale(s.arena) {
      SafeResetKeepsInv(s, s');
      NeverStale(s');
    } else {
      var k :| k in s.arena.tlb && !(k < |s.arena.ptes| && s.arena.tlb[k] == s.arena.ptes[k]);
      CachedAheadGoesStale(s', k);
    }
  }

  /** The failure at a run: after the run that leaves a freed entry cached, next_entry goes back
      to 0, the same entry is granted again, and the device reads the new mapping through the
      old one's entry. */
  lemma StaleAfterReset() returns (run: seq<System>, reset: System, granted: System, written: System)
    ensures Run(run) && ResetStep(run[|run| - 1], reset)
    ensures Next(reset, granted) && Next(granted, written)
    ensures StaleLive(written, 0)
  {
    hide Run, AllocStep, Next;
    run := FreedEntryMayStayCached();
    var s := run[4];
    reset := s.(arena := s.arena.(next := 0));
    assert reset.arena.ptes == [0] && reset.arena.tlb == s.arena.tlb && 0 in s.arena.tlb && s.arena.tlb[0] == 1;
    GrantLeast(reset, 0);
    granted := GrantedOne(reset, 0);
    AllocIsNext(reset, granted, OnePage(reset), 0);
    written := granted.(arena := granted.arena.(ptes := [MkPte(PAGE_SIZE)]));
    assert granted.arena.ptes == [INVALID_PTE];
    assert written.arena.ptes == granted.arena.ptes[0 := MkPte(PAGE_SIZE)];
    assert WriteStep(granted, written, 0, PAGE_SIZE);
    WriteIsNext(granted, written, 0, PAGE_SIZE);
    assert Holds(Block(0, 1), 0) && Block(0, 1) in written.live;
  }

  lemma WriteIsNext(s: System, t: System, k: nat, paddr: nat)
    requires WriteStep(s, t, k, paddr)
    ensures Next(s, t)
  {}

  // --- The failure of a mapping of no pages, at a run -----------------------------------------------------------

  // One page, eight pages, and no pages for the ISA bridge with its alignment of eight.
  const ONE := Request(1, 1, 1, 0x8_0000)
  const EIGHT := Request(8, 1, 1, 0x8_0000)
  const NONE := Request(0, 8, 1, 0x8_0000)

  const BASE: nat := 0x2000
  const FIRST := Block(0, 1)
  const LONG := Block(1, 8)
  const LAST := Block(8, 1)

  /** A table of nine: entry 0, entries 1..7 and entry 8. */
  function Table(first: nat, middle: nat, last: nat): (r: seq<nat>)
    ensures |r| == 9 && r[0] == first && r[8] == last && forall k | 1 <= k < 8 :: r[k] == middle
  {
    [first, middle, middle, middle, middle, middle, middle, middle, last]
  }

  function At(first: nat, middle: nat, last: nat, next: nat, tlb: map<nat, nat>, live: set<Block>): System {
    System(ArenaState(Table(first, middle, last), next, tlb), BASE, live)
  }

  lemma GrantHere(ptes: seq<nat>, next: nat, r: Request, p: nat)
    requires r.align == 1 && r.boundary > 0 && next == p && AllFree(ptes, p, r.n) && !SpansBoundary(r, p)
    ensures NextFit(ptes, next, r, p) && !Wraps(ptes, next, r)
  {
    AlignOne(next);
    assert Candidate(ptes, r, p);
  }

  /** With the table full from next on, the search wraps to entry 0. */
  lemma GrantWrapped(ptes: seq<nat>, next: nat)
    requires |ptes| == 9 && next == 9 && ptes[0] == 0
    ensures NextFit(ptes, next, ONE, 0) && Wraps(ptes, next, ONE)
  {
    hide SpansBoundary;
    AlignOne(next);
    forall q: nat | 9 <= q
      ensures !Candidate(ptes, ONE, q)
    {
      assert !IsFree(ptes, q);
    }
    assert !SpansBoundary(ONE, 0) by { SmallFits(ONE, 0); }
    assert Candidate(ptes, ONE, 0);
  }

  lemma SmallFits(r: Request, p: nat)
    requires r.base == 1 && r.boundary == 0x8_0000 && r.n <= 8 && p <= 9
    ensures !SpansBoundary(r, p)
  {}

  /** Map one page, map eight behind it, unmap the one, map one again: the search wraps, and
      next_entry stands before the eight, whose last entry is written and cached. */
  lemma LongBlockAhead() returns (run: seq<System>)
    ensures Run(run) && |run| == 7 && run[6] == At(2, 2, 1, 1, map[8 := 1], {LONG, FIRST})
  {
    hide AlignUp, SpansBoundary, Next;
    var s0 := At(0, 0, 0, 0, map[], {});
    var s1 := At(2, 0, 0, 1, map[], {FIRST});
    var s2 := At(2, 2, 2, 9, map[], {FIRST, LONG});
    var s3 := At(0, 2, 2, 9, map[], {LONG});
    var s4 := At(2, 2, 2, 1, map[], {LONG, FIRST});
    var s5 := At(2, 2, 1, 1, map[], {LONG, FIRST});
    var s6 := At(2, 2, 1, 1, map[8 := 1], {LONG, FIRST});
    MapFirst(s0, s1);
    MapLong(s1, s2);
    UnmapFirst(s2, s3);
    MapWrapped(s3, s4);
    assert s5.arena.ptes == s4.arena.ptes[8 := MkPte(0)];
    assert WriteStep(s4, s5, 8, 0);
    assert LoadStep(s5, s6, 8);
    StepsAreNext(s4, s5, s6, 0);
    run := [s0, s1, s2, s3, s4, s5, s6];
  }

  lemma StepsAreNext(s: System, t: System, u: System, paddr: nat)
    requires WriteStep(s, t, 8, paddr) && LoadStep(t, u, 8)
    ensures Next(s, t) && Next(t, u)
  {}

  lemma MapFirst(s: System, t: System)
    requires s == At(0, 0, 0, 0, map[], {}) && t == At(2, 0, 0, 1, map[], {FIRST})
    ensures Next(s, t)
  {
    hide SpansBoundary, AlignUp;
    SmallFits(ONE, 0);
    GrantHere(s.arena.ptes, 0, ONE, 0);
    assert MarkRange(s.arena.ptes, 0, 1, INVALID_PTE) == t.arena.ptes;
    assert AllocStep(s, t, ONE, 0);
  }

  lemma MapLong(s: System, t: System)
    requires s == At(2, 0, 0, 1, map[], {FIRST}) && t == At(2, 2, 2, 9, map[], {FIRST, LONG})
    ensures Next(s, t)
  {
    hide SpansBoundary, AlignUp;
    SmallFits(EIGHT, 1);
    GrantHere(s.arena.ptes, 1, EIGHT, 1);
    assert MarkRange(s.arena.ptes, 1, 8, INVALID_PTE) == t.arena.ptes;
    assert AllocStep(s, t, EIGHT, 1);
  }

  lemma UnmapFirst(s: System, t: System)
    requires s == At(2, 2, 2, 9, map[], {FIRST, LONG}) && t == At(0, 2, 2, 9, map[], {LONG})
    ensures Next(s, t)
  {
    var seg := Segment(BASE, 1);
    assert BlockOf(BASE, seg) == FIRST;
    assert MarkRange(s.arena.ptes, 0, 1, 0) == t.arena.ptes;
    assert {FIRST, LONG} - {FIRST} == {LONG};
    assert UnmapStep(s, t, seg);
  }

  lemma MapWrapped(s: System, t: System)
    requires s == At(0, 2, 2, 9, map[], {LONG}) && t == At(2, 2, 2, 1, map[], {LONG, FIRST})
    ensures Next(s, t)
  {
    hide SpansBoundary, AlignUp;
    GrantWrapped(s.arena.ptes, 9);
    assert MarkRange(s.arena.ptes, 0, 1, INVALID_PTE) == t.arena.ptes;
    assert AllocStep(s, t, ONE, 0);
  }

  /** From there a mapping of no pages for the ISA bridge moves next_entry into the eight
      pages.  Their unmap then looks like one below next_entry and does not flush; the last
      entry is handed out again without a flush, and the device reads the new live mapping
      through the old one's cached entry. */
  lemma LiveMappingStale()
    returns (run: seq<System>, moved: System, unmapped: System, granted: System, written: System)
    ensures Run(run) && EmptyStep(run[|run| - 1], moved, NONE, 8)
    ensures Next(moved, unmapped) && Next(unmapped, granted) && Next(granted, written)
    ensures StaleLive(written, 8) && |written.arena.ptes| == 9
    ensures written.arena.ptes[8] == MkPte(0x2000) && EntryUsed(written.arena, 8) == Some(MkPte(0))
  {
    hide *;
    run := LongBlockAhead();
    var cached := map[8 := 1];
    moved := At(2, 2, 1, 8, cached, {LONG, FIRST});
    unmapped := At(2, 0, 0, 8, cached, {FIRST});
    granted := At(2, 0, 2, 9, cached, {FIRST, LAST});
    written := At(2, 0, 3, 9, cached, {FIRST, LAST});
    MoveInto(run[6], moved);
    UnmapLong(moved, unmapped);
    MapLast(unmapped, granted);
    WriteLast(granted, written);
    StaleRead(written);
  }

  lemma StaleRead(s: System)
    requires s == At(2, 0, 3, 9, map[8 := 1], {FIRST, LAST})
    ensures StaleLive(s, 8) && |s.arena.ptes| == 9
    ensures s.arena.ptes[8] == MkPte(0x2000) && EntryUsed(s.arena, 8) == Some(MkPte(0))
  {
    assert LAST in s.live && Holds(LAST, 8);
  }

  lemma MoveInto(s: System, t: System)
    requires s == At(2, 2, 1, 1, map[8 := 1], {LONG, FIRST}) && t == At(2, 2, 1, 8, map[8 := 1], {LONG, FIRST})
    ensures EmptyStep(s, t, NONE, 8)
  {
    hide SpansBoundary;
    assert AlignUp(1, 8) == 8;
    SmallFits(NONE, 8);
    assert Candidate(s.arena.ptes, NONE, 8);
    assert MarkRange(s.arena.ptes, 8, 0, INVALID_PTE) == t.arena.ptes;
  }

  lemma UnmapLong(s: System, t: System)
    requires s == At(2, 2, 1, 8, map[8 := 1], {LONG, FIRST}) && t == At(2, 0, 0, 8, map[8 := 1], {FIRST})
    ensures Next(s, t)
  {
    var seg := Segment(BASE + PAGE_SIZE, 8 * PAGE_SIZE);
    assert BlockOf(BASE, seg) == LONG;
    assert MarkRange(s.arena.ptes, 1, 8, 0) == t.arena.ptes;
    assert {LONG, FIRST} - {LONG} == {FIRST};
    assert UnmapStep(s, t, seg);
  }

  lemma MapLast(s: System, t: System)
    requires s == At(2, 0, 0, 8, map[8 := 1], {FIRST}) && t == At(2, 0, 2, 9, map[8 := 1], {FIRST, LAST})
    ensures Next(s, t)
  {
    hide SpansBoundary, AlignUp;
    SmallFits(ONE, 8);
    GrantHere(s.arena.ptes, 8, ONE, 8);
    assert MarkRange(s.arena.ptes, 8, 1, INVALID_PTE) == t.arena.ptes;
    assert AllocStep(s, t, ONE, 8);
  }

  lemma WriteLast(s: System, t: System)
    requires s == At(2, 0, 2, 9, map[8 := 1], {FIRST, LAST}) && t == At(2, 0, 3, 9, map[8 := 1], {FIRST, LAST})
    ensures Next(s, t)
  {
    assert t.arena.ptes == s.arena.ptes[8 := MkPte(0x2000)];
    assert WriteStep(s, t, 8, 0x2000);
  }
}
