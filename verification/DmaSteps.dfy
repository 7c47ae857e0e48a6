/** The calls as steps: a mapping made by pci_map_single_1 is an allocation followed by one store
    after the other, and an unmap is one step, each a step of the table's protocol; so what holds
    in every run holds before, between and after them. */
module DmaSteps {
  import opened Arith
  import opened IommuArena
  import opened TlbCoherence
  import opened EmptyMapping
  import opened DmaMapping

  /** The first n entries of the mapping at p are written. */
  ghost predicate WrittenUpTo(granted: seq<nat>, s: System, p: nat, n: nat, paddr: nat) {
    s.arena.ptes == Fill(granted, p, n, paddr)
  }

  /** The stores from entry i to entry n of a fresh block are so many write steps. */
  lemma {:induction false} StoresAreSteps(granted: seq<nat>, s: System, p: nat, n: nat, i: nat, paddr: nat)
    returns (path: seq<System>)
    requires i <= n && p + n <= |granted| && forall k | p <= k < p + n :: granted[k] == INVALID_PTE
    requires WrittenUpTo(granted, s, p, i, paddr)
    ensures Path(path) && path[0] == s && |path| == n - i + 1
    ensures path[|path| - 1] == s.(arena := s.arena.(ptes := Fill(granted, p, n, paddr)))
    ensures forall j: nat | j < |path| :: WrittenUpTo(granted, path[j], p, i + j, paddr)
    decreases n - i
  {
    hide MkPte, Frame;
    if i == n {
      path := [s];
    } else {
      var s' := s.(arena := s.arena.(ptes := s.arena.ptes[p + i := MkPte(Frame(paddr, i))]));
      assert WriteStep(s, s', p + i, Frame(paddr, i));
      assert s'.arena.ptes == Fill(granted, p, i + 1, paddr);
      var rest := StoresAreSteps(granted, s', p, n, i + 1, paddr);
      path := [s] + rest;
      forall j: nat | j < |path|
        ensures WrittenUpTo(granted, path[j], p, i + j, paddr)
      {
        if j > 0 { assert WrittenUpTo(granted, rest[j - 1], p, i + 1 + (j - 1), paddr); }
      }
    }
  }

  /** What a call of MapThrough promises, an allocation step and its write steps do. */
  lemma MappingIsSteps(s: System, r: Request, t: ArenaState, paddr: nat, p: int) returns (path: seq<System>)
    requires r.align > 0 && r.boundary > 0 && r.n > 0 && MappedThrough(r, s.arena, t, paddr, p)
    ensures Path(path) && path[0] == s
    ensures path[|path| - 1] == System(t, s.base, if p < 0 then s.live else s.live + {Block(p, r.n)})
    ensures |path| == if p < 0 then 2 else r.n + 2
  {
    hide AlignUp, SpansBoundary, MkPte, Frame;
    var g := Granted(s.arena, r, p, INVALID_PTE);
    var s1 := System(g, s.base, if p < 0 then s.live else s.live + {Block(p, r.n)});
    assert AllocStep(s, s1, r, p);
    if p < 0 {
      path := [s, s1];
    } else {
      assert Candidate(s.arena.ptes, r, p);
      assert IsFree(s.arena.ptes, p + r.n - 1);
      assert g.ptes == Fill(g.ptes, p, 0, paddr);
      assert Fill(g.ptes, p, r.n, paddr) == Fill(s.arena.ptes, p, r.n, paddr);
      var rest := StoresAreSteps(g.ptes, s1, p, r.n, 0, paddr);
      path := [s] + rest;
    }
  }

  /** What a call of UnmapSingle promises for a live mapping is one unmap step. */
  lemma UnmappingIsStep(s: System, t: ArenaState, seg: Segment) returns (s': System)
    requires s.base <= seg.addr && BlockOf(s.base, seg) in s.live && t == UnmapOne(s.arena, s.base, seg)
    ensures Next(s, s') && s'.arena == t && s'.live == s.live - {BlockOf(s.base, seg)}
  {
    s' := System(t, s.base, s.live - {BlockOf(s.base, seg)});
    assert UnmapStep(s, s', seg);
  }

  /** And so is what a call of UnmapSg promises for live mappings. */
  lemma UnmappingListIsStep(s: System, t: ArenaState, segs: seq<Segment>) returns (s': System)
    requires forall g | g in segs :: s.base <= g.addr && BlockOf(s.base, g) in s.live
    requires t == UnmapAll(s.arena, s.base, segs)
    ensures Next(s, s') && s'.arena == t && s'.live == s.live - BlocksOf(s.base, segs)
  {
    hide FreeAll, FlushBegin, FlushEnd, UnmapAll;
    s' := System(t, s.base, s.live - BlocksOf(s.base, segs));
    assert UnmapListStep(s, s', segs);
  }
}
