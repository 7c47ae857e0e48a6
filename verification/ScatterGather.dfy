/** Scatter lists: grouping the elements, giving each group one bus range, and compacting
    the results in place over the list being read. */
module ScatterGather {
  import opened Arith
  import opened IommuArena
  import opened TlbCoherence
  import opened DmaMapping
  import opened ScatterSpec

  /** A scatter list: its buffers, and the two fields of each element that are written. */
  class SgList {
    const bufs: seq<Buf>
    const dmaAddress: array<int>
    const dmaLength: array<nat>

    constructor (bufs: seq<Buf>)
      requires forall i | 0 <= i < |bufs| :: bufs[i].length > 0
      ensures this.bufs == bufs && Valid() && fresh(dmaAddress) && fresh(dmaLength)
    {
      this.bufs := bufs;
      dmaAddress := new int[|bufs|];
      dmaLength := new nat[|bufs|];
    }

    ghost predicate Valid() {
      dmaAddress.Length == dmaLength.Length == |bufs| &&
      forall i | 0 <= i < |bufs| :: bufs[i].length > 0
    }

    /** sg_classify on the elements from lo to the end of the list. */
    method Classify(lo: nat, virtOk: bool, maxSeg: nat)
      requires Valid() && lo < |bufs|
      modifies dmaAddress, dmaLength
      ensures Grouped(bufs, dmaAddress[..], dmaLength[..], lo, |bufs|)
      ensures Coarsest(bufs, dmaAddress[..], lo, |bufs|, virtOk, maxSeg)
      ensures dmaAddress[..lo] == old(dmaAddress[..lo]) && dmaLength[..lo] == old(dmaLength[..lo])
    {
      hide AllPhys, CanJoin, Adjacent, PageJoin, Grouped, Coarsest, OpenGroup, JoinsGroup, FollowerOk;
      var leader, flag, length := lo, LEADER_PHYS, bufs[lo].length;
      var nextPaddr := bufs[lo].paddr + length;
      FirstGroup(bufs, dmaAddress[..], dmaLength[..], lo, virtOk, maxSeg);
      var i := lo + 1;
      while i < |bufs|
        invariant lo <= leader < i <= |bufs|
        invariant dmaAddress[..lo] == old(dmaAddress[..lo]) && dmaLength[..lo] == old(dmaLength[..lo])
        invariant length == Total(bufs, leader, i)
        invariant nextPaddr == bufs[i - 1].paddr + bufs[i - 1].length
        invariant flag == if AllPhys(dmaAddress[..], leader, i) then LEADER_PHYS else LEADER_VIRT
        invariant Grouped(bufs, dmaAddress[..], dmaLength[..], lo, leader)
        invariant Coarsest(bufs, dmaAddress[..], lo, leader, virtOk, maxSeg)
        invariant OpenGroup(bufs, dmaAddress[..], lo, leader, i, virtOk, maxSeg)
      {
        var addr, len := bufs[i].paddr, bufs[i].length;
        ghost var m, d := dmaAddress[..], dmaLength[..];
        JoinTest(bufs, m, leader, i, virtOk, maxSeg);
        if length + len <= maxSeg && nextPaddr == addr {
          dmaAddress[i] := FOLLOWS_PHYS;
          AddFollower(bufs, m, d, dmaAddress[..], lo, leader, i, virtOk, maxSeg);
          length := length + len;
        } else if length + len <= maxSeg && nextPaddr % PAGE_SIZE == 0 && addr % PAGE_SIZE == 0 && virtOk {
          dmaAddress[i] := FOLLOWS_VIRT;
          AddFollower(bufs, m, d, dmaAddress[..], lo, leader, i, virtOk, maxSeg);
          flag := LEADER_VIRT;
          length := length + len;
        } else {
          dmaAddress[leader] := flag;
          dmaLength[leader] := length;
          CloseGroup(bufs, m, d, dmaAddress[..], dmaLength[..], lo, leader, i, virtOk, maxSeg);
          StartGroup(bufs, m, d, dmaAddress[..], dmaLength[..], lo, leader, i, virtOk, maxSeg);
          leader, flag, length := i, LEADER_PHYS, len;
        }
        nextPaddr := addr + len;
        i := i + 1;
      }
      ghost var m, d := dmaAddress[..], dmaLength[..];
      dmaAddress[leader] := flag;
      dmaLength[leader] := length;
      CloseGroup(bufs, m, d, dmaAddress[..], dmaLength[..], lo, leader, i, virtOk, maxSeg);
      CloseGroupCoarsest(bufs, m, dmaAddress[..], lo, leader, i, virtOk, maxSeg);
    }
  }

  /** The table-filling loop of sg_fill for the group [leader, e): one contiguous run of
      elements at a time, entries stored from ofs on.  It stores exactly as many entries as
      were allocated for the group's total length. */
  method WriteGroup(sg: SgList, leader: nat, ghost e: nat, arena: Arena, ofs: nat)
    requires sg.Valid() && leader < e <= |sg.bufs| && arena.ptes != sg.dmaLength
    requires e == GroupEnd(sg.dmaAddress[..], leader + 1, |sg.bufs|)
    requires forall k | leader < k < e :: FollowerOk(sg.bufs, sg.dmaAddress[..], k)
    requires ofs + NumPages(sg.bufs[leader].paddr, Total(sg.bufs, leader, e)) <= arena.ptes.Length
    modifies arena.ptes
    ensures var b := sg.bufs;
            var n := NumPages(b[leader].paddr, Total(b, leader, e));
            Wrote(old(arena.ptes[..]), arena.ptes[..], ofs, ofs + n) &&
            Backs(arena.ptes[..], ofs, b[leader].paddr % PAGE_SIZE, BufBytes(b, leader, e))
  {
    hide NumPages, Wrote, Backs, Adjacent, PageJoin, OneRun, Total, BufBytes, AtRun;
    ghost var b, m, off := sg.bufs, sg.dmaAddress[..], sg.bufs[leader].paddr % PAGE_SIZE;
    var g: nat, p: nat := leader, ofs;
    StartOfGroup(b, arena.ptes[..], leader, ofs);
    while true
      invariant leader <= g < e && sg.dmaAddress[..] == m
      invariant AtRun(b, leader, g, ofs, p)
      invariant Wrote(old(arena.ptes[..]), arena.ptes[..], ofs, p)
      invariant Backs(arena.ptes[..], ofs, off, BufBytes(b, leader, g))
      decreases e - g
    {
      ghost var run, t := g, arena.ptes[..];
      var size: nat := sg.bufs[g].length;
      var paddr := sg.bufs[g].paddr;
      FirstOfRun(b, g);
      while g + 1 < |sg.bufs| && sg.dmaAddress[g + 1] == FOLLOWS_PHYS
        invariant run <= g < e && arena.ptes[..] == t
        invariant OneRun(b, run, g + 1, size)
      {
        assert FollowerOk(b, m, g + 1);
        RunGrows(b, run, g + 1, size);
        size := size + sg.bufs[g + 1].length;
        g := g + 1;
      }
      var n := NumPages(paddr, size);
      PagesAddUp(b, leader, run, g + 1, ofs, p, size);
      PagesWithinGroup(b, leader, g + 1, e);
      WritePages(arena, p, n, paddr);
      AfterRun(b, old(arena.ptes[..]), t, arena.ptes[..], leader, run, g + 1, ofs, p, size);
      p := p + n;
      g := g + 1;
      if !(g < |sg.bufs| && sg.dmaAddress[g] < 0) { break; }
      assert FollowerOk(b, m, g);
    }
  }

  lemma StartOfGroup(b: seq<Buf>, t: seq<nat>, l: nat, ofs: nat)
    requires l < |b|
    ensures AtRun(b, l, l, ofs, ofs) && Wrote(t, t, ofs, ofs)
    ensures Backs(t, ofs, b[l].paddr % PAGE_SIZE, BufBytes(b, l, l))
  {}

  lemma AfterRun(b: seq<Buf>, was: seq<nat>, t: seq<nat>, t': seq<nat>,
                 l: nat, g: nat, h: nat, ofs: nat, p: nat, size: nat)
    requires l <= g < h <= |b| && AtRun(b, l, g, ofs, p) && OneRun(b, g, h, size)
    requires var n := NumPages(b[g].paddr, size); p + n <= |t| && t' == Fill(t, p, n, b[g].paddr)
    requires Wrote(was, t, ofs, p) && Backs(t, ofs, b[l].paddr % PAGE_SIZE, BufBytes(b, l, g))
    ensures Wrote(was, t', ofs, p + NumPages(b[g].paddr, size))
    ensures Backs(t', ofs, b[l].paddr % PAGE_SIZE, BufBytes(b, l, h))
  {
    hide NumPages, Wrote, Backs;
    WroteMore(was, t, t', ofs, p, NumPages(b[g].paddr, size), b[g].paddr);
    BackRun(t, t', ofs, p - ofs, b[l].paddr % PAGE_SIZE, BufBytes(b, l, g), b[g].paddr, size);
    BufBytesSplit(b, l, g, h);
  }

  /** The list and the tables are different memory. */
  ghost predicate Separate(sg: SgList, h: Hose) {
    h.sgIsa.ptes != sg.dmaLength && (h.sgPci != null ==> h.sgPci.ptes != sg.dmaLength)
  }

  lemma ServedByArena(h: Hose, plat: Platform, maxDma: nat)
    requires h.Valid(plat)
    ensures Apart(h.View(plat)) && h.View(plat).plat == plat
    ensures ServingWindow(h.View(plat), maxDma) == Window(h.MapArena(maxDma).dmaBase, h.MapArena(maxDma).ptes[..])
  {}

  /** The IOMMU leg of sg_fill: allocate for the group [leader, e), and on success write its
      entries and its bus range. */
  method PlaceGroup(sg: SgList, leader: nat, ghost e: nat, out: nat, h: Hose, plat: Platform, dev: Option<Device>)
    returns (ok: bool)
    requires sg.Valid() && out <= leader < e <= |sg.bufs|
    requires h.Valid(plat) && DeviceOk(dev) && Separate(sg, h)
    requires e == GroupEnd(sg.dmaAddress[..], leader + 1, |sg.bufs|)
    requires forall k | leader < k < e :: FollowerOk(sg.bufs, sg.dmaAddress[..], k)
    requires sg.dmaLength[leader] == Total(sg.bufs, leader, e) > 0
    modifies h.MapArena(MaxDma(dev)), h.MapArena(MaxDma(dev)).ptes, sg.dmaAddress, sg.dmaLength
    ensures !ok ==> h.MapArena(MaxDma(dev)).ptes[..] == old(h.MapArena(MaxDma(dev)).ptes[..]) &&
                    sg.dmaAddress[..] == old(sg.dmaAddress[..]) && sg.dmaLength[..] == old(sg.dmaLength[..])
    ensures ok ==> forall k | 0 <= k < |sg.bufs| && k != out ::
                     sg.dmaAddress[k] == old(sg.dmaAddress[k]) && sg.dmaLength[k] == old(sg.dmaLength[k])
    ensures ok ==> Placed(h.View(plat), MaxDma(dev), old(h.MapArena(MaxDma(dev)).ptes[..]),
                          sg.dmaAddress[out], sg.dmaLength[out], BufBytes(sg.bufs, leader, e))
    ensures ok ==> sg.dmaLength[out] == Total(sg.bufs, leader, e) && sg.dmaAddress[out] >= 0 &&
                   ThroughWindow(h.MapArena(MaxDma(dev)),
                                 if dev.Some? then dev.value.segBoundary + 1 else 0x1_0000_0000,
                                 sg.bufs[leader].paddr, sg.dmaAddress[out], sg.dmaLength[out])
    ensures !ok ==> NoRoomFor(h, dev, old(h.MapArena(MaxDma(dev)).ptes[..]),
                              sg.bufs[leader].paddr, Total(sg.bufs, leader, e))
  {
    hide NumPages, NextFit, Wrote, Backs, Placed, ApartExtents, GroupEnd, FollowerOk, IsPow2, AlignUp, ThroughWindow,
      NoRoomFor;
    ghost var was := h.MapArena(MaxDma(dev)).ptes[..];
    ghost var m := sg.dmaAddress[..];
    var arena := h.MapArena(MaxDma(dev));
    var off, size := sg.bufs[leader].paddr % PAGE_SIZE, sg.dmaLength[leader];
    var npages := NumPages(off, size);
    SameOffsetSamePages(off, sg.bufs[leader].paddr, size);
    var ofs := arena.Alloc(npages, 0, Boundary(dev));
    ghost var r := arena.RequestFor(npages, Max(0, arena.alignEntry), Boundary(dev));
    if ofs < 0 {
      GrantRefused(h, dev, was, old(arena.nextEntry), sg.bufs[leader].paddr, size, ofs);
      return false;
    }
    GrantThroughWindow(arena, dev, was, old(arena.nextEntry), Max(0, arena.alignEntry), sg.bufs[leader].paddr, size,
                       ofs);
    GrantIsFree(was, old(arena.nextEntry), r, ofs);
    if npages == 0 { NoPagesNoBytes(off, size); }
    ghost var marked := arena.ptes[..];
    sg.dmaAddress[out] := arena.dmaBase + ofs * PAGE_SIZE + off;
    sg.dmaLength[out] := size;
    FollowersFrame(sg.bufs, m, sg.dmaAddress[..], leader, e);
    WriteGroup(sg, leader, e, arena, ofs);
    IommuPlaced(h.View(plat), MaxDma(dev), was, marked, ofs, sg.bufs[leader].paddr, BufBytes(sg.bufs, leader, e));
    return true;
  }

  lemma GrantRefused(h: Hose, dev: Option<Device>, ptes: seq<nat>, next: nat, paddr: nat, size: nat, p: int)
    requires DeviceOk(dev) && h.MapArena(MaxDma(dev)).alignEntry > 0 && p < 0
    requires var a := h.MapArena(MaxDma(dev));
             NextFit(ptes, next, a.RequestFor(NumPages(paddr, size), Max(0, a.alignEntry), Boundary(dev)), p)
    ensures NoRoomFor(h, dev, ptes, paddr, size)
  {
    hide NumPages, AlignUp, IsPow2, SpansBoundary;
  }

  lemma GrantIsFree(ptes: seq<nat>, next: nat, r: Request, p: nat)
    requires r.align > 0 && r.boundary > 0 && NextFit(ptes, next, r, p)
    ensures AllFree(ptes, p, r.n)
    ensures r.n > 0 ==> p + r.n <= |ptes|
  {
    assert r.n > 0 ==> IsFree(ptes, p + r.n - 1);
  }

  lemma FollowersFrame(b: seq<Buf>, m: seq<int>, m': seq<int>, l: nat, e: nat)
    requires l < e <= |b| == |m| == |m'| && e == GroupEnd(m, l + 1, |b|)
    requires forall k | l < k < |b| :: m'[k] == m[k]
    requires forall k | l < k < e :: FollowerOk(b, m, k)
    ensures e == GroupEnd(m', l + 1, |b|)
    ensures forall k | l < k < e :: FollowerOk(b, m', k)
  {
    GroupEndIs(m', l + 1, |b|, e);
    forall k | l < k < e
      ensures FollowerOk(b, m', k)
    {
      assert FollowerOk(b, m, k);
    }
  }

  /** Facts about the group at `leader` that every route of sg_fill starts from. */
  lemma GroupFacts(b: seq<Buf>, m: seq<int>, d: seq<nat>, l: nat, e: nat)
    requires l < |b| == |m| == |d| && Grouped(b, m, d, l, |b|) && e == GroupEnd(m, l + 1, |b|)
    ensures m[l] == LEADER_PHYS || m[l] == LEADER_VIRT
    ensures d[l] == Total(b, l, e) && Grouped(b, m, d, e, |b|)
    ensures forall k | l < k < e :: FollowerOk(b, m, k)
    ensures m[l] == LEADER_PHYS <==> AllPhys(m, l, e)
    ensures m[l] == LEADER_PHYS ==> OneRun(b, l, e, d[l])
  {
    hide OneRun, FollowerOk, Total;
    assert ElementOk(b, m, d, l, l, |b|);
    GroupedTail(b, m, d, l, |b|);
    forall k | l < k < e
      ensures FollowerOk(b, m, k)
    {
      assert ElementOk(b, m, d, l, k, |b|);
    }
    if m[l] == LEADER_PHYS { PhysGroupIsRun(b, m, l, e); }
  }

  /** The rest of the list, and the end of the group, after element out <= l was written. */
  lemma RestFrame(b: seq<Buf>, m: seq<int>, d: seq<nat>, m': seq<int>, d': seq<nat>, l: nat, e: nat)
    requires l < |b| == |m| == |d| == |m'| == |d'|
    requires e == GroupEnd(m, l + 1, |b|) && Grouped(b, m, d, e, |b|)
    requires forall k | l < k < |b| :: m'[k] == m[k] && d'[k] == d[k]
    ensures GroupEnd(m', l + 1, |b|) == e && Grouped(b, m', d', e, |b|)
  {
    GroupEndIs(m', l + 1, |b|, e);
    GroupedFrame(b, m, d, m', d', e, |b|);
  }

  /** Without a buffer-invalidate routine the code has no arena to fall back on: every
      group must be contiguous and reachable directly or by DAC. */
  ghost predicate NeedsNoArena(b: seq<Buf>, m: seq<int>, lo: nat, plat: Platform, maxDma: nat, dacAllowed: bool)
    requires lo <= |b| == |m|
  {
    maxDma == U64(-1) &&
    forall k | lo <= k < |b| :: FitsWithoutArena(b, m, k, plat, dacAllowed)
  }

  ghost predicate FitsWithoutArena(b: seq<Buf>, m: seq<int>, k: nat, plat: Platform, dacAllowed: bool)
    requires k < |b| == |m|
  {
    m[k] != LEADER_VIRT && m[k] != FOLLOWS_VIRT &&
    (dacAllowed || b[k].paddr + b[k].length <= plat.directSize)
  }

  lemma ArenaReached(b: seq<Buf>, m: seq<int>, d: seq<nat>, l: nat, e: nat,
                     plat: Platform, maxDma: nat, dacAllowed: bool)
    requires l < e <= |b| == |m| == |d| && (m[l] == LEADER_PHYS ==> OneRun(b, l, e, d[l]))
    requires plat.hasTbi || NeedsNoArena(b, m, l, plat, maxDma, dacAllowed)
    requires m[l] == LEADER_PHYS || m[l] == LEADER_VIRT
    ensures plat.hasTbi || (m[l] == LEADER_PHYS && (dacAllowed || DirectOk(plat, b[l].paddr, d[l], maxDma)))
  {
    if !plat.hasTbi {
      assert FitsWithoutArena(b, m, l, plat, dacAllowed);
      NoArenaNoIommu(b, m, d, l, e, plat, maxDma, dacAllowed);
    }
  }

  lemma NoArenaNoIommu(b: seq<Buf>, m: seq<int>, d: seq<nat>, l: nat, e: nat,
                       plat: Platform, maxDma: nat, dacAllowed: bool)
    requires l < e <= |b| == |m| == |d| && OneRun(b, l, e, d[l])
    requires NeedsNoArena(b, m, l, plat, maxDma, dacAllowed)
    ensures dacAllowed || DirectOk(plat, b[l].paddr, d[l], maxDma)
  {
    assert FitsWithoutArena(b, m, e - 1, plat, dacAllowed);
  }

  /** What a device demands of the range of group [l, e): the route and the place that `Routed`
      asks for.  Without a buffer-invalidate routine a list ignores the device's mask. */
  ghost predicate GroupRouted(h: Hose, plat: Platform, dev: Option<Device>, dacAllowed: bool,
                              b: seq<Buf>, l: nat, e: nat, addr: int, len: nat)
    requires l < e <= |b|
  {
    var driven := if dev.Some? then dev.value.mask else 0xff_ffff;
    var mask := if plat.hasTbi || |b| == 1 then driven else U64_MODULUS - 1;
    var seg := if dev.Some? then dev.value.segBoundary + 1 else 0x1_0000_0000;
    len == Total(b, l, e) && Routed(h, plat, mask, seg, dacAllowed, Contiguous(b, l, e), b[l].paddr, addr, len)
  }

  /** The table has no room for group [l, e), which has no other route. */
  ghost predicate GroupRefused(h: Hose, plat: Platform, dev: Option<Device>, dacAllowed: bool, ptes: seq<nat>,
                               b: seq<Buf>, l: nat, e: nat)
    requires l < e <= |b|
  {
    var mask := if dev.Some? then dev.value.mask else 0xff_ffff;
    NoRoomFor(h, dev, ptes, b[l].paddr, Total(b, l, e)) && plat.hasTbi &&
    (Contiguous(b, l, e) && FitsBus(plat) ==>
       !dacAllowed && !DirectServes(plat, mask, b[l].paddr, Total(b, l, e)))
  }

  /** What sg_fill has found out about the list: whether virtual joins are still allowed, the end
      of the group it dealt with last, and, if it gave up virtual joins, the end of the group
      that made it do so. */
  datatype Finding = Finding(virtOk: bool, end: nat, gaveUpAt: nat)

  ghost predicate FindingOk(h: Hose, plat: Platform, dev: Option<Device>, dacAllowed: bool, was: seq<nat>,
                            b: seq<Buf>, l: nat, virtOk: bool, maxSeg: nat, f: Finding)
  {
    l < f.end <= |b| && MaximalGroup(b, l, f.end, f.virtOk, maxSeg) &&
    (f.virtOk != virtOk ==>
       virtOk && l < f.gaveUpAt <= |b| && MaximalGroup(b, l, f.gaveUpAt, true, maxSeg) &&
       !Contiguous(b, l, f.gaveUpAt) && GroupRefused(h, plat, dev, dacAllowed, was, b, l, f.gaveUpAt))
  }

  /** sg_fill: one bus range for the group at `leader`, written to element out <= leader.
      If the IOMMU is full, a group with virtual joins is broken up, with all that follows
      it, into contiguous groups and tried again. */
  method FillGroup(sg: SgList, leader: nat, out: nat, h: Hose, plat: Platform, dev: Option<Device>,
                   maxDma: nat, dacAllowed: bool, ghost virtOk: bool) returns (r: int, ghost f: Finding)
    requires sg.Valid() && out <= leader < |sg.bufs| && |sg.bufs| > 1
    requires h.Valid(plat) && DeviceOk(dev) && Separate(sg, h)
    requires dacAllowed ==> plat.dacOffset != 0
    requires maxDma == if plat.hasTbi then MaxDma(dev) else U64(-1)
    requires Grouped(sg.bufs, sg.dmaAddress[..], sg.dmaLength[..], leader, |sg.bufs|)
    requires Coarsest(sg.bufs, sg.dmaAddress[..], leader, |sg.bufs|, virtOk, MaxSegment(dev))
    requires plat.hasTbi || NeedsNoArena(sg.bufs, sg.dmaAddress[..], leader, plat, maxDma, dacAllowed)
    modifies h.MapArena(MaxDma(dev)), h.MapArena(MaxDma(dev)).ptes, sg.dmaAddress, sg.dmaLength
    ensures FindingOk(h, plat, dev, dacAllowed, old(h.MapArena(MaxDma(dev)).ptes[..]), sg.bufs, leader, virtOk,
                      MaxSegment(dev), f)
    ensures r < 0 ==> plat.hasTbi && h.MapArena(MaxDma(dev)).ptes[..] == old(h.MapArena(MaxDma(dev)).ptes[..]) &&
                      sg.dmaAddress[..leader] == old(sg.dmaAddress[..leader]) &&
                      sg.dmaLength[..leader] == old(sg.dmaLength[..leader])
    ensures r < 0 ==> Contiguous(sg.bufs, leader, f.end) &&
                      GroupRefused(h, plat, dev, dacAllowed, h.MapArena(MaxDma(dev)).ptes[..], sg.bufs, leader, f.end)
    ensures r >= 0 ==> forall k | 0 <= k < leader && k != out ::
                         sg.dmaAddress[k] == old(sg.dmaAddress[k]) && sg.dmaLength[k] == old(sg.dmaLength[k])
    ensures r >= 0 ==> GroupFilled(h, h.View(plat), dev, dacAllowed, old(h.MapArena(MaxDma(dev)).ptes[..]), sg.bufs,
                                   sg.dmaAddress[..], sg.dmaLength[..], leader, f.end, out, f.virtOk)
    ensures r >= 0 && !plat.hasTbi ==> forall k | leader < k < |sg.bufs| :: sg.dmaAddress[k] == old(sg.dmaAddress[k])
    decreases sg.dmaAddress[leader]
  {
    hide GroupFilled, Grouped, Coarsest, MaximalGroup, GroupRefused, Contiguous, FindingOk, NeedsNoArena, ApartExtents,
      GroupEnd, IsPow2, AllPhys, FollowerOk, OneRun, Total;
    ghost var b, m, was := sg.bufs, sg.dmaAddress[..], h.MapArena(MaxDma(dev)).ptes[..];
    ghost var e := GroupEnd(m, leader + 1, |b|);
    GroupFacts(b, m, sg.dmaLength[..], leader, e);
    FirstGroupMaximal(b, m, leader, e, virtOk, MaxSegment(dev));
    f := Finding(virtOk, e, e);
    SameFinding(h, plat, dev, dacAllowed, was, b, leader, virtOk, e);
    r := TryGroup(sg, leader, e, out, h, plat, dev, maxDma, dacAllowed, virtOk);
    if r >= 0 || sg.dmaAddress[leader] == LEADER_PHYS { return; }
    var maxSeg := if dev.Some? then dev.value.maxSegSize else 0;
    sg.Classify(leader, false, maxSeg);
    NoVirtualJoins(b, sg.dmaAddress[..], sg.dmaLength[..], leader, |b|, maxSeg);
    r, f := FillGroup(sg, leader, out, h, plat, dev, maxDma, dacAllowed, false);
    f := GaveUp(h, plat, dev, dacAllowed, was, b, leader, virtOk, e, f);
  }

  /** One attempt of sg_fill at the group [leader, e): contiguous through the direct window or
      the DAC range, else through the IOMMU. */
  method TryGroup(sg: SgList, leader: nat, ghost e: nat, out: nat, h: Hose, plat: Platform, dev: Option<Device>,
                  maxDma: nat, dacAllowed: bool, ghost virtOk: bool) returns (r: int)
    requires sg.Valid() && out <= leader < |sg.bufs| && |sg.bufs| > 1
    requires h.Valid(plat) && DeviceOk(dev) && Separate(sg, h)
    requires dacAllowed ==> plat.dacOffset != 0
    requires maxDma == if plat.hasTbi then MaxDma(dev) else U64(-1)
    requires Grouped(sg.bufs, sg.dmaAddress[..], sg.dmaLength[..], leader, |sg.bufs|)
    requires Coarsest(sg.bufs, sg.dmaAddress[..], leader, |sg.bufs|, virtOk, MaxSegment(dev))
    requires plat.hasTbi || NeedsNoArena(sg.bufs, sg.dmaAddress[..], leader, plat, maxDma, dacAllowed)
    requires e == GroupEnd(sg.dmaAddress[..], leader + 1, |sg.bufs|)
    modifies h.MapArena(MaxDma(dev)), h.MapArena(MaxDma(dev)).ptes, sg.dmaAddress, sg.dmaLength
    ensures r < 0 ==> plat.hasTbi && h.MapArena(MaxDma(dev)).ptes[..] == old(h.MapArena(MaxDma(dev)).ptes[..]) &&
                      sg.dmaAddress[..] == old(sg.dmaAddress[..]) && sg.dmaLength[..] == old(sg.dmaLength[..])
    ensures r < 0 ==> (sg.dmaAddress[leader] == LEADER_PHYS || sg.dmaAddress[leader] == LEADER_VIRT) &&
                      (sg.dmaAddress[leader] == LEADER_PHYS <==> Contiguous(sg.bufs, leader, e)) &&
                      GroupRefused(h, plat, dev, dacAllowed, h.MapArena(MaxDma(dev)).ptes[..], sg.bufs, leader, e)
    ensures r >= 0 ==> forall k | 0 <= k < |sg.bufs| && k != out ::
                         sg.dmaAddress[k] == old(sg.dmaAddress[k]) && sg.dmaLength[k] == old(sg.dmaLength[k])
    ensures r >= 0 ==> GroupFilled(h, h.View(plat), dev, dacAllowed, old(h.MapArena(MaxDma(dev)).ptes[..]), sg.bufs,
                                   sg.dmaAddress[..], sg.dmaLength[..], leader, e, out, virtOk)
  {
    hide NumPages, Placed, ApartExtents, FollowerOk, Grouped, IsPow2, Total, BufBytes, OneRun, DirectOk, NeedsNoArena,
      ServingWindow, GroupEnd, Coarsest, MaximalGroup, GroupRefused, Contiguous, NoRoomFor, ThroughWindow,
      GroupFilled, AllPhys;
    ghost var b, m, d, was := sg.bufs, sg.dmaAddress[..], sg.dmaLength[..], h.MapArena(MaxDma(dev)).ptes[..];
    GroupFacts(b, m, d, leader, e);
    TotalPositive(b, leader, e);
    FirstGroupMaximal(b, m, leader, e, virtOk, MaxSegment(dev));
    var done := FillContiguous(sg, leader, e, out, h, plat, dev, maxDma, dacAllowed);
    if done {
      ServedByArena(h, plat, MaxDma(dev));
      FilledWithoutTable(h, h.View(plat), dev, maxDma, dacAllowed, was, b, m, sg.dmaAddress[..], sg.dmaLength[..],
                         leader, e, out, virtOk);
      return 0;
    }
    ArenaReached(b, m, d, leader, e, plat, maxDma, dacAllowed);
    var ok := PlaceGroup(sg, leader, e, out, h, plat, dev);
    if !ok {
      RefusedGroup(h, plat, dev, maxDma, dacAllowed, was, b, m, leader, e, d[leader]);
      return -1;
    }
    FilledThroughTable(h, h.View(plat), dev, maxDma, dacAllowed, was, b, m, d, sg.dmaAddress[..], sg.dmaLength[..],
                       leader, e, out, virtOk);
    return 1;
  }

  /** Group [l, e) has its bus range in entry out of m and d, and behind it the list is still
      grouped, as coarsely as virtOk allows. */
  ghost predicate GroupFilled(h: Hose, v: BusView, dev: Option<Device>, dacAllowed: bool, was: seq<nat>, b: seq<Buf>,
                              m: seq<int>, d: seq<nat>, l: nat, e: nat, out: nat, virtOk: bool)
    requires out <= l < |b| == |m| == |d|
  {
    && l < e == GroupEnd(m, l + 1, |b|) && Grouped(b, m, d, e, |b|)
    && Coarsest(b, m, e, |b|, virtOk, MaxSegment(dev))
    && Placed(v, MaxDma(dev), was, m[out], d[out], BufBytes(b, l, e))
    && GroupRouted(h, v.plat, dev, dacAllowed, b, l, e, m[out], d[out])
  }

  lemma FilledWithoutTable(h: Hose, v: BusView, dev: Option<Device>, maxDma: nat, dacAllowed: bool, was: seq<nat>,
                           b: seq<Buf>, m: seq<int>, m': seq<int>, d': seq<nat>, l: nat, e: nat, out: nat, virtOk: bool)
    requires out <= l < e <= |b| == |m| == |m'| == |d'| && |b| > 1
    requires maxDma == if v.plat.hasTbi then MaxDma(dev) else U64(-1)
    requires (forall k | l < k < e :: FollowerOk(b, m, k)) && AllPhys(m, l, e) && d'[out] == Total(b, l, e) > 0
    requires e == GroupEnd(m, l + 1, |b|) && Coarsest(b, m, e, |b|, virtOk, MaxSegment(dev))
    requires m' == m[out := m'[out]] && GroupEnd(m', l + 1, |b|) == e && Grouped(b, m', d', e, |b|)
    requires var direct := DirectOk(v.plat, b[l].paddr, d'[out], maxDma);
             (dacAllowed || direct) &&
             m'[out] == b[l].paddr + if direct then v.plat.directBase else v.plat.dacOffset
    requires Placed(v, MaxDma(dev), was, m'[out], d'[out], BufBytes(b, l, e))
    ensures GroupFilled(h, v, dev, dacAllowed, was, b, m', d', l, e, out, virtOk)
  {
    hide Grouped, Coarsest, Placed, BufBytes, GroupRouted, DirectOk, AllPhys, FollowerOk, GroupEnd, Total;
    RestCoarsest(b, m, m', l, e, virtOk, MaxSegment(dev));
    NoTableRouted(h, v.plat, dev, maxDma, dacAllowed, b, m, l, e, m'[out], d'[out]);
  }

  lemma FilledThroughTable(h: Hose, v: BusView, dev: Option<Device>, maxDma: nat, dacAllowed: bool, was: seq<nat>,
                           b: seq<Buf>, m: seq<int>, d: seq<nat>, m': seq<int>, d': seq<nat>, l: nat, e: nat, out: nat,
                           virtOk: bool)
    requires out <= l < e <= |b| == |m| == |d| == |m'| == |d'| && v.plat.hasTbi && maxDma == MaxDma(dev)
    requires (forall k | l < k < e :: FollowerOk(b, m, k)) && d'[out] == Total(b, l, e) > 0 && d[l] == d'[out]
    requires AllPhys(m, l, e) ==> !dacAllowed && !DirectOk(v.plat, b[l].paddr, d[l], maxDma)
    requires e == GroupEnd(m, l + 1, |b|) && Coarsest(b, m, e, |b|, virtOk, MaxSegment(dev)) && Grouped(b, m, d, e, |b|)
    requires forall k | l < k < |b| :: m'[k] == m[k] && d'[k] == d[k]
    requires m'[out] >= 0 &&
             ThroughWindow(h.MapArena(MaxDma(dev)), if dev.Some? then dev.value.segBoundary + 1 else 0x1_0000_0000,
                           b[l].paddr, m'[out], d'[out])
    requires Placed(v, MaxDma(dev), was, m'[out], d'[out], BufBytes(b, l, e))
    ensures GroupFilled(h, v, dev, dacAllowed, was, b, m', d', l, e, out, virtOk)
  {
    hide Grouped, Coarsest, Placed, BufBytes, GroupRouted, DirectOk, AllPhys, FollowerOk, GroupEnd, Total,
      ThroughWindow;
    RestFrame(b, m, d, m', d', l, e);
    RestCoarsest(b, m, m', l, e, virtOk, MaxSegment(dev));
    TableRouted(h, v.plat, dev, maxDma, dacAllowed, b, m, d, l, e, m'[out], d'[out]);
  }

  /** The largest segment the device takes; without a device nothing is merged. */
  function MaxSegment(dev: Option<Device>): nat {
    if dev.Some? then dev.value.maxSegSize else 0
  }

  lemma SameFinding(h: Hose, plat: Platform, dev: Option<Device>, dacAllowed: bool, was: seq<nat>,
                    b: seq<Buf>, l: nat, virtOk: bool, e: nat)
    requires l < e <= |b| && MaximalGroup(b, l, e, virtOk, MaxSegment(dev))
    ensures FindingOk(h, plat, dev, dacAllowed, was, b, l, virtOk, MaxSegment(dev), Finding(virtOk, e, e))
  {
    hide MaximalGroup;
  }

  lemma RestCoarsest(b: seq<Buf>, m: seq<int>, m': seq<int>, l: nat, e: nat, virtOk: bool, maxSeg: nat)
    requires l < e <= |b| == |m| == |m'| && e == GroupEnd(m, l + 1, |b|) && Coarsest(b, m, e, |b|, virtOk, maxSeg)
    requires forall k | l < k < |b| :: m'[k] == m[k]
    ensures Coarsest(b, m', e, |b|, virtOk, maxSeg)
  {
    hide Coarsest;
    CoarsestFrame(b, m, m', e, |b|, virtOk, maxSeg);
  }

  /** A group placed by the direct or the DAC route. */
  lemma NoTableRouted(h: Hose, plat: Platform, dev: Option<Device>, maxDma: nat, dacAllowed: bool,
                      b: seq<Buf>, m: seq<int>, l: nat, e: nat, addr: int, len: nat)
    requires l < e <= |b| == |m| && |b| > 1 && maxDma == (if plat.hasTbi then MaxDma(dev) else U64(-1))
    requires (forall k | l < k < e :: FollowerOk(b, m, k)) && AllPhys(m, l, e) && len == Total(b, l, e) > 0
    requires dacAllowed || DirectOk(plat, b[l].paddr, len, maxDma)
    requires addr == b[l].paddr + if DirectOk(plat, b[l].paddr, len, maxDma) then plat.directBase else plat.dacOffset
    ensures GroupRouted(h, plat, dev, dacAllowed, b, l, e, addr, len)
  {
    hide DirectOk, DirectServes, Contiguous, AllPhys, FollowerOk, ThroughWindow;
    PhysMeansContiguous(b, m, l, e);
    AllOnes();
    if FitsBus(plat) { DirectOkMeans(plat, b[l].paddr, len, maxDma); }
  }

  lemma AllOnes()
    ensures U64(-1) == U64_MODULUS - 1
  {}

  /** A group placed through the IOMMU. */
  lemma TableRouted(h: Hose, plat: Platform, dev: Option<Device>, maxDma: nat, dacAllowed: bool,
                    b: seq<Buf>, m: seq<int>, d: seq<nat>, l: nat, e: nat, addr: int, len: nat)
    requires l < e <= |b| == |m| == |d| && plat.hasTbi && maxDma == MaxDma(dev)
    requires (forall k | l < k < e :: FollowerOk(b, m, k)) && len == Total(b, l, e) > 0 && d[l] == len
    requires AllPhys(m, l, e) ==> !dacAllowed && !DirectOk(plat, b[l].paddr, len, maxDma)
    requires addr >= 0 &&
             ThroughWindow(h.MapArena(MaxDma(dev)), if dev.Some? then dev.value.segBoundary + 1 else 0x1_0000_0000,
                           b[l].paddr, addr, len)
    ensures GroupRouted(h, plat, dev, dacAllowed, b, l, e, addr, len)
  {
    hide DirectOk, DirectServes, Contiguous, AllPhys, FollowerOk, ThroughWindow;
    PhysMeansContiguous(b, m, l, e);
    if FitsBus(plat) { DirectOkMeans(plat, b[l].paddr, len, maxDma); }
  }

  lemma RefusedGroup(h: Hose, plat: Platform, dev: Option<Device>, maxDma: nat, dacAllowed: bool, was: seq<nat>,
                     b: seq<Buf>, m: seq<int>, l: nat, e: nat, len: nat)
    requires l < e <= |b| == |m| && plat.hasTbi && maxDma == MaxDma(dev)
    requires (forall k | l < k < e :: FollowerOk(b, m, k)) && len == Total(b, l, e) > 0
    requires AllPhys(m, l, e) ==> !dacAllowed && !DirectOk(plat, b[l].paddr, len, maxDma)
    requires NoRoomFor(h, dev, was, b[l].paddr, len)
    ensures GroupRefused(h, plat, dev, dacAllowed, was, b, l, e) && (Contiguous(b, l, e) <==> AllPhys(m, l, e))
  {
    hide DirectOk, DirectServes, Contiguous, AllPhys, FollowerOk, NoRoomFor;
    PhysMeansContiguous(b, m, l, e);
    if FitsBus(plat) { DirectOkMeans(plat, b[l].paddr, len, maxDma); }
  }

  /** Virtual joins were given up at this leader because of group [l, e). */
  lemma GaveUp(h: Hose, plat: Platform, dev: Option<Device>, dacAllowed: bool, was: seq<nat>,
               b: seq<Buf>, l: nat, virtOk: bool, e: nat, f: Finding) returns (f': Finding)
    requires l < e <= |b| && MaximalGroup(b, l, e, virtOk, MaxSegment(dev))
    requires !Contiguous(b, l, e) && GroupRefused(h, plat, dev, dacAllowed, was, b, l, e)
    requires FindingOk(h, plat, dev, dacAllowed, was, b, l, false, MaxSegment(dev), f)
    ensures f' == f.(gaveUpAt := e)
    ensures FindingOk(h, plat, dev, dacAllowed, was, b, l, virtOk, MaxSegment(dev), f')
  {
    hide MaximalGroup, Contiguous, GroupRefused;
    f' := f.(gaveUpAt := e);
  }

  /** The two routes of sg_fill for a physically contiguous group that need no table. */
  method FillContiguous(sg: SgList, leader: nat, ghost e: nat, out: nat, h: Hose, plat: Platform,
                        dev: Option<Device>, maxDma: nat, dacAllowed: bool) returns (done: bool)
    requires sg.Valid() && out <= leader < e <= |sg.bufs|
    requires h.Valid(plat) && Separate(sg, h) && (dacAllowed ==> plat.dacOffset != 0)
    requires e == GroupEnd(sg.dmaAddress[..], leader + 1, |sg.bufs|)
    requires Grouped(sg.bufs, sg.dmaAddress[..], sg.dmaLength[..], e, |sg.bufs|)
    requires sg.dmaLength[leader] > 0
    requires sg.dmaAddress[leader] == LEADER_PHYS ==> OneRun(sg.bufs, leader, e, sg.dmaLength[leader])
    modifies sg.dmaAddress, sg.dmaLength
    ensures done == old(sg.dmaAddress[leader] == LEADER_PHYS &&
                        (dacAllowed || DirectOk(plat, sg.bufs[leader].paddr, sg.dmaLength[leader], maxDma)))
    ensures !done ==> sg.dmaAddress[..] == old(sg.dmaAddress[..]) && sg.dmaLength[..] == old(sg.dmaLength[..])
    ensures var paddr, size := sg.bufs[leader].paddr, old(sg.dmaLength[leader]);
            done ==> sg.dmaLength[out] == size &&
                     sg.dmaAddress[out] == paddr + if DirectOk(plat, paddr, size, maxDma) then plat.directBase
                                                   else plat.dacOffset
    ensures done ==>
              sg.dmaAddress[..] == old(sg.dmaAddress[..])[out := sg.dmaAddress[out]] &&
              sg.dmaLength[..] == old(sg.dmaLength[..])[out := sg.dmaLength[out]] &&
              GroupEnd(sg.dmaAddress[..], leader + 1, |sg.bufs|) == e &&
              Grouped(sg.bufs, sg.dmaAddress[..], sg.dmaLength[..], e, |sg.bufs|) &&
              Placed(h.View(plat), MaxDma(dev), h.MapArena(MaxDma(dev)).ptes[..],
                     sg.dmaAddress[out], sg.dmaLength[out], BufBytes(sg.bufs, leader, e))
  {
    hide Placed, ApartExtents, Grouped, Total, BufBytes, OneRun, DirectOk, ServingWindow, GroupEnd;
    ServedByArena(h, plat, MaxDma(dev));
    var paddr, size := sg.bufs[leader].paddr, sg.dmaLength[leader];
    if sg.dmaAddress[leader] == LEADER_PHYS && DirectOk(plat, paddr, size, maxDma) {
      DirectGroupPlaced(h.View(plat), MaxDma(dev), maxDma, sg.bufs, leader, e, size);
      SetOut(sg, leader, e, out, paddr + plat.directBase, size);
      return true;
    }
    if sg.dmaAddress[leader] == LEADER_PHYS && dacAllowed {
      DacGroupPlaced(h.View(plat), MaxDma(dev), sg.bufs, leader, e, size);
      SetOut(sg, leader, e, out, paddr + plat.dacOffset, size);
      return true;
    }
    return false;
  }

  /** Storing the result in the list element `out` leaves the unread elements alone. */
  method SetOut(sg: SgList, leader: nat, ghost e: nat, out: nat, addr: nat, len: nat)
    requires sg.Valid() && out <= leader < |sg.bufs|
    requires e == GroupEnd(sg.dmaAddress[..], leader + 1, |sg.bufs|)
    requires Grouped(sg.bufs, sg.dmaAddress[..], sg.dmaLength[..], e, |sg.bufs|)
    modifies sg.dmaAddress, sg.dmaLength
    ensures sg.dmaAddress[..] == old(sg.dmaAddress[..])[out := addr]
    ensures sg.dmaLength[..] == old(sg.dmaLength[..])[out := len]
    ensures GroupEnd(sg.dmaAddress[..], leader + 1, |sg.bufs|) == e
    ensures Grouped(sg.bufs, sg.dmaAddress[..], sg.dmaLength[..], e, |sg.bufs|)
  {
    hide Grouped, GroupEnd;
    ghost var m, d := sg.dmaAddress[..], sg.dmaLength[..];
    sg.dmaAddress[out] := addr;
    sg.dmaLength[out] := len;
    RestFrame(sg.bufs, m, d, sg.dmaAddress[..], sg.dmaLength[..], leader, e);
  }

  lemma TotalPositive(b: seq<Buf>, l: nat, e: nat)
    requires l < e <= |b| && forall i | 0 <= i < |b| :: b[i].length > 0
    ensures Total(b, l, e) > 0
  {}

  lemma DirectGroupPlaced(v: BusView, arenaMask: nat, maxDma: nat, b: seq<Buf>, l: nat, e: nat, size: nat)
    requires l < e <= |b| && OneRun(b, l, e, size) && size > 0 && DirectOk(v.plat, b[l].paddr, size, maxDma)
    ensures Placed(v, arenaMask, ServingWindow(v, arenaMask).ptes, b[l].paddr + v.plat.directBase, size,
                   BufBytes(b, l, e))
  {
    hide Placed, ApartExtents, DirectOk, ServingWindow;
    DirectPlaced(v, arenaMask, maxDma, b[l].paddr, size);
  }

  lemma DacGroupPlaced(v: BusView, arenaMask: nat, b: seq<Buf>, l: nat, e: nat, size: nat)
    requires l < e <= |b| && OneRun(b, l, e, size) && Apart(v) && v.plat.dacOffset != 0
    ensures Placed(v, arenaMask, ServingWindow(v, arenaMask).ptes, b[l].paddr + v.plat.dacOffset, size,
                   BufBytes(b, l, e))
  {
    hide Placed, ApartExtents, DirectOk, ServingWindow;
    DacPlaced(v, arenaMask, b[l].paddr, size);
  }

  // --- Unmapping a list ------------------------------------------------------------

  /** The segments pci_unmap_sg frees for a list of nents entries. */
  ghost function UnmappedSegs(plat: Platform, m: seq<int>, d: seq<nat>, nents: nat): seq<Segment>
    requires nents <= |m| == |d|
  {
    SegsOf(plat, m, d, StopAt(d, 0, nents))
  }

  /** pci_unmap_sg.  The IOMMU ranges of the list must lie in the arena's table. */
  method UnmapSg(sg: SgList, nents: nat, h: Hose, plat: Platform, dev: Option<Device>)
    requires sg.Valid() && nents <= |sg.bufs| && h.Valid(plat) && Separate(sg, h)
    requires var a := h.MapArena(MaxDma(dev));
             plat.hasTbi ==>
               SegsInside(a.dmaBase, UnmappedSegs(plat, sg.dmaAddress[..], sg.dmaLength[..], nents), a.ptes.Length)
    modifies h.MapArena(MaxDma(dev)), h.MapArena(MaxDma(dev)).ptes
    ensures var a := h.MapArena(MaxDma(dev));
            var segs := UnmappedSegs(plat, sg.dmaAddress[..], sg.dmaLength[..], nents);
            a.State() == if plat.hasTbi && SegsInside(a.dmaBase, segs, a.ptes.Length)
                         then UnmapAll(old(a.State()), a.dmaBase, segs) else old(a.State())
  {
    hide NumPages, Skipped, U64, FreeAll, FlushBegin, FlushEnd, SegsOf, StopAt, ApartExtents, MarkRange;
    if !plat.hasTbi { return; }
    var arena := h.MapArena(MaxDma(dev));
    ghost var m, d := sg.dmaAddress[..], sg.dmaLength[..];
    ghost var stop := StopAt(d, 0, nents);
    ghost var was, segs := arena.ptes[..], SegsOf(plat, m, d, stop);
    var fbeg, fend := U64(-1), 0;
    var i := 0;
    NoSegments(plat, m, d, was, arena.dmaBase);
    while i < nents && sg.dmaLength[i] != 0
      modifies arena.ptes
      invariant i <= stop && sg.dmaAddress[..] == m && sg.dmaLength[..] == d
      invariant SegsOf(plat, m, d, i) <= segs
      invariant SegsInside(arena.dmaBase, SegsOf(plat, m, d, i), arena.ptes.Length)
      invariant arena.ptes[..] == FreeAll(was, arena.dmaBase, SegsOf(plat, m, d, i))
      invariant fbeg == FlushBegin(SegsOf(plat, m, d, i)) && fend == FlushEnd(SegsOf(plat, m, d, i))
    {
      var addr, size := BusAddress(sg.dmaAddress[i]), sg.dmaLength[i];
      SegsPrefix(plat, m, d, i + 1, stop);
      if !Skipped(plat, addr) {
        SegmentInside(plat, m, d, i, segs, arena.dmaBase, arena.ptes.Length);
        NextSegment(plat, m, d, i, was, arena.dmaBase);
        var n := NumPages(addr, size);
        var ofs := (addr - arena.dmaBase) / PAGE_SIZE;
        arena.Free(ofs, n);
        var tend := addr + size - 1;
        if fbeg > addr { fbeg := addr; }
        if fend < tend { fend := tend; }
      } else {
        SkipsEntry(plat, m, d, i);
      }
      i := i + 1;
    }
    if U64(fend - arena.dmaBase) / PAGE_SIZE >= arena.nextEntry {
      arena.FlushTlb(fbeg, fend);
    }
  }

  lemma NoSegments(plat: Platform, m: seq<int>, d: seq<nat>, was: seq<nat>, base: nat)
    requires |m| == |d|
    ensures SegsOf(plat, m, d, 0) == [] && FreeAll(was, base, []) == was
    ensures FlushBegin([]) == U64(-1) && FlushEnd([]) == 0
  {}

  lemma SegmentInside(plat: Platform, m: seq<int>, d: seq<nat>, i: nat, segs: seq<Segment>, base: nat, n: nat)
    requires i < |m| == |d| && !Skipped(plat, BusAddress(m[i]))
    requires SegsOf(plat, m, d, i + 1) <= segs && SegsInside(base, segs, n)
    ensures SegsInside(base, SegsOf(plat, m, d, i + 1), n)
    ensures var g := Segment(BusAddress(m[i]), d[i]);
            base <= g.addr && FirstPte(base, g) + PteCount(g) <= n
  {
    hide NumPages;
    var s := SegsOf(plat, m, d, i + 1);
    assert s[|s| - 1] == Segment(BusAddress(m[i]), d[i]) && s[|s| - 1] in segs;
    assert forall g | g in s :: g in segs;
  }

  lemma SkipsEntry(plat: Platform, m: seq<int>, d: seq<nat>, i: nat)
    requires i < |m| == |d| && Skipped(plat, BusAddress(m[i]))
    ensures SegsOf(plat, m, d, i + 1) == SegsOf(plat, m, d, i)
  {}

  /** What one freed range adds to the running table and flush bounds. */
  lemma NextSegment(plat: Platform, m: seq<int>, d: seq<nat>, i: nat, was: seq<nat>, base: nat)
    requires i < |m| == |d| && !Skipped(plat, BusAddress(m[i]))
    requires base <= BusAddress(m[i]) && forall g | g in SegsOf(plat, m, d, i) :: base <= g.addr
    ensures var g, s, s' := Segment(BusAddress(m[i]), d[i]), SegsOf(plat, m, d, i), SegsOf(plat, m, d, i + 1);
            s' == s + [g] && (forall h | h in s' :: base <= h.addr) &&
            FreeAll(was, base, s') == MarkRange(FreeAll(was, base, s), FirstPte(base, g), PteCount(g), 0) &&
            FlushBegin(s') == (if FlushBegin(s) > g.addr then g.addr else FlushBegin(s)) &&
            FlushEnd(s') == if FlushEnd(s) < g.addr + g.len - 1 then g.addr + g.len - 1 else FlushEnd(s)
  {
    hide NumPages, MarkRange;
    var g, s := Segment(BusAddress(m[i]), d[i]), SegsOf(plat, m, d, i);
    var s' := SegsOf(plat, m, d, i + 1);
    assert s' == s + [g] && s'[..|s'| - 1] == s && s'[|s'| - 1] == g;
  }

  lemma {:induction false} SegsPrefix(plat: Platform, m: seq<int>, d: seq<nat>, i: nat, j: nat)
    requires i <= j <= |m| == |d|
    ensures SegsOf(plat, m, d, i) <= SegsOf(plat, m, d, j)
  {
    if i == j {
    } else {
      SegsPrefix(plat, m, d, i, j - 1);
    }
  }

  // --- Mapping a list --------------------------------------------------------------

  /** The promise of pci_map_sg for the first o entries against the list's bytes up to
      element g: the device reads exactly those bytes, and the table gained exactly the
      entries that an unmap of these entries frees. */
  ghost predicate Mapped(v: BusView, maxDma: nat, was: seq<nat>, b: seq<Buf>, m: seq<int>, d: seq<nat>, o: nat, g: nat)
    requires o <= |m| == |d| && g <= |b|
  {
    DeviceBytes(v, m, d, o) == Known(BufBytes(b, 0, g)) &&
    TableIs(ServingWindow(v, maxDma).base, was, ServingWindow(v, maxDma).ptes, SegsOf(v.plat, m, d, o)) &&
    forall k | 0 <= k < o :: EntryOk(v.plat, m, d, k)
  }

  ghost predicate EntryOk(plat: Platform, m: seq<int>, d: seq<nat>, k: nat)
    requires k < |m| && k < |d|
  {
    d[k] > 0 && SkippedThroughout(plat, BusAddress(m[k]), d[k])
  }

  lemma NothingMapped(v: BusView, maxDma: nat, b: seq<Buf>, m: seq<int>, d: seq<nat>)
    requires |m| == |d|
    ensures Mapped(v, maxDma, ServingWindow(v, maxDma).ptes, b, m, d, 0, 0)
  {
    TableIsStart(ServingWindow(v, maxDma).base, ServingWindow(v, maxDma).ptes);
    assert Known([]) == [];
  }

  /** Placing one more group. */
  lemma MapOneMore(v: BusView, v': BusView, maxDma: nat, was: seq<nat>, b: seq<Buf>,
                   m: seq<int>, d: seq<nat>, m': seq<int>, d': seq<nat>, o: nat, g: nat, e: nat)
    requires o < |m| == |d| == |m'| == |d'| && g < e <= |b| && BufBytes(b, g, e) != []
    requires Mapped(v, maxDma, was, b, m, d, o, g)
    requires forall k | 0 <= k < o :: m'[k] == m[k] && d'[k] == d[k]
    requires OnlyTableOf(v, v', maxDma)
    requires Placed(v', maxDma, ServingWindow(v, maxDma).ptes, m'[o], d'[o], BufBytes(b, g, e))
    ensures Mapped(v', maxDma, was, b, m', d', o + 1, e)
  {
    hide TableIs, TableChange, OnlyTableOf, ServingWindow, Extends, SegsOf, BufBytes, Skipped, EntryChange,
      DeviceBytes, Known, Seen;
    var w, w' := ServingWindow(v, maxDma), ServingWindow(v', maxDma);
    EntriesFrame(v.plat, v, m, d, m', d', o);
    ExtendsByChange(v, v', maxDma, Segment(m'[o], d'[o]));
    SamePlatform(v, v');
    BytesOneMore(v, v', b, m', d', o, g, e);
    TableOneMore(v.plat, w.base, was, w.ptes, w'.ptes, m', d', o);
    EntriesOkMore(v.plat, m, d, m', d', o);
  }

  lemma EntriesOkMore(plat: Platform, m: seq<int>, d: seq<nat>, m': seq<int>, d': seq<nat>, o: nat)
    requires o < |m| == |d| == |m'| == |d'| && m'[o] >= 0
    requires forall k | 0 <= k < o :: EntryOk(plat, m, d, k) && m'[k] == m[k] && d'[k] == d[k]
    requires d'[o] > 0 && SkippedThroughout(plat, m'[o], d'[o])
    ensures forall k | 0 <= k < o + 1 :: EntryOk(plat, m', d', k)
  {
    hide SkippedThroughout;
    forall k | 0 <= k < o + 1
      ensures EntryOk(plat, m', d', k)
    {
      assert k < o ==> EntryOk(plat, m, d, k);
    }
  }

  lemma LengthsPositive(plat: Platform, m: seq<int>, d: seq<nat>, o: nat)
    requires o <= |m| == |d| && forall k | 0 <= k < o :: EntryOk(plat, m, d, k)
    ensures forall k | 0 <= k < o :: d[k] > 0
  {
    hide SkippedThroughout;
    forall k | 0 <= k < o
      ensures d[k] > 0
    {
      assert EntryOk(plat, m, d, k);
    }
  }

  lemma SamePlatform(v: BusView, v': BusView)
    requires Extends(v, v')
    ensures v.plat == v'.plat
  {}

  lemma BytesOneMore(v: BusView, v': BusView, b: seq<Buf>, m: seq<int>, d: seq<nat>, o: nat, g: nat, e: nat)
    requires o < |m| == |d| && g <= e <= |b| && Extends(v, v') && m[o] >= 0
    requires DeviceBytes(v, m, d, o) == Known(BufBytes(b, 0, g))
    requires Seen(v', m[o], d[o]) == Known(BufBytes(b, g, e))
    ensures DeviceBytes(v', m, d, o + 1) == Known(BufBytes(b, 0, e))
  {
    hide Extends, BufBytes, Known, Seen;
    KnownSplit(BufBytes(b, 0, g), BufBytes(b, g, e));
    DeviceBytesStable(v, v', m, d, o);
    BufBytesSplit(b, 0, g, e);
  }

  /** From v to v' only the table serving this mask changed. */
  ghost predicate OnlyTableOf(v: BusView, v': BusView, maxDma: nat) {
    v.plat == v'.plat && v.pci.Some? == v'.pci.Some? &&
    v.isa.base == v'.isa.base && |v.isa.ptes| == |v'.isa.ptes| &&
    (v.pci.Some? ==> v.pci.value.base == v'.pci.value.base && |v.pci.value.ptes| == |v'.pci.value.ptes|) &&
    if UsesIsa(v, maxDma) then v.pci == v'.pci else v.isa == v'.isa
  }

  lemma ExtendsByChange(v: BusView, v': BusView, maxDma: nat, g: Segment)
    requires OnlyTableOf(v, v', maxDma)
    requires TableChange(v'.plat, ServingWindow(v', maxDma).base, ServingWindow(v, maxDma).ptes,
                         ServingWindow(v', maxDma).ptes, g)
    ensures Extends(v, v')
    ensures v.plat == v'.plat && ServingWindow(v, maxDma).base == ServingWindow(v', maxDma).base
  {
    hide Holds, Skipped;
    var t, t' := ServingWindow(v, maxDma).ptes, ServingWindow(v', maxDma).ptes;
    if !Skipped(v'.plat, g.addr) {
      forall k: nat | k < |t'|
        ensures t[k] == 0 || t'[k] == t[k]
      {
        assert EntryChange(ServingWindow(v', maxDma).base, t, t', g, k);
      }
    }
  }

  lemma TableOneMore(plat: Platform, base: nat, was: seq<nat>, mid: seq<nat>, now: seq<nat>,
                     m: seq<int>, d: seq<nat>, o: nat)
    requires o < |m| == |d| && m[o] >= 0
    requires TableIs(base, was, mid, SegsOf(plat, m, d, o))
    requires TableChange(plat, base, mid, now, Segment(m[o], d[o]))
    ensures TableIs(base, was, now, SegsOf(plat, m, d, o + 1))
  {
    hide TableIs, Skipped, EntryChange;
    if Skipped(plat, m[o]) {
      SkipsEntry(plat, m, d, o);
    } else {
      TableIsGrows(base, was, mid, now, SegsOf(plat, m, d, o), Segment(m[o], d[o]));
    }
  }

  lemma StopsAtEnd(d: seq<nat>, n: nat)
    requires n <= |d| && forall k | 0 <= k < n :: d[k] > 0
    ensures StopAt(d, 0, n) == n
  {}

  lemma StopsAtMark(d: seq<nat>, o: nat, n: nat)
    requires o < n <= |d| && d[o] == 0 && forall k | 0 <= k < o :: d[k] > 0
    ensures StopAt(d, 0, n) == o
  {}

  /** What every unmap of a mapped prefix needs and gives. */
  lemma MappedUnmaps(v: BusView, maxDma: nat, was: seq<nat>, b: seq<Buf>, m: seq<int>, d: seq<nat>, o: nat, g: nat)
    requires o <= |m| == |d| && g <= |b| && Mapped(v, maxDma, was, b, m, d, o, g)
    ensures var w, segs := ServingWindow(v, maxDma), UnmappedSegs(v.plat, m, d, o);
            SegsInside(w.base, segs, |w.ptes|) && FreeAll(w.ptes, w.base, segs) == was
  {
    hide FreeAll, ServingWindow;
    LengthsPositive(v.plat, m, d, o);
    StopsAtEnd(d, o);
    FreeAllRestores(ServingWindow(v, maxDma).base, was, ServingWindow(v, maxDma).ptes, SegsOf(v.plat, m, d, o));
  }

  lemma NeedsFrame(b: seq<Buf>, m: seq<int>, m': seq<int>, l: nat, e: nat,
                   plat: Platform, maxDma: nat, dacAllowed: bool)
    requires l <= e <= |b| == |m| == |m'| && NeedsNoArena(b, m, l, plat, maxDma, dacAllowed)
    requires forall k | e <= k < |b| :: m'[k] == m[k]
    ensures NeedsNoArena(b, m', e, plat, maxDma, dacAllowed)
  {
    forall k | e <= k < |b|
      ensures FitsWithoutArena(b, m', k, plat, dacAllowed)
    {
      assert FitsWithoutArena(b, m, k, plat, dacAllowed);
    }
  }

  /** The state of the mapping loop at element i: everything up to element g is mapped into
      the first o entries, what lies between is followers already taken, and the rest is
      still an unread, grouped list. */
  ghost predicate LoopState(sg: SgList, h: Hose, plat: Platform, dev: Option<Device>, was: seq<nat>,
                            o: nat, i: nat, g: nat)
    requires sg.Valid()
    reads sg.dmaAddress, sg.dmaLength, h.sgIsa.ptes, if h.sgPci == null then {} else {h.sgPci.ptes}
  {
    var b, m, d := sg.bufs, sg.dmaAddress[..], sg.dmaLength[..];
    o <= i <= g <= |b| && (g > 0 ==> o > 0) &&
    (forall k | i <= k < g :: m[k] < 0) &&
    Grouped(b, m, d, g, |b|) &&
    Mapped(h.View(plat), MaxDma(dev), was, b, m, d, o, g)
  }

  // --- The plan of a mapped list -----------------------------------------------------

  /** The table had no room for group [l, e) when the elements before l were mapped into the
      first o entries of m and d. */
  datatype Refusal = Refusal(o: nat, l: nat, e: nat, view: BusView, m: seq<int>, d: seq<nat>)

  ghost predicate RefusedAt(h: Hose, plat: Platform, dev: Option<Device>, dacAllowed: bool, was: seq<nat>,
                            b: seq<Buf>, w: Refusal)
  {
    w.l < w.e <= |b| && w.o <= |w.m| == |w.d| && w.view.plat == plat &&
    Mapped(w.view, MaxDma(dev), was, b, w.m, w.d, w.o, w.l) &&
    GroupRefused(h, plat, dev, dacAllowed, ServingWindow(w.view, MaxDma(dev)).ptes, b, w.l, w.e)
  }

  /** How a list was mapped: entry k holds the elements from cuts[k] to cuts[k + 1]; from element
      `split` on virtual joins were given up, because of the refusal `why`. */
  datatype Plan = Plan(cuts: seq<nat>, split: nat, why: Refusal)

  ghost predicate EntryPlanned(h: Hose, plat: Platform, dev: Option<Device>, dacAllowed: bool,
                               b: seq<Buf>, m: seq<int>, d: seq<nat>, plan: Plan, k: nat)
    requires k < |m| == |d| && k + 1 < |plan.cuts|
  {
    var l, e := plan.cuts[k], plan.cuts[k + 1];
    var maxSeg := if dev.Some? then dev.value.maxSegSize else 0;
    l < e <= |b| && MaximalGroup(b, l, e, plat.hasTbi && l < plan.split, maxSeg) &&
    GroupRouted(h, plat, dev, dacAllowed, b, l, e, m[k], d[k])
  }

  ghost predicate SplitOk(h: Hose, plat: Platform, dev: Option<Device>, dacAllowed: bool, was: seq<nat>,
                          b: seq<Buf>, plan: Plan)
  {
    var w, maxSeg := plan.why, if dev.Some? then dev.value.maxSegSize else 0;
    plan.split < |b| ==>
      plat.hasTbi && w.l == plan.split && RefusedAt(h, plat, dev, dacAllowed, was, b, w) &&
      MaximalGroup(b, w.l, w.e, true, maxSeg) && !Contiguous(b, w.l, w.e)
  }

  /** The first o entries hold the elements up to g, in maximal groups: joined virtually as long
      as the machine can and the table has had room, and each where the device can use it. */
  ghost predicate Planned(h: Hose, plat: Platform, dev: Option<Device>, dacAllowed: bool, was: seq<nat>,
                          b: seq<Buf>, m: seq<int>, d: seq<nat>, plan: Plan, o: nat, g: nat)
    requires o <= |m| == |d|
  {
    && |plan.cuts| == o + 1 && plan.cuts[0] == 0 && plan.cuts[o] == g && plan.split <= |b|
    && (forall k: nat | k < o :: EntryPlanned(h, plat, dev, dacAllowed, b, m, d, plan, k))
    && SplitOk(h, plat, dev, dacAllowed, was, b, plan)
  }

  /** What a plan means for entry k: it holds at most a segment, or a single element; the element
      behind it would not have fitted, or nothing joins the two; and the device can drive all of
      it, or it is a DAC address, or it lies in an IOMMU window, off every multiple of the
      segment size. */
  lemma EntryWithinLimits(h: Hose, plat: Platform, dev: Option<Device>, dacAllowed: bool, was: seq<nat>, b: seq<Buf>,
                          m: seq<int>, d: seq<nat>, plan: Plan, o: nat, g: nat, k: nat)
    requires k < o <= |m| == |d| && Planned(h, plat, dev, dacAllowed, was, b, m, d, plan, o, g)
    requires FitsBus(plat) && dev.Some? && (plat.hasTbi || |b| == 1) && forall i | 0 <= i < |b| :: b[i].length > 0
    ensures plan.cuts[k] < plan.cuts[k + 1] <= |b| && d[k] == Total(b, plan.cuts[k], plan.cuts[k + 1])
    ensures d[k] <= dev.value.maxSegSize || plan.cuts[k + 1] == plan.cuts[k] + 1
    ensures var l, e, virt := plan.cuts[k], plan.cuts[k + 1], plat.hasTbi && plan.cuts[k] < plan.split;
            e < |b| && d[k] + b[e].length <= dev.value.maxSegSize ==>
              var end := b[e - 1].paddr + b[e - 1].length;
              end != b[e].paddr && !(virt && end % 8192 == 0 && b[e].paddr % 8192 == 0)
    ensures var paddr := b[plan.cuts[k]].paddr;
            (m[k] == paddr + plat.directBase && m[k] + d[k] - 1 <= dev.value.mask) ||
            (dacAllowed && m[k] == paddr + plat.dacOffset) ||
            EntryInArena(h, dev.value, h.sgIsa, m[k], d[k]) ||
            (h.sgPci != null && EntryInArena(h, dev.value, h.sgPci, m[k], d[k]))
  {
    hide MaximalGroup, Routed, SplitOk, Total;
    assert EntryPlanned(h, plat, dev, dacAllowed, b, m, d, plan, k);
    var l, e := plan.cuts[k], plan.cuts[k + 1];
    MaximalWithinSegment(b, l, e, plat.hasTbi && l < plan.split, dev.value.maxSegSize);
    if e < |b| && d[k] + b[e].length <= dev.value.maxSegSize {
      MaximalStops(b, l, e, plat.hasTbi && l < plan.split, dev.value.maxSegSize);
    }
    TotalPositive(b, l, e);
    RoutedLimits(h, plat, dev.value, dacAllowed, Contiguous(b, l, e), b[l].paddr, m[k], d[k]);
  }

  /** In arena a's window, which is the ISA one or one that the device can drive, and off the
      multiples of the segment size. */
  ghost predicate EntryInArena(h: Hose, dev: Device, a: Arena, addr: int, len: nat) {
    (a == h.sgIsa || (a == h.sgPci && addr + len - 1 <= dev.mask)) &&
    a.dmaBase <= addr && addr + len <= a.dmaBase + a.size &&
    ((dev.segBoundary + 1) % PAGE_SIZE == 0 ==> !CrossesMultiple(addr, len, dev.segBoundary + 1))
  }

  lemma RoutedLimits(h: Hose, plat: Platform, dev: Device, dacAllowed: bool, contiguous: bool,
                     paddr: nat, addr: int, len: nat)
    requires Routed(h, plat, dev.mask, dev.segBoundary + 1, dacAllowed, contiguous, paddr, addr, len)
    requires FitsBus(plat) && len > 0
    ensures (addr == paddr + plat.directBase && addr + len - 1 <= dev.mask) ||
            (dacAllowed && addr == paddr + plat.dacOffset) ||
            EntryInArena(h, dev, h.sgIsa, addr, len) || (h.sgPci != null && EntryInArena(h, dev, h.sgPci, addr, len))
  {
    hide CrossesMultiple;
    if contiguous && DirectServes(plat, dev.mask, paddr, len) {
      assert DirectByte(plat, dev.mask, paddr, len - 1);
    }
  }

  /** Without a buffer-invalidate routine a list of several elements ignores the device's mask: a
      direct entry is one that the device can drive exactly if its mask serves the group. */
  lemma ListIgnoresMask(h: Hose, plat: Platform, dev: Option<Device>, dacAllowed: bool, b: seq<Buf>, l: nat, e: nat,
                        addr: int, len: nat)
    requires l < e <= |b| && |b| > 1 && !plat.hasTbi && FitsBus(plat) && len > 0
    requires GroupRouted(h, plat, dev, dacAllowed, b, l, e, addr, len)
    ensures Contiguous(b, l, e)
    ensures addr == b[l].paddr + plat.directBase || (dacAllowed && addr == b[l].paddr + plat.dacOffset)
    ensures addr == b[l].paddr + plat.directBase && addr + len <= plat.directBase + plat.directSize ==>
              (addr + len - 1 <= MaxDma(dev) <==> DirectServes(plat, MaxDma(dev), b[l].paddr, len))
  {
    hide Contiguous;
    var mask, paddr := MaxDma(dev), b[l].paddr;
    if DirectServes(plat, mask, paddr, len) { assert DirectByte(plat, mask, paddr, len - 1); }
  }

  /** A list of two adjacent pages for a 24-bit device: served at an address far above its mask. */
  lemma BeyondTheMask(h: Hose)
    ensures var plat := Platform(0x4000_0000, 0x4000_0000, 0, false);
            var dev := Some(Device(0xff_ffff, 0xffff_ffff, 0x1_0000, false));
            var b := [Buf(0x10_0000, 0x2000), Buf(0x10_2000, 0x2000)];
            GroupRouted(h, plat, dev, false, b, 0, 2, 0x4010_0000, 0x4000) && 0x4010_0000 > MaxDma(dev)
  {
    var b := [Buf(0x10_0000, 0x2000), Buf(0x10_2000, 0x2000)];
    assert Total(b, 0, 1) == 0x2000 && Total(b, 0, 2) == 0x4000;
    assert Contiguous(b, 0, 2);
  }

  /** The list is refused for want of room for the contiguous group w. */
  ghost predicate ListRefused(h: Hose, plat: Platform, dev: Option<Device>, dacAllowed: bool, was: seq<nat>,
                              b: seq<Buf>, plan: Plan, w: Refusal)
  {
    var maxSeg := if dev.Some? then dev.value.maxSegSize else 0;
    RefusedAt(h, plat, dev, dacAllowed, was, b, w) && Contiguous(b, w.l, w.e) &&
    MaximalGroup(b, w.l, w.e, plat.hasTbi && w.l < plan.split, maxSeg) &&
    SplitOk(h, plat, dev, dacAllowed, was, b, plan)
  }

  /** Whether virtual joins are still allowed at element i. */
  ghost predicate VirtAt(plat: Platform, plan: Plan, i: nat) {
    plat.hasTbi && i < plan.split
  }

  function NextSplit(plat: Platform, plan: Plan, i: nat, f: Finding): nat {
    if f.virtOk != (plat.hasTbi && i < plan.split) then i else plan.split
  }

  /** What a finding at leader i makes of the plan. */
  lemma SplitNext(h: Hose, plat: Platform, dev: Option<Device>, dacAllowed: bool, v: BusView, was: seq<nat>,
                  b: seq<Buf>, m: seq<int>, d: seq<nat>, plan: Plan, f: Finding, o: nat, i: nat)
    returns (next: Plan)
    requires o <= |m| == |d| && i < |b| && v.plat == plat && (plan.split == |b| || plan.split <= i)
    requires SplitOk(h, plat, dev, dacAllowed, was, b, plan) && Mapped(v, MaxDma(dev), was, b, m, d, o, i)
    requires FindingOk(h, plat, dev, dacAllowed, ServingWindow(v, MaxDma(dev)).ptes, b, i, VirtAt(plat, plan, i),
                       MaxSegment(dev), f)
    ensures next == Plan(plan.cuts + [f.end], NextSplit(plat, plan, i, f), next.why)
    ensures SplitOk(h, plat, dev, dacAllowed, was, b, next)
    ensures f.virtOk == VirtAt(plat, next, i) && (next.split == plan.split || (plan.split == |b| && next.split == i))
    ensures f.end < |b| ==> f.virtOk == VirtAt(plat, next, f.end)
    ensures next.split == |b| || next.split <= f.end
  {
    hide Mapped, MaximalGroup, GroupRefused, Contiguous, ServingWindow;
    var why := if f.virtOk != VirtAt(plat, plan, i) then Refusal(o, i, f.gaveUpAt, v, m, d) else plan.why;
    next := Plan(plan.cuts + [f.end], NextSplit(plat, plan, i, f), why);
  }

  lemma PlanGrows(h: Hose, plat: Platform, dev: Option<Device>, dacAllowed: bool, was: seq<nat>, b: seq<Buf>,
                  m: seq<int>, d: seq<nat>, m': seq<int>, d': seq<nat>, plan: Plan, next: Plan, f: Finding, o: nat,
                  i: nat)
    requires o < |m| == |d| == |m'| == |d'| && i < f.end <= |b|
    requires Planned(h, plat, dev, dacAllowed, was, b, m, d, plan, o, i)
    requires forall k | 0 <= k < o :: m'[k] == m[k] && d'[k] == d[k]
    requires next == Plan(plan.cuts + [f.end], next.split, next.why) && SplitOk(h, plat, dev, dacAllowed, was, b, next)
    requires f.virtOk == VirtAt(plat, next, i) && next.split <= |b|
    requires next.split == plan.split || (plan.split == |b| && next.split == i)
    requires MaximalGroup(b, i, f.end, f.virtOk, MaxSegment(dev))
    requires GroupRouted(h, plat, dev, dacAllowed, b, i, f.end, m'[o], d'[o])
    ensures Planned(h, plat, dev, dacAllowed, was, b, m', d', next, o + 1, f.end)
  {
    hide MaximalGroup, GroupRouted, SplitOk;
    forall k: nat | k < o + 1
      ensures EntryPlanned(h, plat, dev, dacAllowed, b, m', d', next, k)
    {
      if k < o {
        assert EntryPlanned(h, plat, dev, dacAllowed, b, m, d, plan, k);
        CutsAscend(h, plat, dev, dacAllowed, was, b, m, d, plan, o, i, k);
      }
    }
  }

  /** Every entry starts before the element the plan has come to. */
  lemma {:induction false} CutsAscend(h: Hose, plat: Platform, dev: Option<Device>, dacAllowed: bool, was: seq<nat>,
                                      b: seq<Buf>, m: seq<int>, d: seq<nat>, plan: Plan, o: nat, g: nat, k: nat)
    requires k < o <= |m| == |d| && Planned(h, plat, dev, dacAllowed, was, b, m, d, plan, o, g)
    ensures plan.cuts[k] < g
    decreases o - k
  {
    hide SplitOk, MaximalGroup, GroupRouted;
    assert EntryPlanned(h, plat, dev, dacAllowed, b, m, d, plan, k);
    if k + 1 == o {
    } else {
      CutsAscend(h, plat, dev, dacAllowed, was, b, m, d, plan, o, g, k + 1);
    }
  }

  /** One turn of the mapping loop at a leader. */
  method PlaceNext(sg: SgList, h: Hose, plat: Platform, dev: Option<Device>, maxDma: nat, dacAllowed: bool,
                   ghost was: seq<nat>, ghost plan: Plan, out: nat, i: nat)
    returns (ok: bool, ghost g: nat, ghost next: Plan, ghost refusal: Refusal)
    requires sg.Valid() && i < |sg.bufs| && |sg.bufs| > 1 && h.Valid(plat) && DeviceOk(dev) && Separate(sg, h)
    requires dacAllowed ==> plat.dacOffset != 0
    requires maxDma == if plat.hasTbi then MaxDma(dev) else U64(-1)
    requires LoopState(sg, h, plat, dev, was, out, i, i)
    requires PlanState(sg, h, plat, dev, dacAllowed, was, plan, out, i)
    requires plat.hasTbi || NeedsNoArena(sg.bufs, sg.dmaAddress[..], i, plat, maxDma, dacAllowed)
    modifies h.MapArena(MaxDma(dev)), h.MapArena(MaxDma(dev)).ptes, sg.dmaAddress, sg.dmaLength
    ensures ok ==> g <= |sg.bufs| && LoopState(sg, h, plat, dev, was, out + 1, i + 1, g)
    ensures ok ==> PlanState(sg, h, plat, dev, dacAllowed, was, next, out + 1, g)
    ensures ok ==> plat.hasTbi || NeedsNoArena(sg.bufs, sg.dmaAddress[..], g, plat, maxDma, dacAllowed)
    ensures !ok ==> plat.hasTbi &&
                    Mapped(h.View(plat), MaxDma(dev), was, sg.bufs, sg.dmaAddress[..], sg.dmaLength[..], out, i)
    ensures !ok ==> ListRefused(h, plat, dev, dacAllowed, was, sg.bufs, next, refusal)
  {
    hide Mapped, Placed, Grouped, ApartExtents, NeedsNoArena, IsPow2, BufBytes, GroupEnd, ServingWindow, FindingOk,
      GroupRouted, GroupRefused, Coarsest, MaximalGroup, Contiguous, Planned, SplitOk, RefusedAt, VirtAt, GroupFilled,
      ListRefused, LoopState, PlanState;
    ghost var b, m, d, v := sg.bufs, sg.dmaAddress[..], sg.dmaLength[..], h.View(plat);
    ServedByArena(h, plat, MaxDma(dev));
    AtLeader(sg, h, plat, dev, dacAllowed, was, plan, out, i);
    ghost var f;
    var r;
    r, f := FillGroup(sg, i, out, h, plat, dev, maxDma, dacAllowed, VirtAt(plat, plan, i));
    ServedByArena(h, plat, MaxDma(dev));
    assert OnlyTableOf(v, h.View(plat), MaxDma(dev));
    next := SplitNext(h, plat, dev, dacAllowed, v, was, b, m, d, plan, f, out, i);
    FindingEnd(h, plat, dev, dacAllowed, ServingWindow(v, MaxDma(dev)).ptes, b, i, VirtAt(plat, plan, i), f);
    g := f.end;
    refusal := Refusal(out, i, f.end, v, m, d);
    if r < 0 {
      MappedFrame(v, MaxDma(dev), was, b, m, d, sg.dmaAddress[..], sg.dmaLength[..], out, i);
      RefusedHere(h, plat, dev, dacAllowed, was, b, next, refusal);
      return false, g, next, refusal;
    }
    OneMorePlaced(sg, h, v, plat, dev, dacAllowed, was, m, d, plan, next, f, out, i);
    if !plat.hasTbi { NeedsFrame(b, m, sg.dmaAddress[..], i, g, plat, maxDma, dacAllowed); }
    return true, g, next, refusal;
  }

  lemma FilledFacts(h: Hose, v: BusView, dev: Option<Device>, dacAllowed: bool, was: seq<nat>, b: seq<Buf>,
                    m: seq<int>, d: seq<nat>, l: nat, e: nat, out: nat, virtOk: bool)
    requires out <= l < |b| == |m| == |d| && forall i | 0 <= i < |b| :: b[i].length > 0
    requires GroupFilled(h, v, dev, dacAllowed, was, b, m, d, l, e, out, virtOk)
    ensures l < e == GroupEnd(m, l + 1, |b|) && Grouped(b, m, d, e, |b|) && BufBytes(b, l, e) != []
    ensures forall k | l + 1 <= k < e :: m[k] < 0
    ensures Coarsest(b, m, e, |b|, virtOk, MaxSegment(dev))
    ensures Placed(v, MaxDma(dev), was, m[out], d[out], BufBytes(b, l, e))
    ensures GroupRouted(h, v.plat, dev, dacAllowed, b, l, e, m[out], d[out])
  {
    hide Grouped, Coarsest, Placed, BufBytes, GroupRouted;
    SomeBytes(b, l, e);
  }

  /** The loop state after group [i, f.end) was filled. */
  lemma OneMorePlaced(sg: SgList, h: Hose, v: BusView, plat: Platform, dev: Option<Device>, dacAllowed: bool,
                      was: seq<nat>, m: seq<int>, d: seq<nat>, plan: Plan, next: Plan, f: Finding, out: nat, i: nat)
    requires sg.Valid() && out <= i < f.end <= |sg.bufs| == |m| == |d|
    requires Mapped(v, MaxDma(dev), was, sg.bufs, m, d, out, i) && OnlyTableOf(v, h.View(plat), MaxDma(dev))
    requires GroupFilled(h, h.View(plat), dev, dacAllowed, ServingWindow(v, MaxDma(dev)).ptes, sg.bufs,
                         sg.dmaAddress[..], sg.dmaLength[..], i, f.end, out, f.virtOk)
    requires forall k | 0 <= k < out :: sg.dmaAddress[k] == m[k] && sg.dmaLength[k] == d[k]
    requires Planned(h, plat, dev, dacAllowed, was, sg.bufs, m, d, plan, out, i)
    requires MaximalGroup(sg.bufs, i, f.end, f.virtOk, MaxSegment(dev))
    requires next == Plan(plan.cuts + [f.end], next.split, next.why)
    requires SplitOk(h, plat, dev, dacAllowed, was, sg.bufs, next)
    requires f.virtOk == VirtAt(plat, next, i) && next.split <= |sg.bufs|
    requires next.split == plan.split || (plan.split == |sg.bufs| && next.split == i)
    requires f.end < |sg.bufs| ==> f.virtOk == VirtAt(plat, next, f.end)
    requires next.split == |sg.bufs| || next.split <= f.end
    ensures LoopState(sg, h, plat, dev, was, out + 1, i + 1, f.end)
    ensures PlanState(sg, h, plat, dev, dacAllowed, was, next, out + 1, f.end)
  {
    hide Mapped, Placed, Grouped, BufBytes, GroupEnd, ServingWindow, GroupRouted, Coarsest, MaximalGroup, Planned,
      SplitOk, VirtAt, GroupFilled, OnlyTableOf;
    var b, m', d', g := sg.bufs, sg.dmaAddress[..], sg.dmaLength[..], f.end;
    FilledFacts(h, h.View(plat), dev, dacAllowed, ServingWindow(v, MaxDma(dev)).ptes, b, m', d', i, g, out, f.virtOk);
    MapOneMore(v, h.View(plat), MaxDma(dev), was, b, m, d, m', d', out, i, g);
    PlanGrows(h, plat, dev, dacAllowed, was, b, m, d, m', d', plan, next, f, out, i);
    NothingLeft(b, m', g, VirtAt(plat, next, g), MaxSegment(dev));
  }

  /** What the loop state says at a leader. */
  lemma AtLeader(sg: SgList, h: Hose, plat: Platform, dev: Option<Device>, dacAllowed: bool, was: seq<nat>,
                 plan: Plan, o: nat, i: nat)
    requires sg.Valid() && i < |sg.bufs|
    requires LoopState(sg, h, plat, dev, was, o, i, i) && PlanState(sg, h, plat, dev, dacAllowed, was, plan, o, i)
    ensures o <= i && Grouped(sg.bufs, sg.dmaAddress[..], sg.dmaLength[..], i, |sg.bufs|)
    ensures Mapped(h.View(plat), MaxDma(dev), was, sg.bufs, sg.dmaAddress[..], sg.dmaLength[..], o, i)
    ensures Planned(h, plat, dev, dacAllowed, was, sg.bufs, sg.dmaAddress[..], sg.dmaLength[..], plan, o, i)
    ensures Coarsest(sg.bufs, sg.dmaAddress[..], i, |sg.bufs|, VirtAt(plat, plan, i), MaxSegment(dev))
    ensures SplitOk(h, plat, dev, dacAllowed, was, sg.bufs, plan) && plan.split <= |sg.bufs|
    ensures plan.split == |sg.bufs| || plan.split <= i
  {
    hide Mapped, Planned, Grouped, Coarsest, SplitOk, VirtAt;
    PlanSplit(h, plat, dev, dacAllowed, was, sg.bufs, sg.dmaAddress[..], sg.dmaLength[..], plan, o, i);
  }

  /** The plan's part of the loop state: the unread elements from g on are still grouped as
      coarsely as the plan allows. */
  ghost predicate PlanState(sg: SgList, h: Hose, plat: Platform, dev: Option<Device>, dacAllowed: bool, was: seq<nat>,
                            plan: Plan, o: nat, g: nat)
    requires sg.Valid()
    reads sg.dmaAddress, sg.dmaLength
  {
    var b, m, d := sg.bufs, sg.dmaAddress[..], sg.dmaLength[..];
    o <= g <= |b| && Planned(h, plat, dev, dacAllowed, was, b, m, d, plan, o, g) &&
    Coarsest(b, m, g, |b|, VirtAt(plat, plan, g), MaxSegment(dev)) && (plan.split == |b| || plan.split <= g)
  }

  lemma PlanSplit(h: Hose, plat: Platform, dev: Option<Device>, dacAllowed: bool, was: seq<nat>, b: seq<Buf>,
                  m: seq<int>, d: seq<nat>, plan: Plan, o: nat, g: nat)
    requires o <= |m| == |d| && Planned(h, plat, dev, dacAllowed, was, b, m, d, plan, o, g)
    ensures SplitOk(h, plat, dev, dacAllowed, was, b, plan) && plan.split <= |b|
  {
    hide SplitOk, EntryPlanned;
  }

  lemma FindingEnd(h: Hose, plat: Platform, dev: Option<Device>, dacAllowed: bool, ptes: seq<nat>,
                   b: seq<Buf>, l: nat, virtOk: bool, f: Finding)
    requires FindingOk(h, plat, dev, dacAllowed, ptes, b, l, virtOk, MaxSegment(dev), f)
    ensures l < f.end <= |b| && MaximalGroup(b, l, f.end, f.virtOk, MaxSegment(dev))
  {
    hide MaximalGroup, GroupRefused;
  }

  lemma RefusedHere(h: Hose, plat: Platform, dev: Option<Device>, dacAllowed: bool, was: seq<nat>,
                    b: seq<Buf>, plan: Plan, w: Refusal)
    requires w.l < w.e <= |b| && w.o <= |w.m| == |w.d| && w.view.plat == plat
    requires Mapped(w.view, MaxDma(dev), was, b, w.m, w.d, w.o, w.l)
    requires GroupRefused(h, plat, dev, dacAllowed, ServingWindow(w.view, MaxDma(dev)).ptes, b, w.l, w.e)
    requires Contiguous(b, w.l, w.e) && SplitOk(h, plat, dev, dacAllowed, was, b, plan)
    requires MaximalGroup(b, w.l, w.e, VirtAt(plat, plan, w.l), MaxSegment(dev))
    ensures ListRefused(h, plat, dev, dacAllowed, was, b, plan, w)
  {
    hide Mapped, GroupRefused, MaximalGroup, Contiguous, SplitOk, ServingWindow;
  }

  lemma NothingLeft(b: seq<Buf>, m: seq<int>, g: nat, virtOk: bool, maxSeg: nat)
    requires |m| == |b|
    ensures g == |b| ==> Coarsest(b, m, g, |b|, virtOk, maxSeg)
  {}

  lemma SomeBytes(b: seq<Buf>, l: nat, e: nat)
    requires l < e <= |b| && forall i | 0 <= i < |b| :: b[i].length > 0
    ensures BufBytes(b, l, e) != []
  {}

  /** Entries beyond the first o do not matter to what is mapped. */
  lemma MappedFrame(v: BusView, maxDma: nat, was: seq<nat>, b: seq<Buf>, m: seq<int>, d: seq<nat>,
                    m': seq<int>, d': seq<nat>, o: nat, g: nat)
    requires o <= |m| == |d| == |m'| == |d'| && g <= |b|
    requires Mapped(v, maxDma, was, b, m, d, o, g)
    requires m'[..o] == m[..o] && d'[..o] == d[..o]
    ensures Mapped(v, maxDma, was, b, m', d', o, g)
  {
    forall k | 0 <= k < o
      ensures m'[k] == m[k] && d'[k] == d[k]
    {
      assert m'[..o][k] == m[..o][k] && d'[..o][k] == d[..o][k];
    }
    EntriesFrame(v.plat, v, m, d, m', d', o);
    EntriesOkFrame(v.plat, m, d, m', d', o);
  }

  lemma EntriesOkFrame(plat: Platform, m: seq<int>, d: seq<nat>, m': seq<int>, d': seq<nat>, o: nat)
    requires o <= |m| == |d| == |m'| == |d'|
    requires forall k | 0 <= k < o :: EntryOk(plat, m, d, k) && m'[k] == m[k] && d'[k] == d[k]
    ensures forall k | 0 <= k < o :: EntryOk(plat, m', d', k)
  {
    hide SkippedThroughout;
    forall k | 0 <= k < o
      ensures EntryOk(plat, m', d', k)
    {
      assert EntryOk(plat, m, d, k);
    }
  }

  /** On a machine without an IOMMU: every buffer is within reach of the direct map or DAC. */
  ghost predicate ReachableWithoutArena(b: seq<Buf>, plat: Platform, dacAllowed: bool) {
    dacAllowed || forall k | 0 <= k < |b| :: b[k].paddr + b[k].length <= plat.directSize
  }

  lemma StartLoop(sg: SgList, h: Hose, plat: Platform, dev: Option<Device>, was: seq<nat>,
                  maxSeg: nat, dacAllowed: bool)
    requires sg.Valid() && |sg.bufs| > 0 && h.Valid(plat) && was == h.MapArena(MaxDma(dev)).ptes[..]
    requires Grouped(sg.bufs, sg.dmaAddress[..], sg.dmaLength[..], 0, |sg.bufs|)
    requires Coarsest(sg.bufs, sg.dmaAddress[..], 0, |sg.bufs|, plat.hasTbi, maxSeg)
    requires plat.hasTbi || ReachableWithoutArena(sg.bufs, plat, dacAllowed)
    ensures LoopState(sg, h, plat, dev, was, 0, 0, 0)
    ensures plat.hasTbi || NeedsNoArena(sg.bufs, sg.dmaAddress[..], 0, plat, U64(-1), dacAllowed)
  {
    hide Grouped, Coarsest, Mapped, ApartExtents;
    ServedByArena(h, plat, MaxDma(dev));
    NothingMapped(h.View(plat), MaxDma(dev), sg.bufs, sg.dmaAddress[..], sg.dmaLength[..]);
    if !plat.hasTbi {
      NoVirtualJoins(sg.bufs, sg.dmaAddress[..], sg.dmaLength[..], 0, |sg.bufs|, maxSeg);
      forall k | 0 <= k < |sg.bufs|
        ensures FitsWithoutArena(sg.bufs, sg.dmaAddress[..], k, plat, dacAllowed)
      {}
    }
  }

  /** An unread element is a leader exactly when the last group ends there. */
  lemma LeaderMarked(sg: SgList, h: Hose, plat: Platform, dev: Option<Device>, was: seq<nat>, o: nat, i: nat, g: nat)
    requires sg.Valid() && i < |sg.bufs| && LoopState(sg, h, plat, dev, was, o, i, g)
    ensures o <= i <= g <= |sg.bufs| && (sg.dmaAddress[i] >= 0 <==> i == g)
    ensures i < g ==> LoopState(sg, h, plat, dev, was, o, i + 1, g)
  {
    hide Mapped, ElementOk;
  }

  lemma StartPlan(sg: SgList, h: Hose, plat: Platform, dev: Option<Device>, dacAllowed: bool, was: seq<nat>)
    returns (plan: Plan)
    requires sg.Valid() && |sg.bufs| > 0
    requires Coarsest(sg.bufs, sg.dmaAddress[..], 0, |sg.bufs|, plat.hasTbi, MaxSegment(dev))
    ensures PlanState(sg, h, plat, dev, dacAllowed, was, plan, 0, 0)
  {
    hide Coarsest;
    var none := BusView(plat, None, Window(0, []));
    plan := Plan([0], |sg.bufs|, Refusal(0, 0, 0, none, [], []));
  }

  lemma PlanDone(sg: SgList, h: Hose, plat: Platform, dev: Option<Device>, dacAllowed: bool, was: seq<nat>,
                 plan: Plan, o: nat, g: nat)
    requires sg.Valid() && g == |sg.bufs| && PlanState(sg, h, plat, dev, dacAllowed, was, plan, o, g)
    ensures o <= g && Planned(h, plat, dev, dacAllowed, was, sg.bufs, sg.dmaAddress[..], sg.dmaLength[..], plan, o, g)
  {
    hide Planned, Coarsest;
  }

  /** Entries beyond the first o do not matter to the plan. */
  lemma PlannedFrame(h: Hose, plat: Platform, dev: Option<Device>, dacAllowed: bool, was: seq<nat>, b: seq<Buf>,
                     m: seq<int>, d: seq<nat>, m': seq<int>, d': seq<nat>, plan: Plan, o: nat, g: nat)
    requires o <= |m| == |d| == |m'| == |d'| && Planned(h, plat, dev, dacAllowed, was, b, m, d, plan, o, g)
    requires m'[..o] == m[..o] && d'[..o] == d[..o]
    ensures Planned(h, plat, dev, dacAllowed, was, b, m', d', plan, o, g)
  {
    hide SplitOk, MaximalGroup, GroupRouted;
    forall k: nat | k < o
      ensures EntryPlanned(h, plat, dev, dacAllowed, b, m', d', plan, k)
    {
      assert EntryPlanned(h, plat, dev, dacAllowed, b, m, d, plan, k);
      assert m'[..o][k] == m[..o][k] && d'[..o][k] == d[..o][k];
    }
  }

  lemma LoopDone(sg: SgList, h: Hose, plat: Platform, dev: Option<Device>, was: seq<nat>, o: nat, i: nat, g: nat)
    requires sg.Valid() && |sg.bufs| == i && i > 0 && LoopState(sg, h, plat, dev, was, o, i, g)
    ensures 0 < o <= i == g
    ensures Mapped(h.View(plat), MaxDma(dev), was, sg.bufs, sg.dmaAddress[..], sg.dmaLength[..], o, |sg.bufs|)
  {
    hide Mapped, Grouped;
  }

  /** pci_map_sg for a list of several elements. */
  method MapMany(sg: SgList, h: Hose, plat: Platform, dev: Option<Device>, dacAllowed: bool)
    returns (ret: nat, ghost plan: Plan, ghost refusal: Refusal)
    requires sg.Valid() && |sg.bufs| > 1 && h.Valid(plat) && DeviceOk(dev) && Separate(sg, h)
    requires dacAllowed ==> plat.dacOffset != 0
    requires plat.hasTbi || ReachableWithoutArena(sg.bufs, plat, dacAllowed)
    modifies h.MapArena(MaxDma(dev)), h.MapArena(MaxDma(dev)).ptes, sg.dmaAddress, sg.dmaLength
    ensures ret == 0 ==> h.MapArena(MaxDma(dev)).ptes[..] == old(h.MapArena(MaxDma(dev)).ptes[..])
    ensures ret == 0 ==> ListRefused(h, plat, dev, dacAllowed, old(h.MapArena(MaxDma(dev)).ptes[..]), sg.bufs, plan,
                                     refusal)
    ensures ret > 0 ==> ret <= |sg.bufs| &&
                        Mapped(h.View(plat), MaxDma(dev), old(h.MapArena(MaxDma(dev)).ptes[..]), sg.bufs,
                               sg.dmaAddress[..], sg.dmaLength[..], ret, |sg.bufs|) &&
                        Planned(h, plat, dev, dacAllowed, old(h.MapArena(MaxDma(dev)).ptes[..]), sg.bufs,
                                sg.dmaAddress[..], sg.dmaLength[..], plan, ret, |sg.bufs|) &&
                        (ret < |sg.bufs| ==> sg.dmaLength[ret] == 0)
  {
    hide Mapped, Grouped, Coarsest, ApartExtents, NeedsNoArena, IsPow2, LoopState, PlanState, Planned, ListRefused;
    ghost var was := h.MapArena(MaxDma(dev)).ptes[..];
    var maxSeg := if dev.Some? then dev.value.maxSegSize else 0;
    var maxDma := if plat.hasTbi then MaxDma(dev) else U64(-1);
    sg.Classify(0, plat.hasTbi, maxSeg);
    StartLoop(sg, h, plat, dev, was, maxSeg, dacAllowed);
    plan := StartPlan(sg, h, plat, dev, dacAllowed, was);
    refusal := plan.why;
    var out, i := 0, 0;
    ghost var g: nat := 0;
    while i < |sg.bufs|
      invariant i <= |sg.bufs| && h.Valid(plat)
      invariant LoopState(sg, h, plat, dev, was, out, i, g)
      invariant PlanState(sg, h, plat, dev, dacAllowed, was, plan, out, g)
      invariant plat.hasTbi ||
                (g <= |sg.bufs| && NeedsNoArena(sg.bufs, sg.dmaAddress[..], g, plat, maxDma, dacAllowed))
    {
      LeaderMarked(sg, h, plat, dev, was, out, i, g);
      if sg.dmaAddress[i] < 0 {
        i := i + 1;
        continue;
      }
      var ok;
      ok, g, plan, refusal := PlaceNext(sg, h, plat, dev, maxDma, dacAllowed, was, plan, out, i);
      if !ok {
        ServedByArena(h, plat, MaxDma(dev));
        MappedUnmaps(h.View(plat), MaxDma(dev), was, sg.bufs, sg.dmaAddress[..], sg.dmaLength[..], out, i);
        UnmapSg(sg, out, h, plat, dev);
        return 0, plan, refusal;
      }
      out, i := out + 1, i + 1;
    }
    LoopDone(sg, h, plat, dev, was, out, i, g);
    PlanDone(sg, h, plat, dev, dacAllowed, was, plan, out, g);
    if out < |sg.bufs| {
      ghost var m, d, v := sg.dmaAddress[..], sg.dmaLength[..], h.View(plat);
      sg.dmaLength[out] := 0;
      MappedFrame(v, MaxDma(dev), was, sg.bufs, m, d, sg.dmaAddress[..], sg.dmaLength[..], out, |sg.bufs|);
      PlannedFrame(h, plat, dev, dacAllowed, was, sg.bufs, m, d, sg.dmaAddress[..], sg.dmaLength[..], plan, out,
                   |sg.bufs|);
    }
    return out, plan, refusal;
  }

  /** A buffer served through the IOMMU by pci_map_single_1, seen as a placed group. */
  lemma SinglePlaced(v: BusView, maxDma: nat, r: Request, s: ArenaState, t: ArenaState, paddr: nat, size: nat, p: nat)
    requires Apart(v) && size > 0 && r.align > 0 && r.boundary > 0 && r.n == NumPages(paddr, size)
    requires MappedThrough(r, s, t, paddr, p) && ServingWindow(v, maxDma).ptes == t.ptes
    ensures Placed(v, maxDma, s.ptes, ServingWindow(v, maxDma).base + p * PAGE_SIZE + paddr % PAGE_SIZE,
                   size, Bytes(paddr, size))
  {
    hide AlignUp, SpansBoundary, NumPages, Frame, MkPte, PteValid, Reaches, ApartExtents, Skipped, ServingWindow;
    var w := ServingWindow(v, maxDma);
    var g := Segment(w.base + p * PAGE_SIZE + paddr % PAGE_SIZE, size);
    GrantIsFree(s.ptes, s.next, r, p);
    if r.n == 0 { NoPagesNoBytes(paddr, size); }
    MappedPagesReach(v, r, s, t, maxDma, paddr, size, p);
    ReachesSeen(v, g.addr, paddr, size);
    RangeNamesBlock(v, maxDma, p, paddr, size);
    forall k: nat | k < |t.ptes|
      ensures EntryChange(w.base, s.ptes, t.ptes, g, k)
    {
      assert p <= k < p + r.n ==> IsFree(s.ptes, k);
      if p <= k < p + r.n { FrameNamed(paddr, k - p); }
    }
  }

  /** The fast path of pci_map_sg for a single element. */
  method MapOne(sg: SgList, h: Hose, plat: Platform, dev: Option<Device>, dacAllowed: bool)
    returns (ret: nat, ghost plan: Plan)
    requires sg.Valid() && |sg.bufs| == 1 && h.Valid(plat) && DeviceOk(dev) && Separate(sg, h)
    requires dacAllowed ==> plat.dacOffset != 0
    modifies h.MapArena(MaxDma(dev)), h.MapArena(MaxDma(dev)).ptes, sg.dmaAddress, sg.dmaLength
    ensures ret == 0 ==> h.MapArena(MaxDma(dev)).ptes[..] == old(h.MapArena(MaxDma(dev)).ptes[..])
    ensures ret > 0 ==> ret == 1 &&
                        Mapped(h.View(plat), MaxDma(dev), old(h.MapArena(MaxDma(dev)).ptes[..]), sg.bufs,
                               sg.dmaAddress[..], sg.dmaLength[..], 1, 1) &&
                        Planned(h, plat, dev, dacAllowed, old(h.MapArena(MaxDma(dev)).ptes[..]), sg.bufs,
                                sg.dmaAddress[..], sg.dmaLength[..], plan, 1, 1)
    ensures var mask := if dev.Some? then dev.value.mask else 0xff_ffff;
            var a := if h.sgPci != null && h.sgPci.dmaBase + h.sgPci.size - 1 <= mask then h.sgPci else h.sgIsa;
            ret == 0 && FitsBus(plat) ==>
              SingleRefused(plat, dev, a, mask, old(a.ptes[..]), dacAllowed, sg.bufs[0].paddr, sg.bufs[0].length)
  {
    hide Mapped, Placed, ApartExtents, IsPow2, DirectOk, MappedThrough, NumPages, Reaches, ServingWindow, Routed,
      SingleRefused, FitsBus, DirectServes, Planned;
    plan := Plan([0, 1], 1, Refusal(0, 0, 0, BusView(plat, None, Window(0, [])), [], []));
    ghost var a, v := h.MapArena(MaxDma(dev)), h.View(plat);
    ghost var s, m, d := a.State(), sg.dmaAddress[..], sg.dmaLength[..];
    ServedByArena(h, plat, MaxDma(dev));
    NothingMapped(v, MaxDma(dev), sg.bufs, m, d);
    var paddr, size := sg.bufs[0].paddr, sg.bufs[0].length;
    sg.dmaLength[0] := size;
    var addr, p := h.MapSingle(plat, dev, paddr, size, dacAllowed);
    sg.dmaAddress[0] := addr;
    if addr == 0 {
      RefusedUnchanged(MapRequest(a, dev, paddr, size), s, a.State(), paddr, p);
      return 0, plan;
    }
    ServedByArena(h, plat, MaxDma(dev));
    SinglePlacedAnyRoute(h, plat, dev, s, paddr, size, dacAllowed, addr, p);
    FirstOfRun(sg.bufs, 0);
    MapOneMore(v, h.View(plat), MaxDma(dev), s.ptes, sg.bufs, m, d, sg.dmaAddress[..], sg.dmaLength[..], 0, 0, 1);
    OnePlanned(h, plat, dev, dacAllowed, s.ptes, sg.bufs, sg.dmaAddress[..], sg.dmaLength[..], plan);
    return 1, plan;
  }

  lemma OnePlanned(h: Hose, plat: Platform, dev: Option<Device>, dacAllowed: bool, was: seq<nat>, b: seq<Buf>,
                   m: seq<int>, d: seq<nat>, plan: Plan)
    requires |b| == |m| == |d| == 1 && plan.cuts == [0, 1] && plan.split == 1 && d[0] == b[0].length
    requires var mask := if dev.Some? then dev.value.mask else 0xff_ffff;
             var seg := if dev.Some? then dev.value.segBoundary + 1 else 0x1_0000_0000;
             Routed(h, plat, mask, seg, dacAllowed, true, b[0].paddr, m[0], d[0])
    ensures Planned(h, plat, dev, dacAllowed, was, b, m, d, plan, 1, 1)
  {
    hide Routed;
    assert Contiguous(b, 0, 1) && Total(b, 0, 1) == b[0].length;
    assert EntryPlanned(h, plat, dev, dacAllowed, b, m, d, plan, 0);
  }

  lemma RefusedUnchanged(r: Request, s: ArenaState, t: ArenaState, paddr: nat, p: int)
    requires r.align > 0 && r.boundary > 0
    ensures p < 0 && MappedThrough(r, s, t, paddr, p) ==> t.ptes == s.ptes
  {}

  lemma SinglePlacedAnyRoute(h: Hose, plat: Platform, dev: Option<Device>, s: ArenaState,
                             paddr: nat, size: nat, dacAllowed: bool, addr: nat, p: int)
    requires h.Valid(plat) && DeviceOk(dev) && size > 0 && addr != 0 && (dacAllowed ==> plat.dacOffset != 0)
    requires var a, route := h.MapArena(MaxDma(dev)), RouteFor(plat, paddr, size, MaxDma(dev), dacAllowed);
             (route != Iommu ==> a.State() == s) &&
             (route == Direct ==> addr == paddr + plat.directBase) &&
             (route == Dac ==> addr == paddr + plat.dacOffset) &&
             (route == NoIommu ==> addr == 0) &&
             (route == Iommu ==> MappedThrough(MapRequest(a, dev, paddr, size), s, a.State(), paddr, p) &&
                                 addr == if p < 0 then 0 else a.dmaBase + p * PAGE_SIZE + paddr % PAGE_SIZE)
    ensures Placed(h.View(plat), MaxDma(dev), s.ptes, addr, size, Bytes(paddr, size))
  {
    hide Placed, ApartExtents, IsPow2, DirectOk, MappedThrough, NumPages, ServingWindow;
    ServedByArena(h, plat, MaxDma(dev));
    var v, maxDma := h.View(plat), MaxDma(dev);
    match RouteFor(plat, paddr, size, maxDma, dacAllowed)
    case Direct => DirectPlaced(v, maxDma, maxDma, paddr, size);
    case Dac => DacPlaced(v, maxDma, paddr, size);
    case NoIommu =>
    case Iommu =>
      var a := h.MapArena(maxDma);
      SinglePlaced(v, maxDma, MapRequest(a, dev, paddr, size), s, a.State(), paddr, size, p);
  }

  /** pci_map_sg.  On success the device reads the buffers' bytes in order, in maximal groups
      each of which lies where the device can use it, and the table gained exactly the entries an
      unmap frees.  On failure the table is as before, and there was no room for one group. */
  method MapSg(sg: SgList, h: Hose, plat: Platform, dev: Option<Device>, dacAllowed: bool)
    returns (ret: nat, ghost plan: Plan, ghost refusal: Refusal)
    requires sg.Valid() && |sg.bufs| > 0 && h.Valid(plat) && DeviceOk(dev) && Separate(sg, h)
    requires dacAllowed ==> plat.dacOffset != 0
    requires plat.hasTbi || |sg.bufs| == 1 || ReachableWithoutArena(sg.bufs, plat, dacAllowed)
    modifies h.MapArena(MaxDma(dev)), h.MapArena(MaxDma(dev)).ptes, sg.dmaAddress, sg.dmaLength
    ensures ret == 0 ==> h.MapArena(MaxDma(dev)).ptes[..] == old(h.MapArena(MaxDma(dev)).ptes[..])
    ensures ret > 0 ==> ret <= |sg.bufs| &&
                        Mapped(h.View(plat), MaxDma(dev), old(h.MapArena(MaxDma(dev)).ptes[..]), sg.bufs,
                               sg.dmaAddress[..], sg.dmaLength[..], ret, |sg.bufs|) &&
                        Planned(h, plat, dev, dacAllowed, old(h.MapArena(MaxDma(dev)).ptes[..]), sg.bufs,
                                sg.dmaAddress[..], sg.dmaLength[..], plan, ret, |sg.bufs|) &&
                        (ret < |sg.bufs| ==> sg.dmaLength[ret] == 0)
    ensures ret == 0 && |sg.bufs| > 1 ==>
              ListRefused(h, plat, dev, dacAllowed, old(h.MapArena(MaxDma(dev)).ptes[..]), sg.bufs, plan, refusal)
    ensures var mask := if dev.Some? then dev.value.mask else 0xff_ffff;
            var a := if h.sgPci != null && h.sgPci.dmaBase + h.sgPci.size - 1 <= mask then h.sgPci else h.sgIsa;
            ret == 0 && |sg.bufs| == 1 && FitsBus(plat) ==>
              SingleRefused(plat, dev, a, mask, old(a.ptes[..]), dacAllowed, sg.bufs[0].paddr, sg.bufs[0].length)
  {
    hide Mapped, Planned, ListRefused, SingleRefused, FitsBus;
    if |sg.bufs| == 1 {
      ret, plan := MapOne(sg, h, plat, dev, dacAllowed);
      refusal := plan.why;
    } else {
      ret, plan, refusal := MapMany(sg, h, plat, dev, dacAllowed);
    }
  }

  /** What a mapped list means: the device reads the buffers' bytes and nothing else, the
      lengths are conserved, and an unmap of the list (by the full element count, or by the
      count returned) takes the table back to what it was; more generally it takes any table
      that holds the mapping back to that table without it. */
  lemma MappedListMeaning(v: BusView, maxDma: nat, was: seq<nat>, b: seq<Buf>, m: seq<int>, d: seq<nat>,
                          ret: nat, nents: nat)
    requires ret <= nents <= |m| == |d| && (ret < nents ==> d[ret] == 0)
    requires Mapped(v, maxDma, was, b, m, d, ret, |b|)
    ensures DeviceBytes(v, m, d, ret) == Known(BufBytes(b, 0, |b|))
    ensures SumLengths(d, ret) == Total(b, 0, |b|)
    ensures var base, segs := ServingWindow(v, maxDma).base, UnmappedSegs(v.plat, m, d, nents);
            segs == SegsOf(v.plat, m, d, ret) && FreeAll(ServingWindow(v, maxDma).ptes, base, segs) == was &&
            forall w, t | TableIs(base, w, t, segs) :: FreeAll(t, base, segs) == w
  {
    hide FreeAll, ServingWindow, TableIs, BufBytes, SegsOf, DeviceBytes, NumPages;
    LengthsAddUp(v, m, d, ret);
    LengthsPositive(v.plat, m, d, ret);
    if ret < nents { StopsAtMark(d, ret, nents); } else { StopsAtEnd(d, nents); }
    StopsAtEnd(d, ret);
    MappedUnmaps(v, maxDma, was, b, m, d, ret, |b|);
    var base, segs := ServingWindow(v, maxDma).base, UnmappedSegs(v.plat, m, d, nents);
    forall w, t | TableIs(base, w, t, segs)
      ensures FreeAll(t, base, segs) == w
    {
      FreeAllRestores(base, w, t, segs);
    }
  }
}
