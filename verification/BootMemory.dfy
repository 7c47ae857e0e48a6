/** setup_memory: carving the boot allocator's memory out of the firmware's clusters. */
module BootMemory {
  import opened Arith

  /** A memory cluster; bits 0 and 1 of usage take it away from the kernel. */
  datatype Cluster = Cluster(startPfn: nat, numPages: nat, usage: nat)

  predicate Usable(c: Cluster) {
    c.usage % 4 == 0
  }

  function EndOf(c: Cluster): nat {
    c.startPfn + c.numPages
  }

  const DEFAULT_LIMIT: nat := 0x40_0000  // 32 GB in pages

  /** bootmem_bootmap_pages: one bit per page, rounded up to whole pages. */
  function BootmapPages(pages: nat): nat {
    (pages + 8 * PAGE_SIZE - 1) / (8 * PAGE_SIZE)
  }

  /** The kernel image, in page frames. */
  datatype Image = Image(start: nat, end: nat)

  ghost predicate Spans(c: Cluster, p: nat) {
    c.startPfn <= p < EndOf(c)
  }

  /** Page p is memory the boot allocator should get. */
  ghost predicate Free(clusters: seq<Cluster>, k: Image, maxLow: nat, p: nat) {
    p < maxLow && !(k.start <= p < k.end) &&
    exists i :: 0 <= i < |clusters| && Usable(clusters[i]) && Spans(clusters[i], p)
  }

  predicate InRange(start: nat, end: nat, p: nat) {
    start <= p < end
  }

  function PageRange(start: nat, end: nat): (r: set<nat>)
    ensures forall p: nat :: p in r <==> start <= p < end
  {
    set p {:trigger InRange(start, end, p)} | 0 <= p < end && InRange(start, end, p)
  }

  // --- How much memory ---------------------------------------------------------------------

  ghost predicate IsTop(clusters: seq<Cluster>, n: nat, was: nat, top: nat) {
    was <= top && (forall i | 0 <= i < n && i < |clusters| && Usable(clusters[i]) :: EndOf(clusters[i]) <= top) &&
    (top == was || exists i :: 0 <= i < n && i < |clusters| && Usable(clusters[i]) && top == EndOf(clusters[i]))
  }

  /** The highest end of a usable cluster among the first n, or what was known before. */
  ghost function Top(clusters: seq<Cluster>, n: nat, was: nat): (t: nat)
    requires n <= |clusters|
    ensures IsTop(clusters, n, was, t)
  {
    if n == 0 then was
    else
      var t := Top(clusters, n - 1, was);
      if Usable(clusters[n - 1]) && EndOf(clusters[n - 1]) > t then EndOf(clusters[n - 1]) else t
  }

  /** Memory to use: the top, cut to the limit (0 stands for the default of 32 GB). */
  ghost function Memory(clusters: seq<Cluster>, was: nat, limit: nat): nat {
    var top, l := Top(clusters, |clusters|, was), if limit == 0 then DEFAULT_LIMIT else limit;
    if top < l then top else l
  }

  /** The first scan and the memory limit. */
  method TopOfMemory(clusters: seq<Cluster>, was: nat, limit: nat) returns (maxLow: nat)
    ensures maxLow == Memory(clusters, was, limit)
    ensures TopWithinLimit(clusters, was, limit, maxLow)
  {
    maxLow := was;
    for i := 0 to |clusters|
      invariant maxLow == Top(clusters, i, was)
    {
      var c := clusters[i];
      if !Usable(c) { continue; }
      if EndOf(c) > maxLow { maxLow := EndOf(c); }
    }
    var l := if limit == 0 then DEFAULT_LIMIT else limit;
    if maxLow >= l { maxLow := l; }
    assert IsTop(clusters, |clusters|, was, Top(clusters, |clusters|, was));
  }

  /** The highest end of a usable cluster, or what was known before if that is higher; or the
      limit, in pages, if that is lower: 32 GB where none was given. */
  ghost predicate TopWithinLimit(clusters: seq<Cluster>, was: nat, limit: nat, maxLow: nat) {
    var pages := if limit == 0 then 32 * 1024 * 1024 * 1024 / 8192 else limit;
    exists top: nat :: IsTop(clusters, |clusters|, was, top) && maxLow == if top < pages then top else pages
  }

  /** Bits 0 and 1 of the usage word are what takes a cluster away. */
  lemma UsableMeans(c: Cluster)
    ensures Usable(c) <==> c.usage % 2 == 0 && c.usage / 2 % 2 == 0
  {}

  // --- Placing the bootmap -----------------------------------------------------------------

  /** Where one cluster would put a bootmap of n pages.  The last length is an unsigned
      difference: it wraps if the part of the cluster past the kernel is empty. */
  function PlaceIn(c: Cluster, k: Image, maxLow: nat, n: nat): Option<nat> {
    if !Usable(c) || c.startPfn >= maxLow then None
    else
      var end := if EndOf(c) > maxLow then maxLow else EndOf(c);
      if c.startPfn < k.start then
        if end > k.end && end - k.end >= n then Some(k.end)
        else
          var cut := if end > k.start then k.start else end;
          if U64(cut - c.startPfn) >= n then Some(c.startPfn) else None
      else
        var start := if c.startPfn < k.end then k.end else c.startPfn;
        if U64(end - start) >= n then Some(start) else None
  }

  /** A bootmap of n pages at b is inside usable cluster c, below maxLow and off the image. */
  ghost predicate GoodPlace(c: Cluster, k: Image, maxLow: nat, n: nat, b: nat) {
    Usable(c) && forall p: nat | b <= p < b + n :: Spans(c, p) && p < maxLow && !(k.start <= p < k.end)
  }

  /** A usable cluster that starts inside the kernel image and ends inside it. */
  predicate Swallowed(c: Cluster, k: Image) {
    Usable(c) && k.start <= c.startPfn && EndOf(c) < k.end && c.startPfn < k.end
  }

  /** A placement is good exactly when the chosen cluster is not swallowed by the image. */
  lemma PlacementGood(c: Cluster, k: Image, maxLow: nat, n: nat)
    requires 0 < n && k.start <= k.end < maxLow && EndOf(c) < U64_MODULUS
    requires PlaceIn(c, k, maxLow, n).Some?
    ensures GoodPlace(c, k, maxLow, n, PlaceIn(c, k, maxLow, n).value) <==> !Swallowed(c, k)
  {
    hide U64;
    var b := PlaceIn(c, k, maxLow, n).value;
    if Swallowed(c, k) {
      assert b == k.end && !Spans(c, b) && b <= b < b + n;
    } else if c.startPfn < k.start {
      var end := if EndOf(c) > maxLow then maxLow else EndOf(c);
      var cut := if end > k.start then k.start else end;
      U64Small(cut - c.startPfn);
    } else {
      var end := if EndOf(c) > maxLow then maxLow else EndOf(c);
      U64Small(end - if c.startPfn < k.end then k.end else c.startPfn);
    }
  }

  /** A cluster that is passed over has no room anywhere: memory is not halved while some
      cluster could still take the bootmap. */
  lemma PassedOverHasNoRoom(c: Cluster, k: Image, maxLow: nat, n: nat, b: nat)
    requires 0 < n && k.start < k.end < maxLow && EndOf(c) < U64_MODULUS
    requires PlaceIn(c, k, maxLow, n) == None
    ensures !GoodPlace(c, k, maxLow, n, b)
  {
    hide U64;
    if GoodPlace(c, k, maxLow, n, b) {
      assert Spans(c, b) && Spans(c, b + n - 1);
      var end := if EndOf(c) > maxLow then maxLow else EndOf(c);
      assert c.startPfn <= b && b + n <= end;
      assert b + n <= k.start || k.end <= b by { OneSide(c, k, maxLow, n, b); }
      var start, cut := if c.startPfn < k.end then k.end else c.startPfn, if end > k.start then k.start else end;
      if c.startPfn < k.start && b + n <= k.start { U64Small(cut - c.startPfn); }
      if k.start <= c.startPfn { U64Small(end - start); }
    }
  }

  /** A run of pages off the image lies before it or behind it. */
  lemma OneSide(c: Cluster, k: Image, maxLow: nat, n: nat, b: nat)
    requires 0 < n && k.start < k.end && GoodPlace(c, k, maxLow, n, b)
    ensures b + n <= k.start || k.end <= b
  {
    var p := if b < k.start then k.start else b;
    assert b <= p < b + n ==> Spans(c, p);
  }

  ghost predicate NoPlace(clusters: seq<Cluster>, n: nat, k: Image, maxLow: nat) {
    forall i | 0 <= i < n && i < |clusters| :: PlaceIn(clusters[i], k, maxLow, BootmapPages(maxLow)) == None
  }

  /** No usable cluster has room for the bootmap that maxLow pages of memory need. */
  ghost predicate NoRoom(clusters: seq<Cluster>, k: Image, maxLow: nat) {
    forall i, b: nat | 0 <= i < |clusters| :: !GoodPlace(clusters[i], k, maxLow, BootmapPages(maxLow), b)
  }

  lemma NoPlaceNoRoom(clusters: seq<Cluster>, k: Image, maxLow: nat)
    requires k.start < k.end < maxLow && forall c | c in clusters :: EndOf(c) < U64_MODULUS
    requires NoPlace(clusters, |clusters|, k, maxLow)
    ensures NoRoom(clusters, k, maxLow)
  {
    hide PlaceIn, GoodPlace, BootmapPages;
    BootmapNotEmpty(maxLow);
    forall i, b: nat | 0 <= i < |clusters|
      ensures !GoodPlace(clusters[i], k, maxLow, BootmapPages(maxLow), b)
    {
      PassedOverHasNoRoom(clusters[i], k, maxLow, BootmapPages(maxLow), b);
    }
  }

  /** top halved j times. */
  ghost function Halves(top: nat, j: nat): nat {
    if j == 0 then top else Halves(top, j - 1) / 2
  }

  /** Halving j times divides by the j-th power of two. */
  lemma {:induction false} HalvesDivide(top: nat, j: nat)
    ensures Halves(top, j) * Pow2(j) <= top < (Halves(top, j) + 1) * Pow2(j)
    ensures Halves(top, j) <= top
  {
    if j == 0 {
    } else {
      HalvesDivide(top, j - 1);
      HalfOf(Halves(top, j - 1), Pow2(j - 1));
    }
  }

  lemma HalfOf(x: nat, p: nat)
    ensures x / 2 * (2 * p) <= x * p && (x + 1) * p <= (x / 2 + 1) * (2 * p)
  {
    assert x / 2 * 2 * p <= x * p;
    assert (x + 1) * p <= (x / 2 + 1) * 2 * p;
  }

  /** The first j halvings happened for want of room, above the end of the kernel. */
  ghost predicate HalvedForWant(clusters: seq<Cluster>, k: Image, top: nat, j: nat) {
    forall i: nat | i < j :: Halves(top, i) > k.end && NoRoom(clusters, k, Halves(top, i))
  }

  /** Cluster i is the first in which the scan finds a place, and b is that place. */
  ghost predicate Chosen(clusters: seq<Cluster>, k: Image, maxLow: nat, i: nat, b: nat) {
    i < |clusters| && NoPlace(clusters, i, k, maxLow) &&
    PlaceIn(clusters[i], k, maxLow, BootmapPages(maxLow)) == Some(b)
  }

  /** The retry loop: memory is halved until some cluster can take the bootmap, and the first
      such cluster does; None is the panic, when halving reaches the end of the kernel. */
  method PlaceBootmap(clusters: seq<Cluster>, k: Image, top: nat) returns (r: Option<nat>, maxLow: nat)
    requires k.start < k.end && forall c | c in clusters :: EndOf(c) < U64_MODULUS
    ensures exists j: nat :: HalvedForWant(clusters, k, top, j) && maxLow == Halves(top, j)
    ensures r.None? <==> maxLow <= k.end
    ensures r.Some? ==> exists i: nat :: Chosen(clusters, k, maxLow, i, r.value)
  {
    hide PlaceIn, BootmapPages, NoRoom;
    maxLow := top;
    ghost var tries: nat := 0;
    while maxLow > k.end
      invariant HalvedForWant(clusters, k, top, tries) && maxLow == Halves(top, tries)
      decreases maxLow
    {
      var n := BootmapPages(maxLow);
      for c := 0 to |clusters|
        invariant NoPlace(clusters, c, k, maxLow)
      {
        var place := PlaceIn(clusters[c], k, maxLow, n);
        if place.Some? {
          assert Chosen(clusters, k, maxLow, c, place.value);
          return place, maxLow;
        }
      }
      NoPlaceNoRoom(clusters, k, maxLow);
      maxLow := maxLow / 2;
      tries := tries + 1;
    }
    return None, maxLow;
  }

  // --- Freeing the rest --------------------------------------------------------------------

  /** Page p is a page of cluster c that the boot allocator should get. */
  ghost predicate FreeIn(c: Cluster, k: Image, maxLow: nat, p: nat) {
    Usable(c) && Spans(c, p) && p < maxLow && !(k.start <= p < k.end)
  }

  /** The third scan: what is freed from one cluster. */
  method FreeCluster(c: Cluster, k: Image, maxLow: nat) returns (freed: set<nat>)
    requires k.start <= k.end
    ensures forall p: nat :: p in freed <==> FreeIn(c, k, maxLow, p)
  {
    freed := {};
    if !Usable(c) { return; }
    var start, end := c.startPfn, EndOf(c);
    if start >= maxLow { return; }
    if end > maxLow { end := maxLow; }
    if start < k.start {
      if end > k.end {
        freed := PageRange(start, k.start);
        start := k.end;
      } else if end > k.start {
        end := k.start;
      }
    } else if start < k.end {
      start := k.end;
    }
    if start >= end { return; }
    freed := freed + PageRange(start, end);
  }

  method FreeRegions(clusters: seq<Cluster>, k: Image, maxLow: nat) returns (free: set<nat>)
    requires k.start <= k.end
    ensures forall p: nat :: p in free <==> Free(clusters, k, maxLow, p)
  {
    free := {};
    for i := 0 to |clusters|
      invariant forall p: nat :: p in free <==> exists j :: 0 <= j < i && FreeIn(clusters[j], k, maxLow, p)
    {
      var freed := FreeCluster(clusters[i], k, maxLow);
      free := free + freed;
    }
    forall p: nat
      ensures p in free <==> Free(clusters, k, maxLow, p)
    {
      if Free(clusters, k, maxLow, p) {
        var j :| 0 <= j < |clusters| && Usable(clusters[j]) && Spans(clusters[j], p);
        assert FreeIn(clusters[j], k, maxLow, p);
      }
    }
  }

  /** What setup_memory leaves behind. */
  datatype Boot = Boot(maxLow: nat, bootmap: nat, bootmapPages: nat, free: set<nat>)

  /** The property setup_memory owes: some usable cluster holds all of the bootmap, below
      maxLow and off the image. */
  ghost predicate WellPlaced(clusters: seq<Cluster>, k: Image, maxLow: nat, n: nat, b: nat) {
    exists j: nat :: j < |clusters| && GoodPlace(clusters[j], k, maxLow, n, b)
  }

  /** Cluster c has n pages right behind the kernel. */
  ghost predicate RoomBehind(c: Cluster, k: Image, maxLow: nat, n: nat) {
    Usable(c) && c.startPfn <= k.end && k.end + n <= EndOf(c) && k.end + n <= maxLow
  }

  ghost predicate SomeRoomBehind(clusters: seq<Cluster>, k: Image, maxLow: nat, n: nat) {
    exists j: nat :: j < |clusters| && RoomBehind(clusters[j], k, maxLow, n)
  }

  /** The scan takes a cluster exactly if it has room for the bootmap or is swallowed. */
  lemma TakenMeans(c: Cluster, k: Image, maxLow: nat, n: nat)
    requires 0 < n && k.start < k.end < maxLow && EndOf(c) < U64_MODULUS && n + k.end <= U64_MODULUS
    ensures PlaceIn(c, k, maxLow, n).Some? <==>
            Swallowed(c, k) || exists b: nat :: GoodPlace(c, k, maxLow, n, b)
  {
    hide GoodPlace;
    if PlaceIn(c, k, maxLow, n).Some? {
      PlacementGood(c, k, maxLow, n);
    } else {
      forall b: nat ensures !GoodPlace(c, k, maxLow, n, b) { PassedOverHasNoRoom(c, k, maxLow, n, b); }
      if Swallowed(c, k) { U64Wraps(EndOf(c) - k.end); }
    }
  }

  lemma U64Wraps(x: int)
    requires x < 0 <= x + U64_MODULUS
    ensures U64(x) == U64_MODULUS + x
  {}

  /** When the bootmap is well placed, for every choice the scan can make. */
  lemma WellPlacedWhen(clusters: seq<Cluster>, k: Image, maxLow: nat, i: nat, b: nat)
    requires k.start < k.end < maxLow && forall c | c in clusters :: EndOf(c) < U64_MODULUS
    requires Chosen(clusters, k, maxLow, i, b)
    ensures var n := BootmapPages(maxLow);
            WellPlaced(clusters, k, maxLow, n, b) <==>
            !Swallowed(clusters[i], k) || SomeRoomBehind(clusters, k, maxLow, n)
  {
    hide PlaceIn, GoodPlace, Swallowed, RoomBehind, BootmapPages;
    var n := BootmapPages(maxLow);
    BootmapNotEmpty(maxLow);
    PlacementGood(clusters[i], k, maxLow, n);
    if Swallowed(clusters[i], k) {
      SwallowedGoesBehind(clusters[i], k, maxLow, n);
      forall j: nat | j < |clusters|
        ensures GoodPlace(clusters[j], k, maxLow, n, b) <==> RoomBehind(clusters[j], k, maxLow, n)
      {
        GoodBehind(clusters[j], k, maxLow, n);
      }
    }
  }

  lemma SwallowedGoesBehind(c: Cluster, k: Image, maxLow: nat, n: nat)
    requires Swallowed(c, k)
    ensures PlaceIn(c, k, maxLow, n).Some? ==> PlaceIn(c, k, maxLow, n) == Some(k.end)
  {}

  lemma GoodBehind(c: Cluster, k: Image, maxLow: nat, n: nat)
    requires 0 < n
    ensures GoodPlace(c, k, maxLow, n, k.end) <==> RoomBehind(c, k, maxLow, n)
  {
    assert k.end <= k.end + n - 1 < k.end + n;
    assert GoodPlace(c, k, maxLow, n, k.end) ==> Spans(c, k.end) && Spans(c, k.end + n - 1);
  }

  /** setup_memory without the initrd; None is "not enough memory to boot".  Memory is given
      up only while no usable cluster has room for the bootmap. */
  method SetupMemory(clusters: seq<Cluster>, k: Image, was: nat, limit: nat) returns (r: Option<Boot>)
    requires k.start < k.end && forall c | c in clusters :: EndOf(c) < U64_MODULUS
    ensures r.None? ==> exists j: nat :: HalvedForWant(clusters, k, Memory(clusters, was, limit), j) &&
                                         Halves(Memory(clusters, was, limit), j) <= k.end
    ensures r.Some? ==> exists j: nat :: HalvedForWant(clusters, k, Memory(clusters, was, limit), j) &&
                                         Halves(Memory(clusters, was, limit), j) == r.value.maxLow > k.end
    ensures r.Some? && limit > 0 ==> r.value.maxLow <= limit
    ensures r.Some? && limit == 0 ==> r.value.maxLow * PAGE_SIZE <= 32 * 1024 * 1024 * 1024
    ensures r.Some? ==>
              8 * PAGE_SIZE * (r.value.bootmapPages - 1) < r.value.maxLow <= 8 * PAGE_SIZE * r.value.bootmapPages
    ensures r.Some? ==>
              var b := r.value;
              b.bootmapPages == BootmapPages(b.maxLow) &&
              forall p: nat :: p in b.free <==>
                Free(clusters, k, b.maxLow, p) && !(b.bootmap <= p < b.bootmap + b.bootmapPages)
    ensures r.Some? ==>
              var b := r.value;
              exists i: nat :: Chosen(clusters, k, b.maxLow, i, b.bootmap) &&
                (WellPlaced(clusters, k, b.maxLow, b.bootmapPages, b.bootmap) <==>
                 !Swallowed(clusters[i], k) || SomeRoomBehind(clusters, k, b.maxLow, b.bootmapPages))
  {
    hide PlaceIn, U64, Swallowed, Free, BootmapPages, Memory, Halves, HalvedForWant, NoPlace, WellPlaced,
      SomeRoomBehind, IsTop;
    var memory := TopOfMemory(clusters, was, limit);
    var place, maxLow := PlaceBootmap(clusters, k, memory);
    if place == None { return None; }
    ghost var i: nat :| Chosen(clusters, k, maxLow, i, place.value);
    WellPlacedWhen(clusters, k, maxLow, i, place.value);
    ghost var tries: nat :| HalvedForWant(clusters, k, memory, tries) && maxLow == Halves(memory, tries);
    HalvesDivide(memory, tries);
    BootmapFits(maxLow);
    var free := FreeRegions(clusters, k, maxLow);
    var n := BootmapPages(maxLow);
    r := Some(Boot(maxLow, place.value, n, free - PageRange(place.value, place.value + n)));
    assert Chosen(clusters, k, r.value.maxLow, i, r.value.bootmap);
  }

  /** The bootmap has a bit for every page, and with one page less it would not. */
  lemma BootmapFits(maxLow: nat)
    requires maxLow > 0
    ensures 8 * PAGE_SIZE * (BootmapPages(maxLow) - 1) < maxLow <= 8 * PAGE_SIZE * BootmapPages(maxLow)
  {}

  lemma BootmapNotEmpty(maxLow: nat)
    requires maxLow > 0
    ensures BootmapPages(maxLow) > 0
  {}

  /** The failure at an input: a small usable cluster inside the image, and ample memory far
      behind it.  The unsigned difference wraps, the small cluster is chosen, and the bootmap
      is put right behind the image, where no cluster has memory. */
  lemma SwallowedClusterMisplaces()
    ensures var k := Image(0x180, 0x300);
            var cs := [Cluster(0x200, 0x10, 0), Cluster(0x800, 0x800, 0)];
            Memory(cs, 0, 0) == 0x1000 && Chosen(cs, k, 0x1000, 0, 0x300) &&
            !WellPlaced(cs, k, 0x1000, BootmapPages(0x1000), 0x300) &&
            forall j: nat | j < |cs| :: !Spans(cs[j], 0x300)
  {
    var k := Image(0x180, 0x300);
    var cs := [Cluster(0x200, 0x10, 0), Cluster(0x800, 0x800, 0)];
    assert Top(cs, 1, 0) == 0x210;
    assert Top(cs, 2, 0) == 0x1000;
    U64Wraps(0x210 - 0x300);
    assert Chosen(cs, k, 0x1000, 0, 0x300);
    WellPlacedWhen(cs, k, 0x1000, 0, 0x300);
  }

  /** A swallowed cluster does no harm if memory lies right behind the image. */
  lemma SwallowedMayBeHarmless()
    ensures var k := Image(0x180, 0x300);
            var cs := [Cluster(0x200, 0x10, 0), Cluster(0x300, 0xd00, 0)];
            Chosen(cs, k, 0x1000, 0, 0x300) && Swallowed(cs[0], k) &&
            WellPlaced(cs, k, 0x1000, BootmapPages(0x1000), 0x300)
  {
    var k := Image(0x180, 0x300);
    var cs := [Cluster(0x200, 0x10, 0), Cluster(0x300, 0xd00, 0)];
    U64Wraps(0x210 - 0x300);
    assert Chosen(cs, k, 0x1000, 0, 0x300);
    assert RoomBehind(cs[1], k, 0x1000, BootmapPages(0x1000));
    WellPlacedWhen(cs, k, 0x1000, 0, 0x300);
  }
}
