/** pcibios_align_resource: where a PCI resource may start. */
module ResourceAlign {
  import opened Arith

  const MB16: nat := 0x100_0000
  const MB128: nat := 0x800_0000

  // --- I/O space -----------------------------------------------------------------------------

  /** Bits 8 and 9 of the address are clear. */
  predicate IoPlace(a: nat) {
    a / 0x100 % 4 == 0
  }

  /** The start raised to the least address the hose allows; the difference is unsigned, so
      a start below the hose's base counts as far above it. */
  function Raised(start: nat, base: nat, least: nat): nat {
    if U64(start - base) < least then base + least else start
  }

  /** At or above its base a start is raised to the least address where it is below it.  Below
      its base it is left alone, unless the minimum and the distance to the base together
      exceed the 64-bit range. */
  lemma RaisedMeans(start: nat, base: nat, least: nat)
    requires base <= start + U64_MODULUS && start < base + U64_MODULUS
    ensures start >= base ==> Raised(start, base, least) == Max(start, base + least)
    ensures start < base ==>
              Raised(start, base, least) == if base - start + least > U64_MODULUS then base + least else start
  {}

  /** The I/O branch: the least address with bits 8 and 9 clear at or above the start and the
      hose's minimum.  A start below the hose's base escapes the minimum. */
  function AlignIo(start: nat, ioBase: nat, minIo: nat): (r: nat)
    ensures r % 0x400 < 0x100 && (start < ioBase + U64_MODULUS ==> start <= r)
    ensures ioBase <= start < ioBase + U64_MODULUS ==>
              ioBase + minIo <= r &&
              forall a: nat | start <= a < r && ioBase + minIo <= a :: a % 0x400 >= 0x100
    ensures start < ioBase <= U64_MODULUS - minIo ==> forall a: nat | start <= a < r :: a % 0x400 >= 0x100
  {
    hide IoPlace, U64;
    var s := Raised(start, ioBase, minIo);
    var r := if IoPlace(s) then s else (IoNext(s); (s + 0x3ff) / 0x400 * 0x400);
    IoStart(start, ioBase, minIo, s, r);
    r
  }

  lemma IoStart(start: nat, base: nat, least: nat, s: nat, r: nat)
    requires s == Raised(start, base, least) && s <= r && IoPlace(r)
    requires forall a: nat | s <= a < r :: !IoPlace(a)
    ensures r % 0x400 < 0x100 && (start < base + U64_MODULUS ==> start <= r)
    ensures base <= start < base + U64_MODULUS ==>
              base + least <= r && forall a: nat | start <= a < r && base + least <= a :: a % 0x400 >= 0x100
    ensures start < base <= U64_MODULUS - least ==> forall a: nat | start <= a < r :: a % 0x400 >= 0x100
  {
    hide IoPlace, U64;
    NeverLowered(start, base, least);
    if base <= start + U64_MODULUS && start < base + U64_MODULUS { RaisedMeans(start, base, least); }
    IoOffset(r, r / 0x400, r % 0x400);
    forall a: nat | s <= a < r
      ensures a % 0x400 >= 0x100
    {
      assert !IoPlace(a);
      IoOffset(a, a / 0x400, a % 0x400);
    }
  }

  lemma NeverLowered(start: nat, base: nat, least: nat)
    ensures start < base + U64_MODULUS ==> start <= Raised(start, base, least)
  {}

  /** Between an address with bit 8 or 9 set and the next multiple of 0x400 there is no place. */
  lemma IoNext(s: nat)
    requires !IoPlace(s)
    ensures var r := (s + 0x3ff) / 0x400 * 0x400;
            s <= r && IoPlace(r) && forall a: nat | s <= a < r :: !IoPlace(a)
  {
    hide IoPlace;
    var q, o := s / 0x400, s % 0x400;
    IoOffset(s, q, o);
    assert (s + 0x3ff) / 0x400 == q + 1;
    IoOffset(0x400 * (q + 1), q + 1, 0);
    forall a: nat | s <= a < 0x400 * (q + 1)
      ensures !IoPlace(a)
    {
      IoOffset(a, q, a - 0x400 * q);
    }
  }

  lemma IoOffset(a: nat, q: nat, o: nat)
    requires a == 0x400 * q + o && o < 0x400
    ensures IoPlace(a) <==> o < 0x100
  {
    assert a / 0x100 == 4 * q + o / 0x100;
  }

  // --- Memory space --------------------------------------------------------------------------

  /** In sparse space the first 16 MB of every 128 MB are an alias of the ISA range, and a
      resource must not cross a 128 MB boundary. */
  ghost predicate SparsePlace(a: nat, size: nat) {
    a % MB128 >= MB16 && a % MB128 + size <= MB128
  }

  ghost predicate MemPlace(a: nat, alignto: nat, size: nat, sparse: bool)
    requires alignto > 0
  {
    a % alignto == 0 && (sparse && size <= 7 * MB16 ==> SparsePlace(a, size))
  }

  /** The first start in a segment that is off the alias and aligned. */
  function FirstOffset(alignto: nat): int {
    Max(MB16, alignto)
  }

  /** What the memory branch promises of the start r it picks. */
  ghost predicate MemStartOk(s: nat, alignto: nat, size: nat, sparse: bool, r: nat)
    requires alignto > 0
  {
    && s <= r && r % alignto == 0
    && (sparse && size <= 7 * MB16 ==> (SparsePlace(r, size) <==> FirstOffset(alignto) + size <= MB128))
    && (MemPlace(r, alignto, size, sparse) ==> forall a: nat | s <= a < r :: !MemPlace(a, alignto, size, sparse))
  }

  /** The memory branch: the least allowed start at or above the raised one, whenever the
      resource fits a segment behind the first good offset; in sparse space the result is a
      good place if and only if it does. */
  method AlignMem(start: nat, memBase: nat, minMem: nat, size: nat, align: nat, sparse: bool) returns (r: nat)
    requires size > 0 && (align <= 0x1000 || IsPow2(align))
    ensures r % (if align > 0x1000 then align else 0x1000) == 0 && (start < memBase + U64_MODULUS ==> start <= r)
    ensures memBase <= start < memBase + U64_MODULUS ==> memBase + minMem <= r
    ensures var alignto := if align > 0x1000 then align else 0x1000;
            sparse && size <= 0x700_0000 ==>
              (r % 0x800_0000 >= 0x100_0000 && r % 0x800_0000 + size <= 0x800_0000 <==>
               (if alignto > 0x100_0000 then alignto else 0x100_0000) + size <= 0x800_0000)
    ensures var alignto := if align > 0x1000 then align else 0x1000;
            memBase <= start < memBase + U64_MODULUS && MemPlace(r, alignto, size, sparse) ==>
              forall a: nat | start <= a < r && memBase + minMem <= a :: !MemPlace(a, alignto, size, sparse)
    ensures var alignto := if align > 0x1000 then align else 0x1000;
            start < memBase <= U64_MODULUS - minMem && MemPlace(r, alignto, size, sparse) ==>
              forall a: nat | start <= a < r :: !MemPlace(a, alignto, size, sparse)
  {
    hide AlignUp, MemStartOk, Raised, IsPow2, MemPlace;
    var s := Raised(start, memBase, minMem);
    var alignto: nat := Max(0x1000, align);
    PageIsPow2();
    r := AlignUp(s, alignto);
    ghost var r0 := r;
    if sparse && size <= 7 * MB16 {
      if r / MB16 % 8 == 0 {
        r := AlignUp(r / MB128 * MB128 + MB16, alignto);
      }
      ghost var r1 := r;
      if r / MB128 != (r + size - 1) / MB128 {
        r := AlignUp(r / MB128 * MB128 + (MB128 + MB16), alignto);
      }
      SparseStart(s, r0, r1, r, alignto, size);
    } else {
      DenseStart(s, r, alignto, size, sparse);
    }
    MemStart(start, memBase, minMem, s, alignto, size, sparse, r);
  }

  lemma MemStart(start: nat, base: nat, least: nat, s: nat, alignto: nat, size: nat, sparse: bool, r: nat)
    requires alignto > 0 && s == Raised(start, base, least) && MemStartOk(s, alignto, size, sparse, r)
    ensures r % alignto == 0 && (start < base + U64_MODULUS ==> start <= r)
    ensures base <= start < base + U64_MODULUS ==> base + least <= r
    ensures sparse && size <= 0x700_0000 ==>
              (r % 0x800_0000 >= 0x100_0000 && r % 0x800_0000 + size <= 0x800_0000 <==>
               (if alignto > 0x100_0000 then alignto else 0x100_0000) + size <= 0x800_0000)
    ensures base <= start < base + U64_MODULUS && MemPlace(r, alignto, size, sparse) ==>
              forall a: nat | start <= a < r && base + least <= a :: !MemPlace(a, alignto, size, sparse)
    ensures start < base <= U64_MODULUS - least && MemPlace(r, alignto, size, sparse) ==>
              forall a: nat | start <= a < r :: !MemPlace(a, alignto, size, sparse)
  {
    hide MemPlace, U64, Raised;
    NeverLowered(start, base, least);
    if base <= start + U64_MODULUS && start < base + U64_MODULUS { RaisedMeans(start, base, least); }
  }

  /** A start below its base escapes the minimum in both spaces. */
  lemma BelowBaseEscapes()
    ensures AlignIo(0x1000, 0x10_0000, 0x8000) == 0x1000
    ensures forall r: nat | MemStartOk(Raised(0x100_0000, 0x4000_0000, 0x1_0000), 0x1000, 0x1000, true, r) ::
              r == 0x100_0000
  {
    RaisedMeans(0x1000, 0x10_0000, 0x8000);
    RaisedMeans(0x100_0000, 0x4000_0000, 0x1_0000);
    assert MemPlace(0x100_0000, 0x1000, 0x1000, true);
  }

  /** In sparse space there is a place at all exactly if the resource fits a segment behind the
      first good offset. */
  lemma PlaceExists(alignto: nat, size: nat)
    requires IsPow2(alignto) && alignto > 0 && 0 < size <= 7 * MB16
    ensures (exists a: nat :: MemPlace(a, alignto, size, true)) <==> FirstOffset(alignto) + size <= MB128
  {
    hide IsPow2, SparsePlace, FirstOffset;
    if a: nat :| MemPlace(a, alignto, size, true) {
      PlaceFits(a, alignto, size);
    }
    if FirstOffset(alignto) + size <= MB128 {
      FirstOffsetBounds(alignto);
      var a: nat := FirstOffset(alignto);
      FirstSegment(alignto, size);
      assert MemPlace(a, alignto, size, true);
    }
  }

  lemma PlaceFits(a: nat, alignto: nat, size: nat)
    requires IsPow2(alignto) && alignto > 0 && 0 < size <= 7 * MB16 && MemPlace(a, alignto, size, true)
    ensures FirstOffset(alignto) + size <= MB128
  {
    hide IsPow2, FirstOffset;
    if alignto >= MB128 { BigAlignment(a, alignto, size); } else { OffAlias(a, alignto, size); }
  }

  lemma FirstSegment(alignto: nat, size: nat)
    requires IsPow2(alignto) && alignto > 0 && 0 < size && FirstOffset(alignto) + size <= MB128
    ensures MemPlace(FirstOffset(alignto), alignto, size, true)
  {
    hide IsPow2, AlignUp;
    assert alignto < MB128;
    SegmentStart(0, alignto);
    assert AlignUp(0 * MB128 + MB16, alignto) == FirstOffset(alignto);
  }

  /** 96 MB at a 64 MB alignment: below the 112 MB that the code tries to place, yet no start
      will do, and whatever is returned is on the alias or crosses a segment. */
  lemma NoPlaceFor96(s: nat, r: nat)
    requires MemStartOk(s, 4 * MB16, 6 * MB16, true, r)
    ensures !SparsePlace(r, 6 * MB16) && forall a: nat :: !MemPlace(a, 4 * MB16, 6 * MB16, true)
  {
    hide SparsePlace;
    Pow2Values();
    assert IsPow2(4 * MB16);
    PlaceExists(4 * MB16, 6 * MB16);
  }

  lemma DenseStart(s: nat, r: nat, alignto: nat, size: nat, sparse: bool)
    requires IsPow2(alignto) && alignto > 0 && r == AlignUp(s, alignto) && size > 0
    requires !(sparse && size <= 7 * MB16)
    ensures MemStartOk(s, alignto, size, sparse, r)
  {
    hide AlignUp, MemPlace, SparsePlace, FirstOffset;
    NoEarlierPlace(s, r, r, alignto, size, sparse);
  }

  lemma SparseStart(s: nat, r0: nat, r1: nat, r: nat, alignto: nat, size: nat)
    requires IsPow2(alignto) && 0 < alignto && 0 < size <= 7 * MB16 && r0 == AlignUp(s, alignto)
    requires r1 == if r0 / MB16 % 8 == 0 then AlignUp(r0 / MB128 * MB128 + MB16, alignto) else r0
    requires r == if r1 / MB128 != (r1 + size - 1) / MB128
                  then AlignUp(r1 / MB128 * MB128 + (MB128 + MB16), alignto) else r1
    ensures MemStartOk(s, alignto, size, true, r)
  {
    hide AlignUp, MemPlace, SparsePlace, FirstOffset, IsPow2;
    if alignto >= MB128 {
      BigAlignment(r, alignto, size);
      NeverBelow(r0, r1, r, alignto, size);
    } else {
      SegmentSteps(r0, r1, r, alignto, size);
    }
    NoEarlierPlace(s, r0, r, alignto, size, true);
  }

  lemma NeverBelow(r0: nat, r1: nat, r: nat, alignto: nat, size: nat)
    requires 0 < alignto
    requires r1 == if r0 / MB16 % 8 == 0 then AlignUp(r0 / MB128 * MB128 + MB16, alignto) else r0
    requires r == if r1 / MB128 != (r1 + size - 1) / MB128
                  then AlignUp(r1 / MB128 * MB128 + (MB128 + MB16), alignto) else r1
    ensures r0 <= r
  {
    hide AlignUp;
    Octant(r0);
    Octant(r1);
  }

  /** The octant test of an address, and its segment. */
  lemma Octant(x: nat)
    ensures x < x / MB128 * MB128 + MB128
    ensures x / MB16 % 8 == 0 ==> x < x / MB128 * MB128 + MB16
  {
    Locate(x, x / MB128, x % MB128, 1);
  }

  /** Nothing before the result would do. */
  lemma NoEarlierPlace(s: nat, r0: nat, r: nat, alignto: nat, size: nat, sparse: bool)
    requires IsPow2(alignto) && alignto > 0 && r0 == AlignUp(s, alignto) && size > 0 && r % alignto == 0
    requires sparse && size <= 7 * MB16 && alignto < MB128 ==>
               forall a: nat | r0 <= a < r && SparsePlace(a, size) :: a % MB128 < FirstOffset(alignto)
    requires !(sparse && size <= 7 * MB16) ==> r == r0
    ensures MemPlace(r, alignto, size, sparse) ==>
              forall a: nat | s <= a < r :: !MemPlace(a, alignto, size, sparse)
  {
    hide AlignUp, SparsePlace, FirstOffset, IsPow2;
    forall a: nat | s <= a < r && MemPlace(a, alignto, size, sparse) && MemPlace(r, alignto, size, sparse)
      ensures false
    {
      AlignUpLeast(s, alignto, a);
      if sparse && size <= 7 * MB16 {
        if alignto >= MB128 { BigAlignment(a, alignto, size); } else { OffAlias(a, alignto, size); }
      }
    }
  }

  lemma PageIsPow2()
    ensures IsPow2(0x1000)
  {
    assert Pow2(12) == 0x1000;
  }

  lemma Pow2Values()
    ensures Pow2(24) == MB16 && Pow2(25) == 2 * MB16 && Pow2(26) == 4 * MB16 && Pow2(27) == MB128
  {
    assert Pow2(8) == 0x100;
    Pow2Sum(8, 8);
    Pow2Sum(8, 16);
  }

  /** An alignment below 128 MB divides 16 MB, or is 32 or 64 MB. */
  lemma AlignmentCases(alignto: nat) returns (d: nat)
    requires IsPow2(alignto) && alignto < MB128
    ensures alignto * d == MB16 || alignto == 2 * MB16 || alignto == 4 * MB16
  {
    hide Pow2;
    d := 0;
    var k: nat :| alignto == Pow2(k);
    Pow2Values();
    if k >= 27 { Pow2Grows(27, k); }
    if k <= 24 {
      Pow2Sum(k, 24 - k);
      d := Pow2(24 - k);
    }
  }

  /** With an alignment of 128 MB or more every aligned address is on the alias. */
  lemma BigAlignment(a: nat, alignto: nat, size: nat)
    requires IsPow2(alignto) && alignto >= MB128 && a % alignto == 0 && size > 0
    ensures !SparsePlace(a, size) && FirstOffset(alignto) + size > MB128
  {
    hide Pow2;
    var k: nat :| alignto == Pow2(k);
    Pow2Values();
    if k < 27 { Pow2Grows(k, 26); }
    Pow2Sum(27, k - 27);
    var m := a / alignto;
    assert a == m * alignto;
    assert a == (m * Pow2(k - 27)) * MB128 by {
      MulAssoc(m, MB128, Pow2(k - 27));
    }
    MultipleHasNoRemainder(m * Pow2(k - 27), MB128);
  }

  lemma MulAssoc(x: nat, y: nat, z: nat)
    ensures x * (y * z) == (x * z) * y
  {}

  /** In every segment the rounded-up start is the segment plus the first good offset. */
  lemma SegmentStart(q: nat, alignto: nat)
    requires IsPow2(alignto) && 0 < alignto < MB128
    ensures AlignUp(q * MB128 + MB16, alignto) == q * MB128 + FirstOffset(alignto)
  {
    hide AlignUp, IsPow2, Pow2;
    var d := AlignmentCases(alignto);
    if alignto == 2 * MB16 {
      SegmentStart32(q);
    } else if alignto == 4 * MB16 {
      SegmentStart64(q);
    } else {
      SegmentStart16(q, alignto, d);
    }
  }

  lemma SegmentStart16(q: nat, alignto: nat, d: nat)
    requires alignto > 0 && alignto * d == MB16
    ensures AlignUp(q * MB128 + MB16, alignto) == q * MB128 + FirstOffset(alignto)
  {
    hide AlignUp;
    var x := q * MB128 + MB16;
    DivisorNotAbove(alignto, d, MB16);
    Divides(q, alignto, d);
    AlignUpLeast(x, alignto, x);
  }

  lemma SegmentStart32(q: nat)
    ensures AlignUp(q * MB128 + MB16, 2 * MB16) == q * MB128 + 2 * MB16
  {
    hide AlignUp;
    var r := AlignUp(q * MB128 + MB16, 2 * MB16);
    var t := r / 0x200_0000;
    assert r == 0x200_0000 * t && 0x200_0000 * (4 * q) < r < 0x200_0000 * (4 * q + 2);
    assert t == 4 * q + 1;
  }

  lemma SegmentStart64(q: nat)
    ensures AlignUp(q * MB128 + MB16, 4 * MB16) == q * MB128 + 4 * MB16
  {
    hide AlignUp;
    var r := AlignUp(q * MB128 + MB16, 4 * MB16);
    var t := r / 0x400_0000;
    assert r == 0x400_0000 * t && 0x400_0000 * (2 * q) < r < 0x400_0000 * (2 * q + 2);
    assert t == 2 * q + 1;
  }

  lemma DivisorNotAbove(a: nat, d: nat, x: nat)
    requires a * d == x && x > 0
    ensures a <= x
  {
    if d > 1 { assert a * d >= a; }
  }

  lemma Divides(q: nat, alignto: nat, d: nat)
    requires alignto > 0 && alignto * d == MB16
    ensures (q * MB128 + MB16) % alignto == 0
  {
    MulAssoc(8 * q + 1, alignto, d);
    assert q * MB128 + MB16 == ((8 * q + 1) * d) * alignto;
    MultipleHasNoRemainder((8 * q + 1) * d, alignto);
  }

  /** An aligned address off the alias is at least at the first good offset. */
  lemma OffAlias(a: nat, alignto: nat, size: nat)
    requires IsPow2(alignto) && 0 < alignto < MB128 && a % alignto == 0
    ensures SparsePlace(a, size) ==> a % MB128 >= FirstOffset(alignto)
    ensures a % MB128 >= MB16 ==> a % MB128 >= FirstOffset(alignto)
  {
    hide IsPow2;
    var d := AlignmentCases(alignto);
    if alignto * d == MB16 { DivisorNotAbove(alignto, d, MB16); }
  }

  /** The two adjustments, in segment and offset. */
  lemma SegmentSteps(r0: nat, r1: nat, r: nat, alignto: nat, size: nat)
    requires IsPow2(alignto) && 0 < alignto < MB128 && 0 < size <= 7 * MB16 && r0 % alignto == 0
    requires r1 == if r0 / MB16 % 8 == 0 then AlignUp(r0 / MB128 * MB128 + MB16, alignto) else r0
    requires r == if r1 / MB128 != (r1 + size - 1) / MB128
                  then AlignUp(r1 / MB128 * MB128 + (MB128 + MB16), alignto) else r1
    ensures r0 <= r
    ensures SparsePlace(r, size) <==> FirstOffset(alignto) + size <= MB128
    ensures forall a: nat | r0 <= a < r && SparsePlace(a, size) :: a % MB128 < FirstOffset(alignto)
  {
    hide AlignUp, IsPow2, FirstOffset, SparsePlace;
    var q, o, f := r0 / MB128, r0 % MB128, FirstOffset(alignto);
    FirstOffsetBounds(alignto);
    SegmentStart(q, alignto);
    SegmentStart(q + 1, alignto);
    OffAlias(r0, alignto, size);
    Locate(r0, q, o, size);
    var o1 := if o < MB16 then f else o;
    Locate(r1, q, o1, size);
    if o1 + size > MB128 {
      Locate(r, q + 1, f, size);
    }
    forall a: nat | r0 <= a < r && SparsePlace(a, size)
      ensures a % MB128 < f
    {
      SkippedStart(a, a / MB128, a % MB128, q, o, f, size);
    }
  }

  lemma FirstOffsetBounds(alignto: nat)
    ensures MB16 <= FirstOffset(alignto) && (alignto < MB128 ==> FirstOffset(alignto) < MB128)
  {}

  lemma Locate(x: nat, q: nat, o: nat, size: nat)
    requires x == q * MB128 + o && o < MB128 && 0 < size <= MB128
    ensures x / MB128 == q && x % MB128 == o
    ensures x / MB16 % 8 == 0 <==> o < MB16
    ensures x / MB128 != (x + size - 1) / MB128 <==> o + size > MB128
    ensures SparsePlace(x, size) <==> o >= MB16 && o + size <= MB128
  {
    assert x / MB16 == 8 * q + o / MB16;
  }

  /** Between the aligned start (segment q, offset o) and the result, an aligned address off
      the alias would have to lie in q past o, and there the resource would cross. */
  lemma SkippedStart(a: nat, qa: nat, oa: nat, q: nat, o: nat, f: nat, size: nat)
    requires a == qa * MB128 + oa && oa < MB128 && o < MB128 && SparsePlace(a, size)
    requires MB16 <= f < MB128 && 0 < size <= MB128 && (o >= MB16 ==> o >= f)
    requires q * MB128 + o <= a
    requires var o1 := if o < MB16 then f else o;
             a < if o1 + size > MB128 then (q + 1) * MB128 + f else q * MB128 + o1
    ensures oa < f
  {
    hide SparsePlace;
    Locate(a, qa, oa, size);
  }
}
