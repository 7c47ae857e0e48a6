/** Loading a module: number the GOT, then apply every relocation. */
module ModuleLoad {
  import opened Arith
  import opened ByteMemory
  import opened Relocation
  import opened RelocationMeaning
  import opened GotNumbering

  const ENOEXEC := -8

  /** A relocation with the address of the section it patches. */
  datatype Site = Site(base: nat, rela: Rela)

  /** What stays fixed during a load. */
  datatype Frame = Frame(gp: nat, got: nat, symtab: seq<Symbol>)

  ghost predicate SymbolsOk(f: Frame, sites: seq<Site>) {
    forall i | 0 <= i < |sites| :: sites[i].rela.rSym < |f.symtab|
  }

  function PatchSite(m: Mem, f: Frame, s: Site): Patched
    requires s.rela.rSym < |f.symtab|
  {
    Patch(m, Layout(f.gp, f.got, s.base), f.symtab, s.rela)
  }

  /** All patches in order; the first refusal is the result. */
  ghost function ApplyAll(m: Mem, f: Frame, sites: seq<Site>): Patched
    requires SymbolsOk(f, sites)
  {
    if sites == [] then Patched(m)
    else
      match ApplyAll(m, f, sites[..|sites| - 1])
      case Patched(m') => PatchSite(m', f, sites[|sites| - 1])
      case refused => refused
  }

  /** Sections applied one after the other are their sites applied one after the other. */
  lemma {:induction false} ApplyAppend(m: Mem, f: Frame, a: seq<Site>, b: seq<Site>)
    requires SymbolsOk(f, a) && SymbolsOk(f, b)
    ensures SymbolsOk(f, a + b)
    ensures ApplyAll(m, f, a + b) ==
            match ApplyAll(m, f, a)
            case Patched(m') => ApplyAll(m', f, b)
            case refused => refused
    decreases |b|
  {
    if b == [] {
      assert a + b == a;
    } else {
      var pre := b[..|b| - 1];
      assert (a + b)[..|a + b| - 1] == a + pre;
      assert (a + b)[|a + b| - 1] == b[|b| - 1];
      ApplyAppend(m, f, a, pre);
    }
  }

  function SectionSites(base: nat, relas: seq<Rela>): (r: seq<Site>)
    ensures |r| == |relas| && forall i | 0 <= i < |relas| :: r[i] == Site(base, relas[i])
  {
    seq(|relas|, i requires 0 <= i < |relas| => Site(base, relas[i]))
  }

  /** The module image being patched. */
  class Image {
    var mem: Mem

    /** apply_relocate_add for one section. */
    method ApplyRelocateAdd(f: Frame, base: nat, relas: seq<Rela>) returns (status: int)
      requires SymbolsOk(f, SectionSites(base, relas))
      modifies this
      ensures var r := ApplyAll(old(mem), f, SectionSites(base, relas));
              if r.Patched? then status == 0 && mem == r.mem else status == ENOEXEC
      ensures status == 0 <==> AllFit(f, SectionSites(base, relas))
    {
      hide PatchSite, AllFit;
      ghost var sites, was := SectionSites(base, relas), mem;
      AppliedExactly(was, f, sites);
      for i := 0 to |relas|
        invariant SymbolsOk(f, sites[..i]) && ApplyAll(was, f, sites[..i]) == Patched(mem)
      {
        assert sites[..i + 1][..i] == sites[..i] && sites[i] == Site(base, relas[i]);
        match PatchSite(mem, f, Site(base, relas[i]))
        case Patched(m) => mem := m;
        case refused =>
          ApplyAppend(was, f, sites[..i + 1], sites[i + 1..]);
          assert sites[..i + 1] + sites[i + 1..] == sites;
          return ENOEXEC;
      }
      assert sites[..|relas|] == sites;
      return 0;
    }
  }

  // --- When a load succeeds ------------------------------------------------------------

  ghost predicate SiteFits(f: Frame, s: Site)
    requires s.rela.rSym < |f.symtab|
  {
    Fits(Layout(f.gp, f.got, s.base), f.symtab, s.rela)
  }

  ghost predicate AllFit(f: Frame, sites: seq<Site>)
    requires SymbolsOk(f, sites)
  {
    forall i | 0 <= i < |sites| :: SiteFits(f, sites[i])
  }

  /** Whether relocations are applied or refused depends on no byte of memory: they are applied
      exactly if every one of them fits. */
  lemma {:induction false} AppliedExactly(m: Mem, f: Frame, sites: seq<Site>)
    requires SymbolsOk(f, sites)
    ensures ApplyAll(m, f, sites).Patched? <==> AllFit(f, sites)
  {
    hide SiteFits, PatchSite;
    if sites == [] {
    } else {
      var pre, s := sites[..|sites| - 1], sites[|sites| - 1];
      AppliedExactly(m, f, pre);
      if AllFit(f, pre) {
        SiteExactly(ApplyAll(m, f, pre).mem, f, s);
      } else {
        var i: nat :| i < |pre| && !SiteFits(f, pre[i]);
        assert !SiteFits(f, sites[i]);
      }
    }
  }

  lemma SiteExactly(m: Mem, f: Frame, s: Site)
    requires s.rela.rSym < |f.symtab|
    ensures PatchSite(m, f, s).Patched? <==> SiteFits(f, s)
  {
    hide Patch, Fits, Reads;
    PatchExact(m, Layout(f.gp, f.got, s.base), f.symtab, s.rela);
  }

  // --- Where a patch writes ------------------------------------------------------------

  function Location(s: Site): nat {
    U64(s.base + s.rela.rOffset)
  }

  function Kind(s: Site): nat {
    s.rela.rType % 256
  }

  function Slot(s: Site): nat {
    s.rela.rType / 256
  }

  function Width(kind: nat): nat {
    match kind
    case R_REFQUAD => 8
    case R_GPREL32 => 4
    case R_LITERAL => 2
    case R_GPDISP => 2
    case R_BRSGP => 4
    case R_BRADDR => 4
    case R_SREL32 => 4
    case R_SREL64 => 8
    case R_GPRELHIGH => 2
    case R_GPRELLOW => 2
    case R_GPREL16 => 2
    case _ => 0
  }

  /** The bytes of the module's own sections that a site patches. */
  predicate InPatch(s: Site, k: nat) {
    Location(s) <= k < Location(s) + Width(Kind(s)) ||
    (Kind(s) == R_GPDISP && U64(Location(s) + s.rela.rAddend) <= k < U64(Location(s) + s.rela.rAddend) + 2)
  }

  predicate InSlot(f: Frame, s: Site, k: nat) {
    Kind(s) == R_LITERAL && U64(f.got + Slot(s)) <= k < U64(f.got + Slot(s)) + 8
  }

  lemma PatchFrame(m: Mem, f: Frame, s: Site, k: nat)
    requires s.rela.rSym < |f.symtab| && PatchSite(m, f, s).Patched?
    requires !InPatch(s, k) && !InSlot(f, s, k)
    ensures ByteAt(PatchSite(m, f, s).mem, k) == ByteAt(m, k)
  {
    hide U64, S16, S32, S64, Put, Get, ByteAt;
    forall m: Mem, a: nat, w: nat, v: nat | !(a <= k < a + w)
      ensures ByteAt(Put(m, a, w, v), k) == ByteAt(m, k)
    {
      PutFrame(m, a, w, v, k);
    }
  }

  // --- Every LITERAL finds its own value -------------------------------------------------

  /** No byte is patched by two sites, and none of the patched bytes is in the GOT. */
  ghost predicate SitesApart(f: Frame, sites: seq<Site>, gotSize: nat) {
    f.got + gotSize <= U64_MODULUS &&
    (forall i, j, k: nat | 0 <= i < j < |sites| :: !(InPatch(sites[i], k) && InPatch(sites[j], k))) &&
    (forall i, k: nat | 0 <= i < |sites| && InPatch(sites[i], k) :: !(f.got <= k < f.got + gotSize))
  }

  /** What running code sees at a patched LITERAL: its displacement from gp is the address of
      its slot, and the slot holds the value of its own symbol plus addend. */
  ghost predicate LiteralOk(m: Mem, f: Frame, s: Site, value: nat) {
    U64(f.gp + S16(Get(m, Location(s), 2))) == U64(f.got + Slot(s)) &&
    Get(m, U64(f.got + Slot(s)), 8) == value
  }

  function ValueOf(f: Frame, s: Site): nat
    requires s.rela.rSym < |f.symtab|
  {
    U64(f.symtab[s.rela.rSym].value + s.rela.rAddend)
  }

  lemma {:induction false} GetSame(m: Mem, m': Mem, a: nat, w: nat)
    requires forall k: nat | a <= k < a + w :: ByteAt(m', k) == ByteAt(m, k)
    ensures Get(m', a, w) == Get(m, a, w)
    decreases w
  {
    if w == 0 {
    } else {
      GetSame(m, m', a + 1, w - 1);
    }
  }

  /** The patch of a LITERAL does what it should. */
  lemma LiteralPatched(m: Mem, f: Frame, s: Site)
    requires s.rela.rSym < |f.symtab| && Kind(s) == R_LITERAL && PatchSite(m, f, s).Patched?
    requires DisjointRanges(Location(s), 2, U64(f.got + Slot(s)), 8)
    ensures LiteralOk(PatchSite(m, f, s).mem, f, s, ValueOf(f, s))
  {
    hide U64, S16, Put, Get, PatchLiteral;
    LiteralReads(m, Layout(f.gp, f.got, s.base), Location(s), Slot(s), ValueOf(f, s));
  }

  /** A later patch disturbs an earlier LITERAL only if it fills the same slot with another
      value. */
  lemma LiteralKept(m: Mem, f: Frame, s: Site, t: Site, value: nat)
    requires t.rela.rSym < |f.symtab| && PatchSite(m, f, t).Patched? && LiteralOk(m, f, s, value)
    requires Kind(s) == R_LITERAL
    requires forall k: nat | InPatch(s, k) :: !InPatch(t, k) && !InSlot(f, t, k)
    requires forall k: nat | InSlot(f, s, k) :: !InPatch(t, k)
    requires Kind(t) == R_LITERAL ==>
               if Slot(s) == Slot(t) then ValueOf(f, t) == value &&
                 DisjointRanges(Location(t), 2, U64(f.got + Slot(t)), 8)
               else forall k: nat | InSlot(f, s, k) :: !InSlot(f, t, k)
    ensures LiteralOk(PatchSite(m, f, t).mem, f, s, value)
  {
    hide U64, S16, Get, ByteAt, PatchSite;
    var m' := PatchSite(m, f, t).mem;
    forall k: nat | Location(s) <= k < Location(s) + 2
      ensures ByteAt(m', k) == ByteAt(m, k)
    {
      assert InPatch(s, k);
      PatchFrame(m, f, t, k);
    }
    GetSame(m, m', Location(s), 2);
    if Kind(t) == R_LITERAL && Slot(s) == Slot(t) {
      LiteralPatched(m, f, t);
    } else {
      var hi := U64(f.got + Slot(s));
      forall k: nat | hi <= k < hi + 8
        ensures ByteAt(m', k) == ByteAt(m, k)
      {
        assert InSlot(f, s, k);
        PatchFrame(m, f, t, k);
      }
      GetSame(m, m', hi, 8);
    }
  }

  // --- The whole load --------------------------------------------------------------------

  /** A module's relocations: as read, the section each belongs to, and as packed. */
  datatype Load = Load(relas: seq<Rela>, bases: seq<nat>, out: seq<Rela>)

  ghost function Sites(x: Load): (r: seq<Site>)
    requires |x.out| == |x.bases|
    ensures |r| == |x.out| && forall i | 0 <= i < |r| :: r[i] == Site(x.bases[i], x.out[i])
  {
    seq(|x.out|, i requires 0 <= i < |x.out| => Site(x.bases[i], x.out[i]))
  }

  /** Type words carry nothing but a type, the GOT stays below 2^23 bytes, and the tables
      were packed with the slots the numbering gave. */
  ghost predicate Numbered(x: Load) {
    |x.bases| == |x.out| && PackedAll(x.relas, x.out, NumberAll(x.relas).slots) &&
    (forall i | 0 <= i < |x.relas| :: x.relas[i].rType < 256) && NumberAll(x.relas).size <= 0x80_0000
  }

  lemma PackKeeps(r: Rela, slot: nat)
    requires r.rType < 256 && (r.rType == R_LITERAL ==> slot < 0x80_0000)
    ensures var p := Packed(r, slot);
            p.rSym == r.rSym && p.rAddend == r.rAddend && p.rOffset == r.rOffset &&
            p.rType % 256 == r.rType && (r.rType == R_LITERAL ==> p.rType / 256 == slot)
  {}

  /** What numbering and packing leave of relocation i. */
  lemma SiteOf(x: Load, i: nat)
    requires Numbered(x) && i < |x.relas|
    ensures var s, n := Sites(x)[i], NumberAll(x.relas);
            s.rela.rSym == x.relas[i].rSym && s.rela.rAddend == x.relas[i].rAddend &&
            (Kind(s) == R_LITERAL <==> IsLiteral(x.relas, i)) &&
            (IsLiteral(x.relas, i) ==> Slot(s) == n.slots[i] && Slot(s) % 8 == 0 && Slot(s) + 8 <= n.size)
  {
    hide NumberAll, Packed;
    var n := NumberAll(x.relas);
    if IsLiteral(x.relas, i) {
      SlotsSeparatePairs(x.relas, i, i);
      GotSize(x.relas);
    }
    PackKeeps(x.relas[i], n.slots[i]);
  }

  /** Two LITERALs with one slot ask for one value. */
  lemma SameSlotSameValue(x: Load, f: Frame, i: nat, j: nat)
    requires Numbered(x) && i < |x.relas| && j < |x.relas| && SymbolsOk(f, Sites(x))
    requires IsLiteral(x.relas, i) && IsLiteral(x.relas, j) && Slot(Sites(x)[i]) == Slot(Sites(x)[j])
    ensures ValueOf(f, Sites(x)[i]) == ValueOf(f, Sites(x)[j])
  {
    hide NumberAll, U64, First, Kind, Numbered, PackedAll, Slot;
    SlotsOf(x, i, j);
    assert KeyOf(x.relas[i]) == KeyOf(x.relas[j]);
  }

  lemma SlotsOf(x: Load, i: nat, j: nat)
    requires Numbered(x) && i < |x.relas| && j < |x.relas| && IsLiteral(x.relas, i) && IsLiteral(x.relas, j)
    ensures |x.out| == |x.bases| == |x.relas|
    ensures Slot(Sites(x)[i]) == Slot(Sites(x)[j]) ==> KeyOf(x.relas[i]) == KeyOf(x.relas[j])
    ensures Sites(x)[i].rela.rSym == x.relas[i].rSym && Sites(x)[i].rela.rAddend == x.relas[i].rAddend
    ensures Sites(x)[j].rela.rSym == x.relas[j].rSym && Sites(x)[j].rela.rAddend == x.relas[j].rAddend
  {
    hide NumberAll, First, Kind, Slot, Packed;
    SiteOf(x, i);
    SiteOf(x, j);
    SlotsSeparatePairs(x.relas, i, j);
    SlotsSeparatePairs(x.relas, j, i);
  }

  ghost predicate LoadOk(x: Load, f: Frame) {
    Numbered(x) && SymbolsOk(f, Sites(x)) && SitesApart(f, Sites(x), NumberAll(x.relas).size)
  }

  /** Slots lie in the GOT, so no other site's patch meets them, and different slots do not
      meet each other. */
  lemma SlotApart(x: Load, f: Frame, i: nat, j: nat)
    requires LoadOk(x, f) && i < |x.relas| && j < |x.relas| && IsLiteral(x.relas, i)
    ensures var s, t := Sites(x)[i], Sites(x)[j];
            (forall k: nat | InSlot(f, s, k) :: !InPatch(t, k)) &&
            DisjointRanges(Location(s), 2, U64(f.got + Slot(s)), 8) &&
            (IsLiteral(x.relas, j) && Slot(s) != Slot(t) ==> forall k: nat | InSlot(f, s, k) :: !InSlot(f, t, k))
  {
    hide NumberAll, Packed, InPatch, InSlot, Slot, Location, Kind, U64, SymbolsOk, Numbered;
    SlotInGot(x, f, i);
    if IsLiteral(x.relas, j) { SlotInGot(x, f, j); }
    var s := Sites(x)[i];
    PatchedHalfword(s);
    var k := Max(Location(s), U64(f.got + Slot(s)));
    assert !(InPatch(s, k) && InSlot(f, s, k));
  }

  lemma PatchedHalfword(s: Site)
    ensures Kind(s) == R_LITERAL ==> forall k: nat | Location(s) <= k < Location(s) + 2 :: InPatch(s, k)
  {}

  lemma SlotInGot(x: Load, f: Frame, i: nat)
    requires LoadOk(x, f) && i < |x.relas| && IsLiteral(x.relas, i)
    ensures |x.bases| == |x.out| == |x.relas|
    ensures var s, n := Sites(x)[i], NumberAll(x.relas);
            Kind(s) == R_LITERAL && U64(f.got + Slot(s)) == f.got + Slot(s) && Slot(s) % 8 == 0 &&
            forall k: nat :: InSlot(f, s, k) <==> f.got + Slot(s) <= k < f.got + Slot(s) + 8
    ensures var s, n := Sites(x)[i], NumberAll(x.relas);
            forall k: nat | InSlot(f, s, k) :: f.got <= k < f.got + n.size
  {
    hide NumberAll, Packed;
    SiteOf(x, i);
    U64Small(f.got + Slot(Sites(x)[i]));
  }

  lemma {:induction false} LiteralAfter(m: Mem, x: Load, f: Frame, i: nat, t: nat)
    requires LoadOk(x, f) && i < t <= |x.relas| && IsLiteral(x.relas, i)
    requires SymbolsOk(f, Sites(x)[..t]) && ApplyAll(m, f, Sites(x)[..t]).Patched?
    ensures LiteralOk(ApplyAll(m, f, Sites(x)[..t]).mem, f, Sites(x)[i], ValueOf(f, Sites(x)[i]))
    decreases t
  {
    hide NumberAll, LiteralOk, PatchSite, InSlot, InPatch, DisjointRanges, Slot, Kind, Location, U64;
    var sites := Sites(x);
    assert sites[..t][..t - 1] == sites[..t - 1] && sites[..t][t - 1] == sites[t - 1];
    var m1 := ApplyAll(m, f, sites[..t - 1]).mem;
    SiteOf(x, i);
    SlotApart(x, f, i, t - 1);
    if i == t - 1 {
      LiteralPatched(m1, f, sites[i]);
    } else {
      LiteralAfter(m, x, f, i, t - 1);
      SiteOf(x, t - 1);
      LaterSiteKeeps(m1, x, f, i, t - 1);
    }
  }

  lemma LaterSiteKeeps(m: Mem, x: Load, f: Frame, i: nat, j: nat)
    requires LoadOk(x, f) && i < j < |x.relas| && IsLiteral(x.relas, i)
    requires PatchSite(m, f, Sites(x)[j]).Patched?
    requires LiteralOk(m, f, Sites(x)[i], ValueOf(f, Sites(x)[i]))
    ensures LiteralOk(PatchSite(m, f, Sites(x)[j]).mem, f, Sites(x)[i], ValueOf(f, Sites(x)[i]))
  {
    hide NumberAll, LiteralOk, PatchSite, InSlot, InPatch, DisjointRanges, Slot, Kind, Location, U64, ValueOf;
    var s, t := Sites(x)[i], Sites(x)[j];
    SiteOf(x, i);
    SiteOf(x, j);
    SlotApart(x, f, i, j);
    if IsLiteral(x.relas, j) {
      SlotApart(x, f, j, i);
      if Slot(s) == Slot(t) { SameSlotSameValue(x, f, i, j); }
    } else {
      NoSlotNoByte(f, t);
    }
    LiteralKept(m, f, s, t, ValueOf(f, s));
  }

  lemma NoSlotNoByte(f: Frame, s: Site)
    requires Kind(s) != R_LITERAL
    ensures forall k: nat :: !InSlot(f, s, k)
  {}

  /** GOT correctness over the whole load: once every relocation of every section has been
      applied, each LITERAL's displacement from gp is the address of a slot inside the GOT,
      and that slot holds the value of the relocation's own symbol plus its own addend. */
  lemma EveryLiteralFindsItsValue(m: Mem, x: Load, f: Frame, i: nat)
    requires LoadOk(x, f) && ApplyAll(m, f, Sites(x)).Patched?
    requires i < |x.relas| && IsLiteral(x.relas, i)
    ensures var m', slot := ApplyAll(m, f, Sites(x)).mem, NumberAll(x.relas).slots[i];
            slot + 8 <= NumberAll(x.relas).size && x.relas[i].rSym < |f.symtab| &&
            U64(f.gp + S16(Get(m', Location(Sites(x)[i]), 2))) == U64(f.got + slot) &&
            Get(m', U64(f.got + slot), 8) == U64(f.symtab[x.relas[i].rSym].value + x.relas[i].rAddend)
  {
    hide NumberAll, ApplyAll, Get, S16, U64, Location, Kind;
    SiteOf(x, i);
    assert Sites(x)[..|x.relas|] == Sites(x);
    LiteralAfter(m, x, f, i, |x.relas|);
  }

  // --- Every other relocation reads as it should -------------------------------------------

  ghost predicate SiteReads(m: Mem, m': Mem, f: Frame, s: Site)
    requires s.rela.rSym < |f.symtab|
  {
    Reads(m, m', Layout(f.gp, f.got, s.base), f.symtab, s.rela)
  }

  /** The types that patch bytes of their own section only. */
  ghost predicate PatchesSection(kind: nat) {
    kind in {2, 3, 6, 7, 10, 11, 17, 18, 19, 28}
  }

  lemma PatchReads(m: Mem, f: Frame, s: Site)
    requires s.rela.rSym < |f.symtab| && PatchSite(m, f, s).Patched?
    ensures SiteReads(m, PatchSite(m, f, s).mem, f, s)
  {
    hide Patch, Fits, Reads;
    PatchExact(m, Layout(f.gp, f.got, s.base), f.symtab, s.rela);
  }

  /** What a patch says depends on the patched bytes only. */
  lemma ReadsSame(m0: Mem, m: Mem, m': Mem, m1: Mem, f: Frame, s: Site)
    requires s.rela.rSym < |f.symtab| && PatchesSection(Kind(s)) && SiteReads(m, m', f, s)
    requires forall k: nat | InPatch(s, k) :: ByteAt(m0, k) == ByteAt(m, k) && ByteAt(m1, k) == ByteAt(m', k)
    ensures SiteReads(m0, m1, f, s)
  {
    hide U64, S64, S32, S16, Get, ByteAt, LdahLda, BranchTarget;
    var loc, second := Location(s), U64(s.base + s.rela.rOffset + s.rela.rAddend);
    SubWord(s.base + s.rela.rOffset, s.rela.rAddend);
    GetSame(m0, m, loc, Width(Kind(s)));
    GetSame(m', m1, loc, Width(Kind(s)));
    if Kind(s) == R_GPDISP { GetSame(m', m1, second, 2); }
  }

  /** No site writes a byte that another one patches. */
  lemma PatchesApart(x: Load, f: Frame, i: nat, j: nat, k: nat)
    requires LoadOk(x, f) && i < |x.relas| && j < |x.relas| && i != j && InPatch(Sites(x)[i], k)
    ensures !InPatch(Sites(x)[j], k) && !InSlot(f, Sites(x)[j], k)
  {
    hide NumberAll, Packed, InPatch, InSlot, Slot, Location, Kind, U64, SymbolsOk;
    SiteOf(x, j);
    var sites := Sites(x);
    if IsLiteral(x.relas, j) { SlotInGot(x, f, j); } else { NoSlotNoByte(f, sites[j]); }
  }

  lemma OtherSiteKeeps(m: Mem, x: Load, f: Frame, i: nat, j: nat)
    requires LoadOk(x, f) && i < |x.relas| && j < |x.relas| && i != j && PatchSite(m, f, Sites(x)[j]).Patched?
    ensures forall k: nat | InPatch(Sites(x)[i], k) :: ByteAt(PatchSite(m, f, Sites(x)[j]).mem, k) == ByteAt(m, k)
  {
    hide PatchSite, InPatch, InSlot, ByteAt, NumberAll, Slot, Location, Kind, U64;
    forall k: nat | InPatch(Sites(x)[i], k)
      ensures ByteAt(PatchSite(m, f, Sites(x)[j]).mem, k) == ByteAt(m, k)
    {
      PatchesApart(x, f, i, j, k);
      PatchFrame(m, f, Sites(x)[j], k);
    }
  }

  /** Up to its turn the bytes that a site patches are as they were. */
  lemma {:induction false} SiteBefore(m: Mem, x: Load, f: Frame, i: nat, t: nat)
    requires LoadOk(x, f) && t <= i < |x.relas|
    requires SymbolsOk(f, Sites(x)[..t]) && ApplyAll(m, f, Sites(x)[..t]).Patched?
    ensures forall k: nat | InPatch(Sites(x)[i], k) :: ByteAt(ApplyAll(m, f, Sites(x)[..t]).mem, k) == ByteAt(m, k)
  {
    hide PatchSite, InPatch, ByteAt, NumberAll, SitesApart, Packed;
    if t == 0 {
    } else {
      var sites := Sites(x);
      assert sites[..t][..t - 1] == sites[..t - 1] && sites[..t][t - 1] == sites[t - 1];
      SiteBefore(m, x, f, i, t - 1);
      OtherSiteKeeps(ApplyAll(m, f, sites[..t - 1]).mem, x, f, i, t - 1);
    }
  }

  lemma {:induction false} SiteAfter(m: Mem, x: Load, f: Frame, i: nat, t: nat)
    requires LoadOk(x, f) && i < t <= |x.relas| && PatchesSection(Kind(Sites(x)[i]))
    requires SymbolsOk(f, Sites(x)[..t]) && ApplyAll(m, f, Sites(x)[..t]).Patched?
    ensures Sites(x)[i].rela.rSym < |f.symtab|
    ensures SiteReads(m, ApplyAll(m, f, Sites(x)[..t]).mem, f, Sites(x)[i])
    decreases t
  {
    hide PatchSite, InPatch, ByteAt, NumberAll, SitesApart, SiteReads, PatchesSection, Kind, Packed;
    var sites := Sites(x);
    assert sites[..t][..t - 1] == sites[..t - 1] && sites[..t][t - 1] == sites[t - 1];
    var m1, m2 := ApplyAll(m, f, sites[..t - 1]).mem, ApplyAll(m, f, sites[..t]).mem;
    if i == t - 1 {
      PatchReads(m1, f, sites[i]);
      SiteBefore(m, x, f, i, i);
      ReadsSame(m, m1, m2, m2, f, sites[i]);
    } else {
      SiteAfter(m, x, f, i, t - 1);
      OtherSiteKeeps(m1, x, f, i, t - 1);
      ReadsSame(m, m, m1, m2, f, sites[i]);
    }
  }

  /** Correctness of a load for every other type that patches: once all relocations have been
      applied, the bytes each one patched say what its type promises. */
  lemma EveryPatchReads(m: Mem, x: Load, f: Frame, i: nat)
    requires LoadOk(x, f) && ApplyAll(m, f, Sites(x)).Patched?
    requires i < |x.relas| && x.relas[i].rType in {2, 3, 6, 7, 10, 11, 17, 18, 19, 28}
    ensures Sites(x)[i].rela.rSym < |f.symtab| && Sites(x)[i].rela.rType % 256 == x.relas[i].rType
    ensures Reads(m, ApplyAll(m, f, Sites(x)).mem, Layout(f.gp, f.got, x.bases[i]), f.symtab, Sites(x)[i].rela)
  {
    hide NumberAll, ApplyAll, Reads;
    SiteOf(x, i);
    PackKeeps(x.relas[i], NumberAll(x.relas).slots[i]);
    assert Sites(x)[..|x.relas|] == Sites(x);
    SiteAfter(m, x, f, i, |x.relas|);
  }
}
