/** What the relocation types mean: when each is accepted, and what the patched bytes then say
    about symbol, addend, gp and location. */
module RelocationMeaning {
  import opened Arith
  import opened ByteMemory
  import opened Relocation

  /** A branch at `here` can be given this target: a whole number of words, at most 2^23 bytes
      from the next instruction. */
  ghost predicate BranchFits(here: int, target: int) {
    S64(target - here - 4) % 4 == 0 && -0x80_0000 <= S64(target - here - 4) < 0x80_0000
  }

  /** Whether relocation r can be applied, by its type number. */
  ghost predicate Fits(l: Layout, symtab: seq<Symbol>, r: Rela)
    requires r.rSym < |symtab|
  {
    var sym := symtab[r.rSym];
    var target, here := sym.value + r.rAddend, l.base + r.rOffset;
    match r.rType % 256
    case 0 | 2 | 5 | 8 | 11 | 18 => true
    case 3 => -0x8000_0000 <= S64(target - l.gp) < 0x8000_0000
    case 4 => -0x8000 <= S64(l.got + r.rType / 256 - l.gp) < 0x8000
    case 6 => FitsSplit(S64(l.gp - here))
    case 7 => BranchFits(here, target)
    case 10 => -0x8000_0000 <= S64(target - here) < 0x8000_0000
    case 17 => FitsSplit(S64(target - l.gp))
    case 19 => -0x8000 <= S64(target - l.gp) < 0x8000
    case 28 => !sym.undefined && BranchFits(here, if sym.stdGpLoad then target + 8 else target)
    case _ => false
  }

  /** The branch instruction at `here` keeps its opcode and register, and goes to its target if
      that is at most 2^22 bytes from the next instruction, and only then. */
  ghost predicate BranchReads(m: Mem, m': Mem, here: int, target: int) {
    Get(m', U64(here), 4) / 0x20_0000 == Get(m, U64(here), 4) / 0x20_0000 &&
    (BranchTarget(U64(here), Get(m', U64(here), 4)) == U64(target) <==>
       -0x40_0000 <= S64(target - here - 4) < 0x40_0000)
  }

  /** What memory m' says at the patched place, after memory m. */
  ghost predicate Reads(m: Mem, m': Mem, l: Layout, symtab: seq<Symbol>, r: Rela)
    requires r.rSym < |symtab|
  {
    var sym := symtab[r.rSym];
    var target, here := sym.value + r.rAddend, l.base + r.rOffset;
    var loc, slot, second := U64(here), U64(l.got + r.rType / 256), U64(here + r.rAddend);
    match r.rType % 256
    case 2 => Get(m', loc, 8) == U64(target)
    case 3 => S32(Get(m', loc, 4)) == S64(target - l.gp)
    case 4 => DisjointRanges(loc, 2, slot, 8) ==>
                U64(l.gp + S16(Get(m', loc, 2))) == slot && Get(m', slot, 8) == U64(target)
    case 6 => DisjointRanges(loc, 2, second, 2) ==>
                LdahLda(Get(m', loc, 2), Get(m', second, 2)) == S64(l.gp - here)
    case 7 => BranchReads(m, m', here, target)
    case 10 => S32(Get(m', loc, 4)) == S64(target - here)
    case 11 => Get(m', loc, 8) == U64(target - here)
    case 17 => -0x8000 <= S64(target - l.gp) - 0x1_0000 * S16(Get(m', loc, 2)) < 0x8000
    case 18 => Get(m', loc, 2) == U64(target - l.gp) % 0x1_0000
    case 19 => S16(Get(m', loc, 2)) == S64(target - l.gp)
    case 28 => BranchReads(m, m', here, if sym.stdGpLoad then target + 8 else target)
    case _ => m' == m
  }

  /** Applied exactly if it fits, and then the patched place says what it should. */
  ghost predicate Exact(m: Mem, l: Layout, symtab: seq<Symbol>, r: Rela)
    requires r.rSym < |symtab|
  {
    var p := Patch(m, l, symtab, r);
    (p.Patched? <==> Fits(l, symtab, r)) && (p.Patched? ==> Reads(m, p.mem, l, symtab, r))
  }

  // --- Words that stand for the same number ------------------------------------------

  lemma SubWord(x: int, y: int)
    ensures U64(U64(x) - y) == U64(x - y) && U64(x - U64(y)) == U64(x - y) && U64(U64(x) + y) == U64(x + y)
  {
    hide U64;
    var a := U64Split(x);
    var b := U64Split(y);
    var c := U64Split(x - y);
    var d := U64Split(x + y);
    U64Is(U64(x) - y, U64(x - y), c - a);
    U64Is(x - U64(y), U64(x - y), c + b);
    U64Is(U64(x) + y, U64(x + y), d - a);
  }

  lemma SubWords(x: int, y: int)
    ensures U64(U64(x) - U64(y)) == U64(x - y)
  {
    hide U64;
    SubWord(U64(x), y);
    SubWord(x, y);
  }

  lemma SignedOf(x: int)
    ensures S64(U64(x)) == S64(x) && U64(S64(x)) == U64(x)
  {
    hide U64, S64;
    SignedWord(x);
    var a := U64Split(x);
    var b := U64Split(S64(U64(x)));
    S64Is(x, S64(U64(x)), a - b);
  }

  lemma LowHalfOf(x: int)
    ensures S32(U64(x)) == S32(x)
  {
    hide U64, S32;
    var a := U64Split(x);
    var b := S32Split(x);
    S32Is(U64(x), S32(x), b - 0x1_0000_0000 * a);
  }

  // --- The types one by one -----------------------------------------------------------

  lemma SlotlessExact(m: Mem, l: Layout, symtab: seq<Symbol>, r: Rela)
    requires r.rSym < |symtab| && r.rType % 256 !in {2, 3, 4, 6, 7, 10, 11, 17, 18, 19, 28}
    ensures Exact(m, l, symtab, r)
  {
    hide U64, S64, FitsSplit;
  }

  lemma RefquadExact(m: Mem, l: Layout, symtab: seq<Symbol>, r: Rela)
    requires r.rSym < |symtab| && r.rType % 256 == 2
    ensures Exact(m, l, symtab, r)
  {
    hide U64, S64, Put, Get;
    RefquadStoresQuad(m, l, symtab, r);
    QuadRead(m, U64(l.base + r.rOffset), U64(symtab[r.rSym].value + r.rAddend));
  }

  lemma QuadRead(m: Mem, loc: nat, value: nat)
    requires value < U64_MODULUS
    ensures Get(Put(m, loc, 8, value), loc, 8) == value
  {
    hide Put, Get, Low;
    GetPut(m, loc, 8, value);
    Low8(value);
  }

  lemma Gprel32Exact(m: Mem, l: Layout, symtab: seq<Symbol>, r: Rela)
    requires r.rSym < |symtab| && r.rType % 256 == 3
    ensures Exact(m, l, symtab, r)
  {
    hide U64, S64, S32, Put, Get;
    var target := symtab[r.rSym].value + r.rAddend;
    SubWord(target, l.gp);
    SignedOf(target - l.gp);
    Signed32Exact(m, U64(l.base + r.rOffset), target - l.gp);
  }

  lemma Srel32Exact(m: Mem, l: Layout, symtab: seq<Symbol>, r: Rela)
    requires r.rSym < |symtab| && r.rType % 256 == 10
    ensures Exact(m, l, symtab, r)
  {
    hide U64, S64, S32, Put, Get;
    var target, here := symtab[r.rSym].value + r.rAddend, l.base + r.rOffset;
    SubWords(target, here);
    SignedOf(target - here);
    LowHalfOf(U64(target) - U64(here));
    Signed32Exact(m, U64(here), target - here);
  }

  lemma Srel64Exact(m: Mem, l: Layout, symtab: seq<Symbol>, r: Rela)
    requires r.rSym < |symtab| && r.rType % 256 == 11
    ensures Exact(m, l, symtab, r)
  {
    hide U64, S64, Put, Get;
    var target, here := symtab[r.rSym].value + r.rAddend, l.base + r.rOffset;
    SubWords(target, here);
    QuadRead(m, U64(here), U64(target - here));
  }

  lemma Gprel16Exact(m: Mem, l: Layout, symtab: seq<Symbol>, r: Rela)
    requires r.rSym < |symtab| && r.rType % 256 == 19
    ensures Exact(m, l, symtab, r)
  {
    hide U64, S64, S16, Put, Get;
    var target := symtab[r.rSym].value + r.rAddend;
    SubWord(target, l.gp);
    SignedOf(target - l.gp);
    Signed16Exact(m, U64(l.base + r.rOffset), target - l.gp);
  }

  lemma GprelLowExact(m: Mem, l: Layout, symtab: seq<Symbol>, r: Rela)
    requires r.rSym < |symtab| && r.rType % 256 == 18
    ensures Exact(m, l, symtab, r)
  {
    hide U64, S64, Put, Get;
    var target := symtab[r.rSym].value + r.rAddend;
    SubWord(target, l.gp);
    GetPut(m, U64(l.base + r.rOffset), 2, U64(target - l.gp));
    Low2(U64(target - l.gp));
  }

  lemma GprelHighExact(m: Mem, l: Layout, symtab: seq<Symbol>, r: Rela)
    requires r.rSym < |symtab| && r.rType % 256 == 17
    ensures Exact(m, l, symtab, r)
  {
    hide U64, S64, S16, Put, Get, FitsSplit;
    var target := symtab[r.rSym].value + r.rAddend;
    HighAlone(m, l, U64(l.base + r.rOffset), target);
  }

  lemma HighAlone(m: Mem, l: Layout, loc: nat, target: int)
    ensures var delta := S64(target - l.gp);
            var p := PatchGprelHigh(m, l, loc, U64(target));
            (p.Patched? <==> FitsSplit(delta)) &&
            (p.Patched? ==> -0x8000 <= delta - 0x1_0000 * S16(Get(p.mem, loc, 2)) < 0x8000)
  {
    hide U64, S64, S16, Put, Get, FitsSplit;
    var x, delta := U64(target) - l.gp, S64(target - l.gp);
    var high := S64(x + 0x8000) / 0x1_0000;
    SubWord(target, l.gp);
    SignedOf(target - l.gp);
    SignedOf(x);
    var a := U64Split(x);
    var b := U64Split(delta);
    SignedWord(target - l.gp);
    RoundedHigh(x, delta, b - a);
    if S16(high) == high {
      HighRange(high, delta);
      var i := U64Split(high);
      Halfword(U64(high), high, 0x1_0000_0000_0000 * i);
      GetPut(m, loc, 2, U64(high));
      Low2(U64(high));
    }
  }

  lemma HighRange(high: int, delta: int)
    requires S16(high) == high
    ensures -0x8000 <= high < 0x8000
  {}

  lemma LiteralExact(m: Mem, l: Layout, symtab: seq<Symbol>, r: Rela)
    requires r.rSym < |symtab| && r.rType % 256 == 4
    ensures Exact(m, l, symtab, r)
  {
    hide U64, S64, S16, Put, Get;
    var slot, target := r.rType / 256, symtab[r.rSym].value + r.rAddend;
    SubWord(l.got + slot, l.gp);
    SignedOf(l.got + slot - l.gp);
    LiteralReach(m, l, U64(l.base + r.rOffset), slot, U64(target));
    if DisjointRanges(U64(l.base + r.rOffset), 2, U64(l.got + slot), 8) {
      LiteralReads(m, l, U64(l.base + r.rOffset), slot, U64(target));
    }
  }

  lemma LiteralReads(m: Mem, l: Layout, loc: nat, slot: nat, value: nat)
    requires DisjointRanges(loc, 2, U64(l.got + slot), 8) && value < U64_MODULUS
    ensures var p := PatchLiteral(m, l, loc, slot, value);
            p.Patched? ==>
              U64(l.gp + S16(Get(p.mem, loc, 2))) == U64(l.got + slot) && Get(p.mem, U64(l.got + slot), 8) == value
  {
    hide U64, S16, Put, Get;
    var hi := U64(l.got + slot);
    var lo := U64(hi - l.gp);
    var m1 := Put(m, loc, 2, lo);
    GetPut(m, loc, 2, lo);
    GetPutOther(m1, hi, 8, value, loc, 2);
    QuadRead(m1, hi, value);
    Low2(lo);
    SignedLow(lo);
    if U64(S16(lo)) == lo { AddBack(l.gp, hi, lo); }
  }

  lemma GpdispMeans(m: Mem, l: Layout, symtab: seq<Symbol>, r: Rela)
    requires r.rSym < |symtab| && r.rType % 256 == 6
    ensures Exact(m, l, symtab, r)
  {
    hide U64, S64, S16, S32, Put, Get, FitsSplit, LdahLda;
    var here := l.base + r.rOffset;
    SubWord(l.gp, here);
    SubWord(here, r.rAddend);
    SignedOf(l.gp - here);
    SignedWord(l.gp - here);
    SplitHalves(S64(l.gp - here));
    if DisjointRanges(U64(here), 2, U64(here + r.rAddend), 2) {
      GpdispExact(m, l, U64(here), r.rAddend);
    }
  }

  lemma BranchMeans(m: Mem, here: int, target: int)
    ensures var p := PatchBranch(m, U64(here), U64(target));
            (p.Patched? <==> BranchFits(here, target)) && (p.Patched? ==> BranchReads(m, p.mem, here, target))
  {
    hide U64, S64, Put, Get, BranchTarget, PatchBranch;
    SubWord(here, -4);
    SubWord(U64(target), U64(here) + 4);
    SubWords(target, here + 4);
    SignedOf(target - here - 4);
    WordsAndBytes(target - here - 4);
    BranchExact(m, U64(here), U64(target));
  }

  lemma WordsAndBytes(x: int)
    ensures U64(x) % 4 == 0 <==> S64(x) % 4 == 0
    ensures S64(x) % 4 == 0 ==> (-0x20_0000 <= S64(x) / 4 < 0x20_0000 <==> -0x80_0000 <= S64(x) < 0x80_0000)
    ensures S64(x) % 4 == 0 ==> (-0x10_0000 <= S64(x) / 4 < 0x10_0000 <==> -0x40_0000 <= S64(x) < 0x40_0000)
  {
    hide U64, S64;
    SignedOf(x);
    var a := U64Split(S64(x));
  }

  lemma BraddrExact(m: Mem, l: Layout, symtab: seq<Symbol>, r: Rela)
    requires r.rSym < |symtab| && r.rType % 256 == 7
    ensures Exact(m, l, symtab, r)
  {
    hide U64, S64, PatchBranch, BranchFits, BranchReads;
    BranchMeans(m, l.base + r.rOffset, symtab[r.rSym].value + r.rAddend);
  }

  lemma BrsgpExact(m: Mem, l: Layout, symtab: seq<Symbol>, r: Rela)
    requires r.rSym < |symtab| && r.rType % 256 == 28
    ensures Exact(m, l, symtab, r)
  {
    hide U64, S64, PatchBranch, BranchFits, BranchReads;
    var sym := symtab[r.rSym];
    var target := sym.value + r.rAddend;
    SubWord(target, 8);
    BranchMeans(m, l.base + r.rOffset, if sym.stdGpLoad then target + 8 else target);
  }

  /** Every relocation, of a known type or not: applied exactly if it fits, and then the patched
      place says what its type promises. */
  lemma PatchExact(m: Mem, l: Layout, symtab: seq<Symbol>, r: Rela)
    requires r.rSym < |symtab|
    ensures var p := Patch(m, l, symtab, r);
            (p.Patched? <==> Fits(l, symtab, r)) && (p.Patched? ==> Reads(m, p.mem, l, symtab, r))
  {
    hide Patch, Fits, Reads;
    match r.rType % 256
    case 2 => RefquadExact(m, l, symtab, r);
    case 3 => Gprel32Exact(m, l, symtab, r);
    case 4 => LiteralExact(m, l, symtab, r);
    case 6 => GpdispMeans(m, l, symtab, r);
    case 7 => BraddrExact(m, l, symtab, r);
    case 10 => Srel32Exact(m, l, symtab, r);
    case 11 => Srel64Exact(m, l, symtab, r);
    case 17 => GprelHighExact(m, l, symtab, r);
    case 18 => GprelLowExact(m, l, symtab, r);
    case 19 => Gprel16Exact(m, l, symtab, r);
    case 28 => BrsgpExact(m, l, symtab, r);
    case _ => SlotlessExact(m, l, symtab, r);
  }

  /** A GPRELHIGH and the GPRELLOW of the same symbol and addend add up to its distance from gp. */
  lemma HighAndLowAddUp(m: Mem, l: Layout, symtab: seq<Symbol>, high: Rela, low: Rela)
    requires high.rSym == low.rSym < |symtab| && high.rAddend == low.rAddend
    requires high.rType % 256 == 17 && low.rType % 256 == 18 && Fits(l, symtab, high)
    requires DisjointRanges(U64(l.base + high.rOffset), 2, U64(l.base + low.rOffset), 2)
    ensures var first := Patch(m, l, symtab, high);
            first.Patched? && Patch(first.mem, l, symtab, low).Patched? &&
            LdahLda(Get(Patch(first.mem, l, symtab, low).mem, U64(l.base + high.rOffset), 2),
                    Get(Patch(first.mem, l, symtab, low).mem, U64(l.base + low.rOffset), 2)) ==
            S64(symtab[high.rSym].value + high.rAddend - l.gp)
  {
    hide U64, S64, S16, Put, Get, FitsSplit, LdahLda;
    var target, locHigh, locLow := symtab[high.rSym].value + high.rAddend, U64(l.base + high.rOffset),
                                   U64(l.base + low.rOffset);
    SubWord(target, l.gp);
    SignedOf(target - l.gp);
    GprelPairExact(m, l, locHigh, locLow, U64(target));
  }
}
