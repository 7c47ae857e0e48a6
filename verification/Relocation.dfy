/** Applying one relocation of a loadable module (Alpha ELF). */
module Relocation {
  import opened Arith
  import opened ByteMemory

  const R_NONE := 0
  const R_REFQUAD := 2
  const R_GPREL32 := 3
  const R_LITERAL := 4
  const R_LITUSE := 5
  const R_GPDISP := 6
  const R_BRADDR := 7
  const R_HINT := 8
  const R_SREL32 := 10
  const R_SREL64 := 11
  const R_GPRELHIGH := 17
  const R_GPRELLOW := 18
  const R_GPREL16 := 19
  const R_BRSGP := 28

  /** A symbol, with the two facts BRSGP asks about. */
  datatype Symbol = Symbol(value: nat, undefined: bool, stdGpLoad: bool)

  /** A RELA entry; r_info is kept as its two 32-bit words. */
  datatype Rela = Rela(rOffset: nat, rSym: nat, rType: nat, rAddend: int)

  /** Signed readings of the low bits of a word. */
  function S16(x: int): int { (x + 0x8000) % 0x1_0000 - 0x8000 }
  function S32(x: int): int { (x + 0x8000_0000) % 0x1_0000_0000 - 0x8000_0000 }
  function S64(x: int): int { (x + 0x8000_0000_0000_0000) % U64_MODULUS - 0x8000_0000_0000_0000 }

  function S21(x: int): int { (x + 0x10_0000) % 0x20_0000 - 0x10_0000 }

  datatype Patched = Patched(mem: Mem) | Overflow | Unknown

  /** Where the sections ended up: gp, the GOT, and the section being patched. */
  datatype Layout = Layout(gp: nat, got: nat, base: nat)

  /** A value is kept only if its sign-extended cut to `width` bits is the value. */
  function Checked(m: Mem, fits: bool, loc: nat, w: nat, value: nat): Patched {
    if fits then Patched(Put(m, loc, w, value)) else Overflow
  }

  function PatchLiteral(m: Mem, l: Layout, loc: nat, slot: nat, value: nat): Patched {
    var hi := U64(l.got + slot);
    var lo := U64(hi - l.gp);
    if U64(S16(lo)) != lo then Overflow
    else Patched(Put(Put(m, loc, 2, lo), hi, 8, value))
  }

  function PatchGpdisp(m: Mem, l: Layout, loc: nat, addend: int): Patched {
    var value := U64(l.gp - loc);
    var lo := U64(S16(value));
    var hi := U64(S32(value - lo));
    if U64(hi + lo) != value then Overflow
    else Patched(Put(Put(m, loc, 2, hi / 0x1_0000), U64(loc + addend), 2, lo))
  }

  function PatchBranch(m: Mem, loc: nat, target: nat): Patched {
    var disp := U64(target - U64(loc + 4));
    if disp % 4 != 0 then Overflow
    else
      var words := U64(S64(disp) / 4);
      if U64(words + 0x20_0000) >= 0x40_0000 then Overflow
      else Patched(Put(m, loc, 4, Get(m, loc, 4) / 0x20_0000 * 0x20_0000 + words % 0x20_0000))
  }

  function PatchGprelHigh(m: Mem, l: Layout, loc: nat, value: nat): Patched {
    var high := S64(value - l.gp + 0x8000) / 0x1_0000;
    Checked(m, S16(high) == high, loc, 2, U64(high))
  }

  /** One turn of the relocation loop. */
  function Patch(m: Mem, l: Layout, symtab: seq<Symbol>, r: Rela): Patched
    requires r.rSym < |symtab|
  {
    var sym, slot, kind := symtab[r.rSym], r.rType / 256, r.rType % 256;
    var loc := U64(l.base + r.rOffset);
    var value := U64(sym.value + r.rAddend);
    var gpRel := U64(value - l.gp);
    match kind
    case R_NONE => Patched(m)
    case R_REFQUAD => Patched(Put(Put(m, loc, 4, value), loc + 4, 4, value / 0x1_0000_0000))
    case R_GPREL32 => Checked(m, U64(S32(gpRel)) == gpRel, loc, 4, gpRel)
    case R_LITERAL => PatchLiteral(m, l, loc, slot, value)
    case R_LITUSE => Patched(m)
    case R_GPDISP => PatchGpdisp(m, l, loc, r.rAddend)
    case R_BRSGP =>
      if sym.undefined then Overflow
      else PatchBranch(m, loc, if sym.stdGpLoad then U64(value + 8) else value)
    case R_BRADDR => PatchBranch(m, loc, value)
    case R_HINT => Patched(m)
    case R_SREL32 => Checked(m, U64(S32(value - loc)) == U64(value - loc), loc, 4, U64(value - loc))
    case R_SREL64 => Patched(Put(m, loc, 8, U64(value - loc)))
    case R_GPRELHIGH => PatchGprelHigh(m, l, loc, value)
    case R_GPRELLOW => Patched(Put(m, loc, 2, gpRel))
    case R_GPREL16 => Checked(m, U64(S16(gpRel)) == gpRel, loc, 2, gpRel)
    case _ => Unknown
  }

  // --- Split immediates are exact ----------------------------------------------------

  /** What ldah and lda with these two displacements add to a register. */
  function LdahLda(high: nat, low: nat): int {
    S16(high) * 0x1_0000 + S16(low)
  }

  ghost predicate FitsSplit(delta: int) {
    -0x8000_0000 - 0x8000 <= delta <= 0x8000_0000 - 0x8000 - 1
  }

  lemma S16Is(x: int, r: int, q: int)
    requires x == r + 0x1_0000 * q && -0x8000 <= r < 0x8000
    ensures S16(x) == r
  {}

  lemma S32Is(x: int, r: int, q: int)
    requires x == r + 0x1_0000_0000 * q && -0x8000_0000 <= r < 0x8000_0000
    ensures S32(x) == r
  {}

  lemma S32Split(x: int) returns (q: int)
    ensures x == S32(x) + 0x1_0000_0000 * q && -0x8000_0000 <= S32(x) < 0x8000_0000
  {
    q := (x + 0x8000_0000) / 0x1_0000_0000;
  }

  lemma S16Split(x: int) returns (q: int)
    ensures x == S16(x) + 0x1_0000 * q && -0x8000 <= S16(x) < 0x8000
  {
    q := (x + 0x8000) / 0x1_0000;
  }

  lemma S64Is(x: int, r: int, q: int)
    requires x == r + U64_MODULUS * q && -0x8000_0000_0000_0000 <= r < 0x8000_0000_0000_0000
    ensures S64(x) == r
  {}

  lemma U64Is(x: int, r: int, q: int)
    requires x == r + U64_MODULUS * q && 0 <= r < U64_MODULUS
    ensures U64(x) == r
  {}

  lemma U64Split(x: int) returns (q: int)
    ensures x == U64(x) + U64_MODULUS * q && 0 <= U64(x) < U64_MODULUS
  {
    q := x / U64_MODULUS;
  }

  /** Reading 64-bit words as signed numbers: a word and the number it stands for. */
  lemma WordOf(delta: int)
    requires -0x8000_0000_0000_0000 <= delta < 0x8000_0000_0000_0000
    ensures U64(delta) == if delta >= 0 then delta else delta + U64_MODULUS
    ensures S64(U64(delta)) == delta
  {}

  /** The words of a split displacement, as signed numbers and their wrap-arounds. */
  lemma SplitWords(delta: int, value: nat, lo: nat, hi: nat)
    returns (n: int, i: int, j: int, k: int)
    requires value == U64(delta) && lo == U64(S16(value)) && hi == U64(S32(value - lo))
    ensures delta == S16(value) + 0x1_0000 * n && -0x8000 <= S16(value) < 0x8000
    ensures lo == S16(value) - U64_MODULUS * j
    ensures hi == S32(value - lo) - U64_MODULUS * i && -0x8000_0000 <= S32(value - lo) < 0x8000_0000
    ensures delta == value + U64_MODULUS * k
  {
    hide U64, S16, S32;
    k := U64Split(delta);
    var a := S16Split(value);
    j := U64Split(S16(value));
    i := U64Split(S32(value - lo));
    var b := S32Split(value - lo);
    n := a + 0x1_0000_0000_0000 * k;
  }

  lemma SplitFits(delta: int, value: nat, lo: nat, hi: nat)
    requires value == U64(delta) && lo == U64(S16(value)) && hi == U64(S32(value - lo)) && FitsSplit(delta)
    ensures U64(hi + lo) == value && LdahLda(hi / 0x1_0000 % 0x1_0000, lo % 0x1_0000) == delta
  {
    hide U64, S16, S32, LdahLda, FitsSplit;
    var n, i, j, k := SplitWords(delta, value, lo, hi);
    UpperFits(delta, S16(value), n);
    S32Is(value - lo, 0x1_0000 * n, 0x1_0000_0000 * (j - k));
    U64Is(hi + lo, value, k - i - j);
    HalvesRead(hi, lo, S16(value), n, i, j);
  }

  lemma SplitOnlyIfFits(delta: int, value: nat, lo: nat, hi: nat)
    requires -0x8000_0000_0000_0000 <= delta < 0x8000_0000_0000_0000
    requires value == U64(delta) && lo == U64(S16(value)) && hi == U64(S32(value - lo)) && U64(hi + lo) == value
    ensures FitsSplit(delta)
  {
    hide U64, S16, S32, FitsSplit;
    var n, i, j, k := SplitWords(delta, value, lo, hi);
    var c := U64Split(hi + lo);
    SplitTooFar(delta, S32(value - lo), S16(value), i + j + c - k, n);
  }

  /** The two halves of a split displacement: accepted exactly when the displacement fits,
      and then the halves add up to it again. */
  lemma SplitHalves(delta: int)
    requires -0x8000_0000_0000_0000 <= delta < 0x8000_0000_0000_0000
    ensures var value := U64(delta);
            var lo := U64(S16(value));
            var hi := U64(S32(value - lo));
            (U64(hi + lo) == value <==> FitsSplit(delta)) &&
            (FitsSplit(delta) ==> LdahLda(hi / 0x1_0000 % 0x1_0000, lo % 0x1_0000) == delta)
  {
    hide U64, S16, S32, LdahLda, FitsSplit;
    var value: int := U64(delta);
    var lo: int := U64(S16(value));
    var hi := U64(S32(value - lo));
    if FitsSplit(delta) {
      SplitFits(delta, value, lo, hi);
    } else if U64(hi + lo) == value {
      SplitOnlyIfFits(delta, value, lo, hi);
    }
  }

  lemma UpperFits(delta: int, low: int, a: int)
    requires FitsSplit(delta) && -0x8000 <= low < 0x8000 && delta == low + 0x1_0000 * a
    ensures -0x8000 <= a < 0x8000
  {}

  lemma SplitTooFar(delta: int, s: int, low: int, q: int, n: int)
    requires -0x8000_0000_0000_0000 <= delta < 0x8000_0000_0000_0000 && -0x8000_0000 <= s < 0x8000_0000
    requires -0x8000 <= low < 0x8000 && delta == s + low - U64_MODULUS * q && delta == low + 0x1_0000 * n
    ensures FitsSplit(delta)
  {}

  lemma HalvesRead(hi: nat, lo: nat, low: int, a: int, i: int, j: int)
    requires -0x8000 <= a < 0x8000 && -0x8000 <= low < 0x8000
    requires hi == 0x1_0000 * a - U64_MODULUS * i && lo == low - U64_MODULUS * j
    ensures LdahLda(hi / 0x1_0000 % 0x1_0000, lo % 0x1_0000) == 0x1_0000 * a + low
  {
    hide S16;
    assert hi / 0x1_0000 == a - 0x1_0000_0000_0000 * i;
    Halfword(hi / 0x1_0000, a, 0x1_0000_0000 * i);
    Halfword(lo, low, 0x1_0000_0000_0000 * j);
  }

  lemma Halfword(x: nat, r: int, q: int)
    requires x == r - 0x1_0000 * q && -0x8000 <= r < 0x8000
    ensures S16(x % 0x1_0000) == r
  {
    assert x % 0x1_0000 == if r >= 0 then r else r + 0x1_0000;
  }

  lemma {:induction false} PutByteFrame(m: Mem, a: nat, w: nat, v: nat, b: nat, x: nat, u: nat)
    ensures forall k: nat | !(a <= k < a + w) && !(b <= k < b + x) ::
              ByteAt(Put(Put(m, a, w, v), b, x, u), k) == ByteAt(m, k)
  {
    forall k: nat | !(a <= k < a + w) && !(b <= k < b + x)
      ensures ByteAt(Put(Put(m, a, w, v), b, x, u), k) == ByteAt(m, k)
    {
      PutFrame(m, a, w, v, k);
      PutFrame(Put(m, a, w, v), b, x, u, k);
    }
  }

  /** GPDISP: accepted exactly when gp - location fits a split displacement, and then the
      two patched instructions add exactly gp - location; nothing else is touched. */
  lemma GpdispExact(m: Mem, l: Layout, loc: nat, addend: int)
    requires DisjointRanges(loc, 2, U64(loc + addend), 2)
    ensures var delta, second := S64(U64(l.gp - loc)), U64(loc + addend);
            match PatchGpdisp(m, l, loc, addend)
            case Patched(m') =>
              FitsSplit(delta) && LdahLda(Get(m', loc, 2), Get(m', second, 2)) == delta &&
              forall k: nat | !(loc <= k < loc + 2) && !(second <= k < second + 2) :: ByteAt(m', k) == ByteAt(m, k)
            case _ => !FitsSplit(delta)
  {
    hide U64, S16, S32, S64, Put, Get, ByteAt, LdahLda, FitsSplit;
    var value: int, second := U64(l.gp - loc), U64(loc + addend);
    var delta := S64(value);
    SignedWord(l.gp - loc);
    SplitHalves(delta);
    var lo: int := U64(S16(value));
    var hi := U64(S32(value - lo));
    var high, low := hi / 0x1_0000, lo;
    var m1 := Put(m, loc, 2, high);
    GetPut(m, loc, 2, high);
    GetPutOther(m1, second, 2, low, loc, 2);
    GetPut(m1, second, 2, low);
    Low2(high);
    Low2(low);
    PutByteFrame(m, loc, 2, high, second, 2, low);
  }

  lemma SignedWord(x: int)
    ensures -0x8000_0000_0000_0000 <= S64(U64(x)) < 0x8000_0000_0000_0000
    ensures U64(S64(U64(x))) == U64(x)
  {}

  /** GPRELHIGH with its GPRELLOW: accepted exactly when value - gp fits, and then the two
      patched halves add up to value - gp. */
  lemma GprelPairExact(m: Mem, l: Layout, locHigh: nat, locLow: nat, value: nat)
    requires DisjointRanges(locHigh, 2, locLow, 2)
    ensures var delta := S64(U64(value - l.gp));
            match PatchGprelHigh(m, l, locHigh, value)
            case Patched(m') =>
              FitsSplit(delta) &&
              LdahLda(Get(Put(m', locLow, 2, U64(value - l.gp)), locHigh, 2),
                      Get(Put(m', locLow, 2, U64(value - l.gp)), locLow, 2)) == delta
            case _ => !FitsSplit(delta)
  {
    hide U64, S16, S64, Put, Get, LdahLda, FitsSplit;
    var gpRel := U64(value - l.gp);
    var delta := S64(gpRel);
    var high := S64(value - l.gp + 0x8000) / 0x1_0000;
    SignedWord(value - l.gp);
    HighHalf(value - l.gp);
    if S16(high) == high {
      var m1 := Put(m, locHigh, 2, U64(high));
      GetPut(m, locHigh, 2, U64(high));
      GetPutOther(m1, locLow, 2, gpRel, locHigh, 2);
      GetPut(m1, locLow, 2, gpRel);
      Low2(U64(high));
      Low2(gpRel);
    }
  }

  lemma HighHalf(x: int)
    ensures var delta, high := S64(U64(x)), S64(x + 0x8000) / 0x1_0000;
            (S16(high) == high <==> FitsSplit(delta)) &&
            (FitsSplit(delta) ==> LdahLda(U64(high) % 0x1_0000, U64(x) % 0x1_0000) == delta)
  {
    hide U64, S16, S64, LdahLda;
    var delta, high := S64(U64(x)), S64(x + 0x8000) / 0x1_0000;
    SignedWord(x);
    var k := U64Split(x);
    var j := U64Split(delta);
    RoundedHigh(x, delta, j - k);
    if FitsSplit(delta) {
      var i := U64Split(high);
      var low := delta - 0x1_0000 * high;
      LdahLdaOf(U64(high), U64(x), high, low, i, j);
    }
  }

  lemma LdahLdaOf(hi: nat, lo: nat, high: int, low: int, i: int, j: int)
    requires -0x8000 <= high < 0x8000 && -0x8000 <= low < 0x8000
    requires high == hi + U64_MODULUS * i && 0x1_0000 * high + low == lo + U64_MODULUS * j
    ensures LdahLda(hi % 0x1_0000, lo % 0x1_0000) == 0x1_0000 * high + low
  {
    hide S16;
    Halfword(hi, high, 0x1_0000_0000_0000 * i);
    Halfword(lo, low, 0x1_0000_0000_0000 * j - high);
  }

  /** The rounded upper half of a displacement, computed from any word that stands for it. */
  lemma RoundedHigh(x: int, delta: int, q: int)
    requires x == delta - U64_MODULUS * q && -0x8000_0000_0000_0000 <= delta < 0x8000_0000_0000_0000
    ensures var high := S64(x + 0x8000) / 0x1_0000;
            (S16(high) == high <==> FitsSplit(delta)) &&
            (FitsSplit(delta) ==> -0x8000 <= high < 0x8000 && -0x8000 <= delta - 0x1_0000 * high < 0x8000)
  {
    if delta + 0x8000 < 0x8000_0000_0000_0000 {
      S64Is(x + 0x8000, delta + 0x8000, -q);
    } else {
      S64Is(x + 0x8000, delta + 0x8000 - U64_MODULUS, 1 - q);
    }
  }

  /** The branch displacement in words that a target asks for. */
  function BranchWords(loc: nat, target: nat): int {
    S64(U64(target - U64(loc + 4))) / 4
  }

  /** The address a patched branch instruction goes to. */
  function BranchTarget(loc: nat, insn: nat): nat {
    U64(loc + 4 + 4 * S21(insn))
  }

  /** BRADDR and BRSGP: accepted exactly for word-aligned displacements in [-2^21, 2^21)
      words; the opcode and register bits are kept; and the branch goes to its target
      exactly when the displacement fits the 21-bit field, [-2^20, 2^20). */
  lemma BranchExact(m: Mem, loc: nat, target: nat)
    requires loc < U64_MODULUS && target < U64_MODULUS
    ensures var words, old_ := BranchWords(loc, target), Get(m, loc, 4);
            match PatchBranch(m, loc, target)
            case Patched(m') =>
              U64(target - U64(loc + 4)) % 4 == 0 && -0x20_0000 <= words < 0x20_0000 &&
              Get(m', loc, 4) / 0x20_0000 == old_ / 0x20_0000 &&
              (BranchTarget(loc, Get(m', loc, 4)) == target <==> -0x10_0000 <= words < 0x10_0000) &&
              forall k: nat | !(loc <= k < loc + 4) :: ByteAt(m', k) == ByteAt(m, k)
            case _ => U64(target - U64(loc + 4)) % 4 != 0 || !(-0x20_0000 <= words < 0x20_0000)
  {
    hide U64, S64, S21, Put, Get, ByteAt, BranchTarget;
    var disp := U64(target - U64(loc + 4));
    SignedWord(target - U64(loc + 4));
    var words := S64(disp) / 4;
    BranchRange(words);
    if disp % 4 == 0 && -0x20_0000 <= words < 0x20_0000 {
      FieldStored(m, loc, U64(words) % 0x20_0000);
      BranchDecodes(loc, target, words, Get(m, loc, 4) / 0x20_0000 * 0x20_0000 + U64(words) % 0x20_0000);
    }
  }

  /** Storing a 21-bit field into the word at loc. */
  lemma FieldStored(m: Mem, loc: nat, field: nat)
    requires field < 0x20_0000
    ensures var insn := Get(m, loc, 4) / 0x20_0000 * 0x20_0000 + field;
            var m' := Put(m, loc, 4, insn);
            Get(m', loc, 4) == insn && insn / 0x20_0000 == Get(m, loc, 4) / 0x20_0000 &&
            insn % 0x20_0000 == field &&
            forall k: nat | !(loc <= k < loc + 4) :: ByteAt(m', k) == ByteAt(m, k)
  {
    hide Put, Get, ByteAt;
    var old_ := Get(m, loc, 4);
    GetFourBytes(m, loc);
    FieldUpdate(old_, field);
    WordStored(m, loc, old_ / 0x20_0000 * 0x20_0000 + field);
  }

  lemma WordStored(m: Mem, loc: nat, insn: nat)
    requires insn < 0x1_0000_0000
    ensures var m' := Put(m, loc, 4, insn);
            Get(m', loc, 4) == insn && forall k: nat | !(loc <= k < loc + 4) :: ByteAt(m', k) == ByteAt(m, k)
  {
    hide Put, Get, ByteAt;
    GetPut(m, loc, 4, insn);
    Low4(insn);
    forall k: nat | !(loc <= k < loc + 4)
      ensures ByteAt(Put(m, loc, 4, insn), k) == ByteAt(m, k)
    {
      PutFrame(m, loc, 4, insn, k);
    }
  }

  lemma GetFourBytes(m: Mem, loc: nat)
    ensures Get(m, loc, 4) < 0x1_0000_0000
  {
    assert Get(m, loc, 4) == ByteAt(m, loc) + 256 * Get(m, loc + 1, 3);
    assert Get(m, loc + 1, 3) == ByteAt(m, loc + 1) + 256 * Get(m, loc + 2, 2);
    assert Get(m, loc + 2, 2) == ByteAt(m, loc + 2) + 256 * Get(m, loc + 3, 1);
  }

  lemma FieldUpdate(x: nat, field: nat)
    requires field < 0x20_0000 && x < 0x1_0000_0000
    ensures var y := x / 0x20_0000 * 0x20_0000 + field;
            y < 0x1_0000_0000 && y / 0x20_0000 == x / 0x20_0000 && y % 0x20_0000 == field
  {}

  lemma BranchRange(words: int)
    requires -0x8000_0000_0000_0000 <= words < 0x8000_0000_0000_0000
    ensures U64(U64(words) + 0x20_0000) >= 0x40_0000 <==> !(-0x20_0000 <= words < 0x20_0000)
  {
    WordOf(words);
    if -0x20_0000 <= words < 0 { U64Is(U64(words) + 0x20_0000, words + 0x20_0000, 1); }
  }

  lemma BranchDecodes(loc: nat, target: nat, words: int, insn: nat)
    requires loc < U64_MODULUS && target < U64_MODULUS && -0x20_0000 <= words < 0x20_0000
    requires U64(target - U64(loc + 4)) % 4 == 0 && words == BranchWords(loc, target)
    requires insn % 0x20_0000 == U64(words) % 0x20_0000
    ensures BranchTarget(loc, insn) == target <==> -0x10_0000 <= words < 0x10_0000
  {
    hide U64, S64, S21;
    var j := U64Split(words);
    FieldReads(insn, words, j);
    var disp := U64(target - U64(loc + 4));
    SignedMultiple(disp, words);
    var a := U64Split(loc + 4);
    var b := U64Split(target - U64(loc + 4));
    var c := U64Split(4 * words);
    var f := S21(insn);
    var g := U64Split(loc + 4 + 4 * f);
    // target == loc + 4 + 4 * words modulo 2^64
    if f == words {
      U64Is(loc + 4 + 4 * f, target, a - b + c);
    } else {
      FieldOff(loc + 4, target, words, f, U64(loc + 4 + 4 * f), a - b + c - g);
    }
  }

  lemma SignedMultiple(disp: nat, words: int)
    requires disp < U64_MODULUS && disp % 4 == 0 && words == S64(disp) / 4
    ensures U64(4 * words) == disp
  {}

  lemma FieldReads(insn: nat, words: int, j: int)
    requires -0x20_0000 <= words < 0x20_0000 && words == U64(words) + U64_MODULUS * j
    requires insn % 0x20_0000 == U64(words) % 0x20_0000
    ensures -0x10_0000 <= S21(insn) < 0x10_0000
    ensures -0x10_0000 <= words < 0x10_0000 <==> S21(insn) == words
  {
    hide U64;
    SameField(U64(words), words, j);
    FieldOf(insn, words);
  }

  lemma SameField(u: nat, words: int, j: int)
    requires words == u + U64_MODULUS * j
    ensures u % 0x20_0000 == words % 0x20_0000
  {
    SameFieldBy(u, words, -0x800_0000_0000 * j);
  }

  lemma SameFieldBy(x: int, y: int, q: int)
    requires x == y + 0x20_0000 * q
    ensures x % 0x20_0000 == y % 0x20_0000
  {}

  lemma FieldOf(insn: nat, words: int)
    requires -0x20_0000 <= words < 0x20_0000 && insn % 0x20_0000 == words % 0x20_0000
    ensures -0x10_0000 <= S21(insn) < 0x10_0000
    ensures -0x10_0000 <= words < 0x10_0000 <==> S21(insn) == words
  {
    assert S21(insn) == S21(words);
  }

  lemma FieldOff(x: int, target: nat, words: int, f: int, got: nat, q: int)
    requires -0x20_0000 <= words < 0x20_0000 && -0x10_0000 <= f < 0x10_0000 && f != words
    requires got < U64_MODULUS && target < U64_MODULUS
    requires got == target + 4 * (f - words) + U64_MODULUS * q
    ensures got != target
  {}

  /** A branch 2^20 words ahead is accepted, and goes backwards. */
  lemma FarBranchWraps(m: Mem)
    ensures var target := 0x1000 + 4 + 4 * 0x10_0000;
            PatchBranch(m, 0x1000, target).Patched? &&
            BranchTarget(0x1000, Get(PatchBranch(m, 0x1000, target).mem, 0x1000, 4)) != target
  {
    hide Put, Get;
    var target := 0x1000 + 4 + 4 * 0x10_0000;
    assert BranchWords(0x1000, target) == 0x10_0000;
    BranchExact(m, 0x1000, target);
  }

  /** REFQUAD's two 32-bit stores are one 64-bit store. */
  lemma RefquadStoresQuad(m: Mem, l: Layout, symtab: seq<Symbol>, r: Rela)
    requires r.rSym < |symtab| && r.rType % 256 == R_REFQUAD
    ensures Patch(m, l, symtab, r) ==
            Patched(Put(m, U64(l.base + r.rOffset), 8, U64(symtab[r.rSym].value + r.rAddend)))
  {
    hide U64, Put;
    var value := U64(symtab[r.rSym].value + r.rAddend);
    PutSplit(m, U64(l.base + r.rOffset), 4, 4, value);
    High4(value);
  }

  /** GPREL32 and SREL32: accepted exactly when the difference is a signed 32-bit number,
      which is then what the stored word reads as. */
  lemma Signed32Exact(m: Mem, loc: nat, x: int)
    ensures var delta := S64(U64(x));
            var p := Checked(m, U64(S32(U64(x))) == U64(x), loc, 4, U64(x));
            (p.Patched? <==> -0x8000_0000 <= delta < 0x8000_0000) &&
            (p.Patched? ==> S32(Get(p.mem, loc, 4)) == delta)
  {
    hide Put, Get, U64, S32, S64;
    GetPut(m, loc, 4, U64(x));
    Low4(U64(x));
    Signed32Word(x);
  }

  lemma Signed32Word(x: int)
    ensures var u: int, delta := U64(x), S64(U64(x));
            (U64(S32(u)) == u <==> -0x8000_0000 <= delta < 0x8000_0000) &&
            (U64(S32(u)) == u ==> S32(u % 0x1_0000_0000) == delta)
  {
    hide U64, S32, S64;
    var u: int, delta := U64(x), S64(U64(x));
    SignedWord(x);
    var q := S32Split(u);
    WordOf(S32(u));
    if -0x8000_0000 <= delta < 0x8000_0000 {
      WordOf(delta);
      var k := if delta < 0 then 1 else 0;
      S32Is(u, delta, 0x1_0000_0000 * k);
      S32Is(u % 0x1_0000_0000, delta, k);
    }
  }

  /** GPREL16: accepted exactly when the difference is a signed 16-bit number, which is then
      what the stored halfword reads as. */
  lemma Signed16Exact(m: Mem, loc: nat, x: int)
    ensures var delta := S64(U64(x));
            var p := Checked(m, U64(S16(U64(x))) == U64(x), loc, 2, U64(x));
            (p.Patched? <==> -0x8000 <= delta < 0x8000) &&
            (p.Patched? ==> S16(Get(p.mem, loc, 2)) == delta)
  {
    hide Put, Get, U64, S16, S64;
    GetPut(m, loc, 2, U64(x));
    Low2(U64(x));
    Signed16Word(x);
  }

  lemma Signed16Word(x: int)
    ensures var u: int, delta := U64(x), S64(U64(x));
            (U64(S16(u)) == u <==> -0x8000 <= delta < 0x8000) &&
            (U64(S16(u)) == u ==> S16(u % 0x1_0000) == delta)
  {
    hide U64, S16, S64;
    var u: int, delta := U64(x), S64(U64(x));
    SignedWord(x);
    var q := S16Split(u);
    WordOf(S16(u));
    if -0x8000 <= delta < 0x8000 {
      WordOf(delta);
      var k := if delta < 0 then 1 else 0;
      S16Is(u, delta, 0x1_0000_0000_0000 * k);
      S16Is(u % 0x1_0000, delta, k);
    }
  }

  /** LITERAL is refused exactly when its slot is out of reach of gp. */
  lemma LiteralReach(m: Mem, l: Layout, loc: nat, slot: nat, value: nat)
    ensures PatchLiteral(m, l, loc, slot, value).Patched? <==>
            -0x8000 <= S64(U64(U64(l.got + slot) - l.gp)) < 0x8000
  {
    hide U64, S16, S64;
    Signed16Word(U64(l.got + slot) - l.gp);
  }

  lemma SignedLow(lo: nat)
    ensures S16(lo % 0x1_0000) == S16(lo)
  {
    hide S16;
    var q := S16Split(lo);
    S16Is(lo % 0x1_0000, S16(lo), q - lo / 0x1_0000);
  }

  lemma AddBack(gp: nat, hi: nat, lo: nat)
    requires lo == U64(hi - gp) && hi < U64_MODULUS && U64(S16(lo)) == lo
    ensures U64(gp + S16(lo)) == hi
  {
    hide U64, S16;
    var a := U64Split(hi - gp);
    var b := U64Split(S16(lo));
    U64Is(gp + S16(lo), hi, b - a);
  }
}
