/** Page and alignment arithmetic shared by the kernel models.  Machine words are
    unbounded naturals; a wrap-around that the code can reach is written with U64. */
module Arith {

  const PAGE_SIZE: nat := 8192
  const U64_MODULUS: nat := 0x1_0000_0000_0000_0000

  datatype Option<+T> = None | Some(value: T)

  /** The value an unsigned 64-bit register holds after computing x. */
  function U64(x: int): (r: nat)
    ensures r < U64_MODULUS
  {
    x % U64_MODULUS
  }

  lemma U64Small(x: nat)
    requires x < U64_MODULUS
    ensures U64(x) == x
  {}

  function Max(x: int, y: int): int {
    if x > y then x else y
  }

  function Pow2(k: nat): (r: nat)
    ensures r > 0
  {
    if k == 0 then 1 else 2 * Pow2(k - 1)
  }

  lemma {:induction false} Pow2Sum(i: nat, j: nat)
    ensures Pow2(i + j) == Pow2(i) * Pow2(j)
  {
    if i == 0 {
    } else {
      Pow2Sum(i - 1, j);
    }
  }

  lemma {:induction false} Pow2Grows(i: nat, j: nat)
    requires i <= j
    ensures Pow2(i) <= Pow2(j)
  {
    if i == j {
    } else {
      Pow2Grows(i, j - 1);
    }
  }

  ghost predicate IsPow2(a: nat) {
    exists k: nat :: a == Pow2(k)
  }

  /** The kernel's ALIGN(x, a), for a power of two a: the mask `& ~(a - 1)` drops the
      remainder modulo a. */
  function AlignUp(x: nat, a: nat): (r: nat)
    requires a > 0
    ensures x <= r < x + a
    ensures r % a == 0
  {
    MultipleHasNoRemainder((x + a - 1) / a, a);
    (x + a - 1) / a * a
  }

  lemma MultipleHasNoRemainder(m: nat, a: nat)
    requires a > 0
    ensures m * a % a == 0
  {
    if m == 0 {
    } else {
      MultipleHasNoRemainder(m - 1, a);
      assert m * a == (m - 1) * a + a;
      AddDivisor((m - 1) * a, a);
    }
  }

  lemma AddDivisor(x: nat, a: nat)
    requires a > 0
    ensures (x + a) % a == x % a
  {
    var q, r := x / a, x % a;
    assert x + a == (q + 1) * a + r;
    DivModUnique(x + a, a, q + 1, r);
  }

  lemma {:induction false} MulGap(i: int, j: int, a: nat)
    requires i < j
    ensures i * a + a <= j * a
    decreases j - i
  {
    assert (i + 1) * a == i * a + a;
    if i + 1 == j {
    } else {
      MulGap(i + 1, j, a);
    }
  }

  lemma DivModUnique(x: nat, a: nat, q: nat, r: nat)
    requires 0 <= r < a && x == q * a + r
    ensures x / a == q && x % a == r
  {
    var q' := x / a;
    if q < q' {
      MulGap(q, q', a);
    } else if q' < q {
      MulGap(q', q, a);
    }
  }

  /** No multiple of a lies strictly between x and AlignUp(x, a). */
  lemma AlignUpLeast(x: nat, a: nat, q: nat)
    requires a > 0 && x <= q && q % a == 0
    ensures AlignUp(x, a) <= q
  {
    var i, j := q / a, (x + a - 1) / a;
    if i < j {
      MulGap(i, j, a);
    } else if j < i {
      MulGap(j, i, a);
    }
  }

  /** `x & ~m`, bit by bit. */
  function AndNot(x: nat, m: nat): (r: nat)
    ensures x - m <= r <= x
  {
    if x == 0 then 0 else 2 * AndNot(x / 2, m / 2) + (if m % 2 == 1 then 0 else x % 2)
  }

  /** The kernel's ALIGN as it is computed from any mask, `(x + mask) & ~mask`; a mask of -1 leaves
      nothing. */
  function AlignMask(x: nat, mask: int): (r: nat)
    requires mask >= -1
    ensures mask >= 0 ==> x <= r <= x + mask
  {
    if mask < 0 then 0 else AndNot(x + mask, mask)
  }

  /** p has none of the mask's bits. */
  predicate Masked(p: nat, mask: int) {
    mask >= 0 ==> AndNot(p, mask) == p
  }

  /** The mask is one less than a power of two. */
  ghost predicate Pow2Mask(mask: int) {
    mask >= 0 && IsPow2(mask + 1)
  }

  lemma {:induction false} AndNotTwice(x: nat, m: nat)
    ensures AndNot(AndNot(x, m), m) == AndNot(x, m)
  {
    if x == 0 {
    } else {
      AndNotTwice(x / 2, m / 2);
      AndNotLast(AndNot(x / 2, m / 2), if m % 2 == 1 then 0 else x % 2, m);
    }
  }

  lemma AndNotLast(y: nat, b: nat, m: nat)
    requires b < 2 && (m % 2 == 1 ==> b == 0)
    ensures AndNot(2 * y + b, m) == 2 * AndNot(y, m / 2) + b
  {
    assert (2 * y + b) / 2 == y && (2 * y + b) % 2 == b;
  }

  lemma AlignMaskMasked(x: nat, mask: int)
    requires mask >= -1
    ensures Masked(AlignMask(x, mask), mask)
  {
    if mask >= 0 { AndNotTwice(x + mask, mask); }
  }

  lemma {:induction false} AndNotZero(x: nat)
    ensures AndNot(x, 0) == x
  {
    if x == 0 {
    } else {
      AndNotZero(x / 2);
    }
  }

  lemma {:induction false} AndNotPow2(x: nat, k: nat)
    ensures AndNot(x, Pow2(k) - 1) == x / Pow2(k) * Pow2(k)
  {
    hide AndNot;
    if k == 0 {
      AndNotZero(x);
      assert x / 1 == x;
    } else {
      var p := Pow2(k - 1);
      AndNotPow2(x / 2, k - 1);
      AndNotStep(x, p);
      HalfThenDivide(x, p);
    }
  }

  lemma AndNotStep(x: nat, p: nat)
    requires p > 0
    ensures AndNot(x, 2 * p - 1) == 2 * AndNot(x / 2, p - 1)
  {
    assert (2 * p - 1) / 2 == p - 1 && (2 * p - 1) % 2 == 1;
  }

  lemma HalfThenDivide(x: nat, p: nat)
    requires p > 0
    ensures 2 * (x / 2 / p * p) == x / (2 * p) * (2 * p)
  {
    var q, r := x / 2 / p, x / 2 % p;
    assert x / 2 == q * p + r;
    assert x == q * (2 * p) + (2 * r + x % 2);
    DivModUnique(x, 2 * p, q, 2 * r + x % 2);
  }

  /** For a mask that is one less than a power of two this is rounding up to a multiple. */
  lemma AlignMaskIsUp(x: nat, mask: int)
    requires Pow2Mask(mask)
    ensures AlignMask(x, mask) == AlignUp(x, mask + 1)
  {
    hide AndNot, Pow2;
    var k: nat :| mask + 1 == Pow2(k);
    AndNotPow2(x + mask, k);
  }

  lemma MaskedMeansMultiple(p: nat, mask: int)
    requires Pow2Mask(mask)
    ensures Masked(p, mask) <==> p % (mask + 1) == 0
  {
    hide AndNot, Pow2;
    var k: nat :| mask + 1 == Pow2(k);
    AndNotPow2(p, k);
    DivMod(p, Pow2(k));
  }

  lemma DivMod(x: nat, a: nat)
    requires a > 0
    ensures x == x / a * a + x % a
  {}

  /** A start clear of the mask's bits is where the search begins when next_entry stands there. */
  lemma {:induction false} MaskedStays(p: nat, m: nat)
    requires AndNot(p, m) == p
    ensures AndNot(p + m, m) == p
  {
    if p + m == 0 {
    } else if p == 0 {
      OwnBits(m);
    } else {
      var b, c := p % 2, m % 2;
      MaskedHalf(p, m);
      MaskedStays(p / 2, m / 2);
      assert p + m == 2 * (p / 2 + m / 2) + (b + c) && b + c <= 1;
      assert (p + m) / 2 == p / 2 + m / 2 && (p + m) % 2 == b + c;
    }
  }

  lemma {:induction false} OwnBits(m: nat)
    ensures AndNot(m, m) == 0
  {
    if m == 0 {
    } else {
      OwnBits(m / 2);
    }
  }

  lemma MaskedHalf(p: nat, m: nat)
    requires p > 0 && AndNot(p, m) == p
    ensures AndNot(p / 2, m / 2) == p / 2 && p % 2 + m % 2 <= 1
  {}

  /** Being clear of the mask's bits means being a multiple exactly for powers of two. */
  lemma MaskAligns(n: nat)
    requires n > 0
    ensures (forall p: nat | Masked(p, n - 1) :: p % n == 0) <==> IsPow2(n)
  {
    hide Masked, IsPow2;
    if IsPow2(n) {
      forall p: nat | Masked(p, n - 1)
        ensures p % n == 0
      {
        MaskedMeansMultiple(p, n - 1);
      }
    } else {
      var p := NotAligned(n);
    }
  }

  lemma {:induction false} NotAligned(n: nat) returns (p: nat)
    requires n > 0 && !IsPow2(n)
    ensures Masked(p, n - 1) && p % n != 0
  {
    hide IsPow2, AndNot;
    if n % 2 == 1 {
      p := 1;
      OneIsPow2();
      LowBitKept(n - 1);
      OneRemainder(n);
    } else {
      var m: nat := n / 2;
      assert n == 2 * m;
      TwiceIsPow2(m);
      var q := NotAligned(m);
      p := 2 * q;
      MaskedTwice(q, m);
      TwiceRemainder(q, m);
    }
  }

  lemma LowBitKept(m: nat)
    requires m % 2 == 0
    ensures AndNot(1, m) == 1
  {}

  lemma OneRemainder(n: nat)
    requires n > 1
    ensures 1 % n == 1
  {
    DivModUnique(1, n, 0, 1);
  }

  lemma MaskedTwice(q: nat, m: nat)
    requires m > 0 && AndNot(q, m - 1) == q
    ensures AndNot(2 * q, 2 * m - 1) == 2 * q
  {
    hide AndNot;
    AndNotStep(2 * q, m);
    assert 2 * q / 2 == q;
  }

  lemma OneIsPow2()
    ensures IsPow2(1)
  {
    assert Pow2(0) == 1;
  }

  lemma TwiceIsPow2(m: nat)
    ensures IsPow2(m) ==> IsPow2(2 * m)
  {
    if k: nat :| m == Pow2(k) {
      assert Pow2(k + 1) == 2 * m;
    }
  }

  lemma TwiceRemainder(q: nat, m: nat)
    requires m > 0
    ensures 2 * q % (2 * m) == 2 * (q % m)
  {
    DivMod(q, m);
    DivModUnique(2 * q, 2 * m, q / m, 2 * (q % m));
  }

  /** iommu_num_pages: the pages touched by `len` bytes starting at `addr`. */
  function NumPages(addr: nat, len: nat): nat {
    (addr % PAGE_SIZE + len + (PAGE_SIZE - 1)) / PAGE_SIZE
  }

  lemma SameOffsetSamePages(x: nat, y: nat, len: nat)
    requires x % PAGE_SIZE == y % PAGE_SIZE
    ensures NumPages(x, len) == NumPages(y, len)
  {}
}
