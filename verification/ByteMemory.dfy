/** Byte-addressed little-endian memory. */
module ByteMemory {

  type Mem = map<nat, nat>

  function ByteAt(m: Mem, a: nat): nat {
    if a in m then m[a] % 256 else 0
  }

  /** Store the low w bytes of v at a. */
  function Put(m: Mem, a: nat, w: nat, v: nat): Mem
    decreases w
  {
    if w == 0 then m else Put(m[a := v % 256], a + 1, w - 1, v / 256)
  }

  /** Load w bytes at a. */
  function Get(m: Mem, a: nat, w: nat): nat
    decreases w
  {
    if w == 0 then 0 else ByteAt(m, a) + 256 * Get(m, a + 1, w - 1)
  }

  /** The value of the low w bytes of v. */
  function Low(v: nat, w: nat): nat
    decreases w
  {
    if w == 0 then 0 else v % 256 + 256 * Low(v / 256, w - 1)
  }

  /** v without its low w bytes. */
  function High(v: nat, w: nat): nat
    decreases w
  {
    if w == 0 then v else High(v / 256, w - 1)
  }

  ghost predicate DisjointRanges(a: nat, w: nat, b: nat, x: nat) {
    a + w <= b || b + x <= a
  }

  lemma {:induction false} PutFrame(m: Mem, a: nat, w: nat, v: nat, k: nat)
    requires !(a <= k < a + w)
    ensures ByteAt(Put(m, a, w, v), k) == ByteAt(m, k)
    decreases w
  {
    if w == 0 {
    } else {
      PutFrame(m[a := v % 256], a + 1, w - 1, v / 256, k);
    }
  }

  /** A load reads back what was stored, cut to the width. */
  lemma {:induction false} GetPut(m: Mem, a: nat, w: nat, v: nat)
    ensures Get(Put(m, a, w, v), a, w) == Low(v, w)
    decreases w
  {
    if w == 0 {
    } else {
      var m' := m[a := v % 256];
      GetPut(m', a + 1, w - 1, v / 256);
      PutFrame(m', a + 1, w - 1, v / 256, a);
    }
  }

  /** A load elsewhere is not affected. */
  lemma {:induction false} GetPutOther(m: Mem, a: nat, w: nat, v: nat, b: nat, x: nat)
    requires DisjointRanges(a, w, b, x)
    ensures Get(Put(m, a, w, v), b, x) == Get(m, b, x)
    decreases x
  {
    if x == 0 {
    } else {
      PutFrame(m, a, w, v, b);
      GetPutOther(m, a, w, v, b + 1, x - 1);
    }
  }

  /** A wide store is two adjacent narrower ones. */
  lemma {:induction false} PutSplit(m: Mem, a: nat, w: nat, x: nat, v: nat)
    ensures Put(m, a, w + x, v) == Put(Put(m, a, w, v), a + w, x, High(v, w))
    decreases w
  {
    if w == 0 {
    } else {
      PutSplit(m[a := v % 256], a + 1, w - 1, x, v / 256);
    }
  }

  lemma TwoBytes(v: nat)
    ensures v % 0x1_0000 == v % 256 + 256 * (v / 256 % 256) && v / 256 / 256 == v / 0x1_0000
  {}

  lemma LowHalfword(v: nat, w: nat)
    ensures Low(v, w + 2) == v % 0x1_0000 + 0x1_0000 * Low(v / 0x1_0000, w)
  {
    assert Low(v, w + 2) == v % 256 + 256 * Low(v / 256, w + 1);
    assert Low(v / 256, w + 1) == v / 256 % 256 + 256 * Low(v / 256 / 256, w);
    TwoBytes(v);
  }

  lemma Low2(v: nat)
    ensures Low(v, 2) == v % 0x1_0000
  {
    LowHalfword(v, 0);
    assert Low(v / 0x1_0000, 0) == 0;
  }

  lemma Low4(v: nat)
    ensures Low(v, 4) == v % 0x1_0000_0000
  {
    hide Low;
    LowHalfword(v, 2);
    Low2(v / 0x1_0000);
  }

  lemma High4(v: nat)
    ensures High(v, 4) == v / 0x1_0000_0000
  {
    assert High(v, 4) == High(v / 256 / 256, 2);
    assert High(v / 256 / 256, 2) == v / 256 / 256 / 256 / 256;
  }

  lemma Low8(v: nat)
    ensures Low(v, 8) == v % 0x1_0000_0000_0000_0000
  {
    hide Low;
    LowHalfword(v, 6);
    LowHalfword(v / 0x1_0000, 4);
    Low4(v / 0x1_0000 / 0x1_0000);
  }
}
