/** arch_get_unmapped_area: a free range of user addresses among the mapped areas. */
module UnmappedArea {
  import opened Arith

  const TASK_SIZE: nat := 0x400_0000_0000
  const ENOMEM: nat := U64_MODULUS - 12  // (unsigned long) -ENOMEM

  datatype Vma = Vma(start: nat, end: nat)

  /** The address-ordered list of mapped areas. */
  ghost predicate Sorted(vmas: seq<Vma>) {
    (forall i | 0 <= i < |vmas| :: vmas[i].start < vmas[i].end < U64_MODULUS) &&
    forall i, j | 0 <= i < j < |vmas| :: vmas[i].end <= vmas[j].start
  }

  ghost predicate Clear(v: Vma, addr: nat, len: nat) {
    addr + len <= v.start || v.end <= addr
  }

  /** [addr, addr + len) lies below limit and meets no area. */
  ghost predicate Hole(vmas: seq<Vma>, addr: nat, len: nat, limit: nat) {
    addr + len <= limit && forall i | 0 <= i < |vmas| :: Clear(vmas[i], addr, len)
  }

  ghost predicate NoHole(vmas: seq<Vma>, from: nat, to: nat, len: nat, limit: nat) {
    forall a: nat | from <= a < to :: !Hole(vmas, a, len, limit)
  }

  /** The lowest hole at or above `from`, or ENOMEM if there is none. */
  ghost predicate LowestHole(vmas: seq<Vma>, from: nat, len: nat, limit: nat, r: nat) {
    if r == ENOMEM then NoHole(vmas, from, limit + 1, len, limit)
    else from <= r && Hole(vmas, r, len, limit) && NoHole(vmas, from, r, len, limit)
  }

  /** find_vma: the first area that ends above addr. */
  method FindVma(vmas: seq<Vma>, addr: nat) returns (i: nat)
    ensures i <= |vmas| && (forall k | 0 <= k < i :: vmas[k].end <= addr)
    ensures i < |vmas| ==> addr < vmas[i].end
  {
    i := 0;
    while i < |vmas| && vmas[i].end <= addr
      invariant i <= |vmas| && forall k | 0 <= k < i :: vmas[k].end <= addr
    {
      i := i + 1;
    }
  }

  method Search(vmas: seq<Vma>, from: nat, len: nat, limit: nat) returns (r: nat)
    requires Sorted(vmas) && len <= limit <= TASK_SIZE
    ensures LowestHole(vmas, from, len, limit, r) && (r == ENOMEM || r <= limit - len)
    ensures r == from || r == ENOMEM || exists i :: 0 <= i < |vmas| && r == vmas[i].end
  {
    var addr := from;
    var i := FindVma(vmas, addr);
    while true
      invariant from <= addr && i <= |vmas|
      invariant forall k | 0 <= k < i :: vmas[k].end <= addr
      invariant i < |vmas| ==> addr < vmas[i].end
      invariant NoHole(vmas, from, addr, len, limit)
      invariant addr == from || exists k :: 0 <= k < |vmas| && addr == vmas[k].end
      decreases |vmas| - i
    {
      if limit - len < addr { return ENOMEM; }
      if i == |vmas| || addr + len <= vmas[i].start { return addr; }
      forall a: nat | addr <= a < vmas[i].end
        ensures !Hole(vmas, a, len, limit)
      {
        assert !Clear(vmas[i], a, len);
      }
      addr := vmas[i].end;
      i := i + 1;
    }
  }

  /** PAGE_ALIGN on an unsigned word: the last partial page wraps to 0. */
  function PageAlign(addr: nat): nat {
    U64(addr + (PAGE_SIZE - 1)) / PAGE_SIZE * PAGE_SIZE
  }

  /** It rounds up to the least page address exactly if that address is still a 64-bit word;
      otherwise the result is 0. */
  lemma PageAlignRaises(addr: nat)
    requires addr < U64_MODULUS
    ensures PageAlign(addr) % PAGE_SIZE == 0
    ensures PageAlign(addr) >= addr <==> addr <= U64_MODULUS - PAGE_SIZE
    ensures addr <= U64_MODULUS - PAGE_SIZE ==> PageAlign(addr) < addr + PAGE_SIZE
    ensures addr > U64_MODULUS - PAGE_SIZE ==> PageAlign(addr) == 0
  {
    var x: int := addr + (PAGE_SIZE - 1);
    if addr <= U64_MODULUS - PAGE_SIZE {
      U64Small(x);
    } else {
      assert U64(x) == x - U64_MODULUS;
    }
  }

  function Limit(addr32: bool): nat {
    if addr32 then 0x8000_0000 else TASK_SIZE
  }

  function UnmappedBase(addr32: bool): nat {
    if addr32 then 0x4000_0000 else TASK_SIZE / 2
  }

  lemma FoundOne(vmas: seq<Vma>, from: nat, len: nat, limit: nat, r: nat)
    requires LowestHole(vmas, from, len, limit, r)
    ensures r == ENOMEM <==> NoHole(vmas, from, limit + 1, len, limit)
  {
    if r != ENOMEM { assert Hole(vmas, r, len, limit); }
  }

  /** arch_get_unmapped_area without MAP_FIXED: a nonzero hint aligned up, then the usual
      base, then all of memory; each search takes the lowest hole at or above its start. */
  method GetUnmappedArea(vmas: seq<Vma>, hint: nat, len: nat, addr32: bool) returns (r: nat)
    requires Sorted(vmas) && hint < U64_MODULUS
    ensures var limit := if addr32 then 0x8000_0000 else 0x400_0000_0000;
            var base := if addr32 then 0x4000_0000 else 0x200_0000_0000;
            if len > limit then r == ENOMEM
            else if hint != 0 && !NoHole(vmas, PageAlign(hint), limit + 1, len, limit) then
              r != ENOMEM && LowestHole(vmas, PageAlign(hint), len, limit, r)
            else if !NoHole(vmas, base, limit + 1, len, limit) then
              r != ENOMEM && LowestHole(vmas, base, len, limit, r)
            else LowestHole(vmas, PAGE_SIZE, len, limit, r)
    ensures r != ENOMEM ==> r + len <= if addr32 then 0x8000_0000 else 0x400_0000_0000
    ensures (forall v | v in vmas :: v.end % PAGE_SIZE == 0) && r != ENOMEM ==> r % PAGE_SIZE == 0
    ensures hint <= U64_MODULUS - PAGE_SIZE ==> r >= PAGE_SIZE
  {
    hide Hole, NoHole, Sorted;
    var limit := Limit(addr32);
    if len > limit { return ENOMEM; }
    if hint != 0 {
      PageAlignRaises(hint);
      r := Search(vmas, PageAlign(hint), len, limit);
      FoundOne(vmas, PageAlign(hint), len, limit, r);
      if r != ENOMEM { return; }
    }
    r := Search(vmas, PageAlign(UnmappedBase(addr32)), len, limit);
    FoundOne(vmas, PageAlign(UnmappedBase(addr32)), len, limit, r);
    if r != ENOMEM { return; }
    r := Search(vmas, PAGE_SIZE, len, limit);
  }

  /** A hint past the start of the last page makes the search start at 0.  Whether page 0 is then
      handed out depends on the first page only. */
  lemma WrappedHint(vmas: seq<Vma>, hint: nat, len: nat, addr32: bool, r: nat)
    requires U64_MODULUS - PAGE_SIZE < hint < U64_MODULUS
    requires LowestHole(vmas, PageAlign(hint), len, Limit(addr32), r)
    ensures PageAlign(hint) == 0
    ensures r < PAGE_SIZE <==> !NoHole(vmas, 0, PAGE_SIZE, len, Limit(addr32))
  {
    hide Hole;
    PageAlignRaises(hint);
    if a: nat :| a < PAGE_SIZE && Hole(vmas, a, len, Limit(addr32)) {
      HoleBelowLimit(vmas, a, len, Limit(addr32));
    }
  }

  lemma HoleBelowLimit(vmas: seq<Vma>, a: nat, len: nat, limit: nat)
    requires Hole(vmas, a, len, limit)
    ensures a <= limit
  {}

  /** With nothing mapped, the hint of all ones is answered with address 0, below the first
      page that any other hint can give. */
  lemma AllOnesHint(len: nat, r: nat)
    requires len <= TASK_SIZE && LowestHole([], PageAlign(U64_MODULUS - 1), len, Limit(false), r)
    ensures r == 0
  {
    PageAlignRaises(U64_MODULUS - 1);
    assert Hole([], 0, len, TASK_SIZE);
  }
}
