/** Sizing a module's GOT: one pass over the relocations hands out a slot per
    (symbol, addend) pair and packs it into the relocation's type word. */
module GotNumbering {
  import opened Arith
  import opened Relocation

  /** A got_entry; the offset is a C int, kept as its 32-bit pattern. */
  datatype GotEntry = GotEntry(addend: int, offset: nat)

  datatype Key = Key(sym: nat, addend: int)

  function KeyOf(r: Rela): Key {
    Key(r.rSym, r.rAddend)
  }

  function Int32(x: nat): nat {
    x % 0x1_0000_0000
  }

  /** `r_info |= got_offset << 8` for a relocation whose type word is R_LITERAL alone: the
      shift is done on a 32-bit int, and a negative result floods the symbol word. */
  function Packed(r: Rela, slot: nat): Rela {
    if r.rType != R_LITERAL then r
    else
      var v := Int32(slot * 256);
      Rela(r.rOffset, if v >= 0x8000_0000 then 0xffff_ffff else r.rSym, r.rType + v, r.rAddend)
  }

  /** Unpacking gives back symbol, type and slot exactly while the slot is below 2^23. */
  lemma PackRoundTrip(r: Rela, slot: nat)
    requires r.rType == R_LITERAL && r.rSym < 0xffff_ffff
    ensures var p := Packed(r, slot);
            (p.rSym == r.rSym && p.rType % 256 == R_LITERAL && p.rType / 256 == slot) <==> slot < 0x80_0000
  {
    if slot < 0x100_0000 {
      assert Int32(slot * 256) == slot * 256;
    } else {
      assert Int32(slot * 256) / 256 < 0x100_0000;
    }
  }

  // --- What the pass computes ---------------------------------------------------------

  /** The offset now recorded for each pair, the GOT size, and each relocation's slot. */
  datatype Numbering = Numbering(table: map<Key, nat>, size: nat, slots: seq<nat>)

  /** The recorded offset; a pair never seen reads like one recorded at 0. */
  function Recorded(table: map<Key, nat>, k: Key): nat {
    if k in table then table[k] else 0
  }

  function NumberOne(n: Numbering, r: Rela): Numbering {
    if r.rType != R_LITERAL then n.(slots := n.slots + [0])
    else if Recorded(n.table, KeyOf(r)) == 0 then
      Numbering(n.table[KeyOf(r) := Int32(n.size)], n.size + 8, n.slots + [Int32(n.size)])
    else n.(slots := n.slots + [n.table[KeyOf(r)]])
  }

  function NumberAll(relas: seq<Rela>): (n: Numbering)
    ensures |n.slots| == |relas|
  {
    if relas == [] then Numbering(map[], 0, [])
    else NumberOne(NumberAll(relas[..|relas| - 1]), relas[|relas| - 1])
  }

  // --- The code's data structure -------------------------------------------------------

  /** The first entry of a chain with this addend. */
  function ChainOffset(chain: seq<GotEntry>, addend: int): nat {
    if chain == [] then 0
    else if chain[0].addend == addend then chain[0].offset
    else ChainOffset(chain[1..], addend)
  }

  /** The chains record what the table does; each has at least its head. */
  ghost predicate Records(chains: seq<seq<GotEntry>>, table: map<Key, nat>) {
    (forall s | 0 <= s < |chains| :: chains[s] != []) &&
    forall s: nat, a | s < |chains| :: ChainOffset(chains[s], a) == Recorded(table, Key(s, a))
  }

  lemma {:induction false} LookupUpdated(chain: seq<GotEntry>, j: nat, o: nat, a: int)
    requires j < |chain| && forall i | 0 <= i < j :: chain[i].addend != chain[j].addend
    ensures ChainOffset(chain[j := GotEntry(chain[j].addend, o)], a) ==
            if a == chain[j].addend then o else ChainOffset(chain, a)
  {
    var c := chain[j := GotEntry(chain[j].addend, o)];
    if j == 0 {
    } else {
      assert c[1..] == chain[1..][j - 1 := GotEntry(chain[j].addend, o)];
      LookupUpdated(chain[1..], j - 1, o, a);
    }
  }

  lemma {:induction false} LookupFirst(chain: seq<GotEntry>, j: nat)
    requires j < |chain| && forall i | 0 <= i < j :: chain[i].addend != chain[j].addend
    ensures ChainOffset(chain, chain[j].addend) == chain[j].offset
  {
    if j == 0 {
    } else {
      LookupFirst(chain[1..], j - 1);
    }
  }

  lemma {:induction false} LookupMissing(chain: seq<GotEntry>, a: int)
    requires forall i | 0 <= i < |chain| :: chain[i].addend != a
    ensures ChainOffset(chain, a) == 0
  {
    if chain == [] {
    } else {
      LookupMissing(chain[1..], a);
    }
  }

  lemma LookupInserted(chain: seq<GotEntry>, g: GotEntry, a: int)
    requires chain != [] && forall i | 0 <= i < |chain| :: chain[i].addend != g.addend
    ensures ChainOffset([chain[0], g] + chain[1..], a) == if a == g.addend then g.offset else ChainOffset(chain, a)
  {
    var c := [chain[0], g] + chain[1..];
    assert c[1..] == [g] + chain[1..];
    assert c[1..][1..] == chain[1..];
  }

  /** process_reloc_for_got */
  method ProcessReloc(relas: array<Rela>, i: nat, chains: array<seq<GotEntry>>, offset: nat, ghost n: Numbering)
    returns (offset': nat)
    requires i < relas.Length && (relas[i].rType == R_LITERAL ==> relas[i].rSym < chains.Length)
    requires Records(chains[..], n.table) && n.size == offset && |n.slots| == i
    modifies relas, chains
    ensures var n' := NumberOne(n, old(relas[i]));
            Records(chains[..], n'.table) && n'.size == offset' &&
            relas[..] == old(relas[..])[i := Packed(old(relas[i]), n'.slots[i])]
  {
    offset' := offset;
    if relas[i].rType != R_LITERAL {
      assert relas[..] == old(relas[..])[i := relas[i]];
      return;
    }
    var sym, addend := relas[i].rSym, relas[i].rAddend;
    ghost var was := chains[..];
    var chain, j := chains[sym], 0;
    while j < |chain| && chain[j].addend != addend
      invariant j <= |chain|
      invariant forall k | 0 <= k < j :: chain[k].addend != addend
    {
      j := j + 1;
    }
    assert was[sym] == chain;
    var slot;
    if j < |chain| {
      LookupFirst(chain, j);
      slot := chain[j].offset;
      if slot == 0 {
        slot := Int32(offset);
        chains[sym] := chain[j := GotEntry(addend, slot)];
        offset' := offset + 8;
        forall a ensures ChainOffset(chains[sym], a) == if a == addend then slot else ChainOffset(chain, a) {
          LookupUpdated(chain, j, slot, a);
        }
        RecordsSet(was, chains[..], n.table, sym, addend, slot);
      }
    } else {
      LookupMissing(chain, addend);
      slot := Int32(offset);
      chains[sym] := [chain[0], GotEntry(addend, slot)] + chain[1..];
      offset' := offset + 8;
      forall a ensures ChainOffset(chains[sym], a) == if a == addend then slot else ChainOffset(chain, a) {
        LookupInserted(chain, GotEntry(addend, slot), a);
      }
      RecordsSet(was, chains[..], n.table, sym, addend, slot);
    }
    relas[i] := Packed(relas[i], slot);
  }

  lemma RecordsSet(c: seq<seq<GotEntry>>, c': seq<seq<GotEntry>>, table: map<Key, nat>, s: nat, a: int, o: nat)
    requires Records(c, table) && s < |c| == |c'| && c' == c[s := c'[s]] && c'[s] != []
    requires forall x :: ChainOffset(c'[s], x) == if x == a then o else ChainOffset(c[s], x)
    ensures Records(c', table[Key(s, a) := o])
  {}

  /** PackedAll is what the relocation tables hold after the pass. */
  ghost predicate PackedAll(relas: seq<Rela>, out: seq<Rela>, slots: seq<nat>) {
    |out| == |relas| == |slots| && forall i | 0 <= i < |relas| :: out[i] == Packed(relas[i], slots[i])
  }

  /** The numbering loop of module_frob_arch_sections, over the RELA tables laid end to end;
      the result is the GOT section's size. */
  method NumberGot(relas: array<Rela>, nsyms: nat) returns (size: nat)
    requires forall i | 0 <= i < relas.Length :: relas[i].rType == R_LITERAL ==> relas[i].rSym < nsyms
    modifies relas
    ensures var n := NumberAll(old(relas[..]));
            size == n.size && PackedAll(old(relas[..]), relas[..], n.slots)
  {
    hide Records, Packed;
    var chains := new seq<GotEntry>[nsyms](_ => [GotEntry(0, 0)]);
    size := 0;
    ghost var was := relas[..];
    ghost var n := NumberAll(was[..0]);
    EmptyChains(chains[..]);
    for i := 0 to relas.Length
      invariant n == NumberAll(was[..i]) && size == n.size
      invariant chains.Length == nsyms && Records(chains[..], n.table)
      invariant forall k | i <= k < relas.Length :: relas[k] == was[k]
      invariant forall k | 0 <= k < i :: relas[k] == Packed(was[k], n.slots[k])
    {
      assert was[..i + 1][..i] == was[..i];
      ghost var slots := n.slots;
      size := ProcessReloc(relas, i, chains, size, n);
      n := NumberOne(n, was[i]);
      assert n.slots[..i] == slots;
    }
    assert was[..relas.Length] == was;
  }

  lemma EmptyChains(chains: seq<seq<GotEntry>>)
    requires forall s | 0 <= s < |chains| :: chains[s] == [GotEntry(0, 0)]
    ensures Records(chains, map[])
  {}

  // --- What the numbering guarantees ---------------------------------------------------

  predicate IsLiteral(relas: seq<Rela>, i: nat)
    requires i < |relas|
  {
    relas[i].rType == R_LITERAL
  }

  /** The first LITERAL relocation: the one that is handed slot 0. */
  ghost function First(relas: seq<Rela>): (f: nat)
    ensures f <= |relas|
    ensures f < |relas| ==> IsLiteral(relas, f)
    ensures forall i | 0 <= i < f :: !IsLiteral(relas, i)
  {
    FirstFrom(relas, 0)
  }

  ghost function FirstFrom(relas: seq<Rela>, i: nat): (f: nat)
    requires i <= |relas|
    ensures i <= f <= |relas|
    ensures f < |relas| ==> IsLiteral(relas, f)
    ensures forall k | i <= k < f :: !IsLiteral(relas, k)
    decreases |relas| - i
  {
    if i == |relas| || IsLiteral(relas, i) then i else FirstFrom(relas, i + 1)
  }

  /** The distinct pairs that need a slot. */
  ghost function Keys(relas: seq<Rela>): set<Key> {
    set i | 0 <= i < |relas| && IsLiteral(relas, i) :: KeyOf(relas[i])
  }

  ghost function Key0(relas: seq<Rela>): Key
    requires First(relas) < |relas|
  {
    KeyOf(relas[First(relas)])
  }

  /** Whether the pair of the first LITERAL relocation comes again. */
  ghost predicate FirstRepeats(relas: seq<Rela>) {
    exists i :: First(relas) < i < |relas| && IsLiteral(relas, i) && KeyOf(relas[i]) == Key0(relas)
  }

  ghost predicate SlotOk(relas: seq<Rela>, n: Numbering, i: nat)
    requires i < |relas| == |n.slots|
  {
    if i == First(relas) then n.slots[i] == 0
    else n.slots[i] != 0 && KeyOf(relas[i]) in n.table && n.table[KeyOf(relas[i])] == n.slots[i]
  }

  ghost predicate OffsetOk(relas: seq<Rela>, n: Numbering, k: Key)
    requires k in n.table
  {
    n.table[k] % 8 == 0 && n.table[k] < n.size &&
    (n.table[k] == 0 ==> First(relas) < |relas| && k == Key0(relas) && !FirstRepeats(relas))
  }

  ghost predicate Injective(table: map<Key, nat>) {
    forall k, l | k in table && l in table && table[k] == table[l] :: k == l
  }

  ghost predicate NumberingOk(relas: seq<Rela>, n: Numbering)
    requires |n.slots| == |relas|
  {
    && n.table.Keys == Keys(relas)
    && (forall i | 0 <= i < |relas| && IsLiteral(relas, i) :: SlotOk(relas, n, i))
    && (forall k | k in n.table :: OffsetOk(relas, n, k))
    && (First(relas) < |relas| ==>
          Key0(relas) in n.table && (n.table[Key0(relas)] == 0 <==> !FirstRepeats(relas)))
    && Injective(n.table)
    && n.size % 8 == 0
    && n.size == 8 * (|n.table| + if FirstRepeats(relas) then 1 else 0)
  }

  lemma FirstOfPrefix(relas: seq<Rela>, r: Rela)
    ensures First(relas + [r]) == if First(relas) < |relas| || r.rType == R_LITERAL then First(relas) else |relas| + 1
    ensures Keys(relas + [r]) == Keys(relas) + if r.rType == R_LITERAL then {KeyOf(r)} else {}
    ensures FirstRepeats(relas + [r]) <==>
            FirstRepeats(relas) ||
            (First(relas) < |relas| && r.rType == R_LITERAL && KeyOf(r) == Key0(relas))
  {
    var all, f := relas + [r], First(relas);
    assert all[..|relas|] == relas;
    assert forall i | 0 <= i < |relas| :: IsLiteral(all, i) == IsLiteral(relas, i);
    assert IsLiteral(all, |relas|) == (r.rType == R_LITERAL);
    if f < |relas| {
      assert all[f] == relas[f];
      if FirstRepeats(relas) {
        var i :| f < i < |relas| && IsLiteral(relas, i) && KeyOf(relas[i]) == KeyOf(relas[f]);
        assert IsLiteral(all, i) && KeyOf(all[i]) == KeyOf(all[f]);
      }
      if FirstRepeats(all) {
        var i :| f < i < |all| && IsLiteral(all, i) && KeyOf(all[i]) == KeyOf(all[f]);
        assert i < |relas| ==> IsLiteral(relas, i) && KeyOf(relas[i]) == KeyOf(relas[f]);
      }
    }
    KeysOfPrefix(relas, r);
  }

  lemma KeysOfPrefix(relas: seq<Rela>, r: Rela)
    ensures Keys(relas + [r]) == Keys(relas) + if r.rType == R_LITERAL then {KeyOf(r)} else {}
  {
    var all := relas + [r];
    assert forall i | 0 <= i < |relas| :: IsLiteral(all, i) == IsLiteral(relas, i) && all[i] == relas[i];
    assert IsLiteral(all, |relas|) == (r.rType == R_LITERAL) && all[|relas|] == r;
    forall k | k in Keys(relas)
      ensures k in Keys(all)
    {
      var i :| 0 <= i < |relas| && IsLiteral(relas, i) && KeyOf(relas[i]) == k;
      assert IsLiteral(all, i) && KeyOf(all[i]) == k;
    }
  }

  /** A relocation that is not a LITERAL, or whose pair already has a nonzero slot. */
  lemma KeepsNumbering(relas: seq<Rela>, n: Numbering, r: Rela, slot: nat)
    requires |n.slots| == |relas| && NumberingOk(relas, n)
    requires r.rType == R_LITERAL ==>
               KeyOf(r) in n.table && slot == n.table[KeyOf(r)] && slot != 0
    ensures NumberingOk(relas + [r], n.(slots := n.slots + [slot]))
  {
    hide Keys, FirstRepeats, Injective, First;
    var all, n' := relas + [r], n.(slots := n.slots + [slot]);
    FirstOfPrefix(relas, r);
    if r.rType == R_LITERAL { KeyIsSeen(relas, n, KeyOf(r)); }
    forall i | 0 <= i < |all| && IsLiteral(all, i)
      ensures SlotOk(all, n', i)
    {
      if i < |relas| { assert IsLiteral(relas, i) && SlotOk(relas, n, i); }
    }
    forall k | k in n'.table
      ensures OffsetOk(all, n', k)
    {
      assert OffsetOk(relas, n, k);
    }
  }

  /** A pair in the table was asked for, so there is a first LITERAL. */
  lemma KeyIsSeen(relas: seq<Rela>, n: Numbering, k: Key)
    requires |n.slots| == |relas| && NumberingOk(relas, n) && k in n.table
    ensures First(relas) < |relas|
  {
    assert k in Keys(relas);
    var i :| 0 <= i < |relas| && IsLiteral(relas, i) && KeyOf(relas[i]) == k;
  }

  function Added(n: Numbering, key: Key): Numbering {
    Numbering(n.table[key := n.size], n.size + 8, n.slots + [n.size])
  }

  /** A LITERAL whose pair is new, or is the first pair asking for the second time. */
  lemma AddsSlot(relas: seq<Rela>, n: Numbering, r: Rela)
    requires |n.slots| == |relas| && NumberingOk(relas, n)
    requires r.rType == R_LITERAL && Recorded(n.table, KeyOf(r)) == 0
    ensures NumberingOk(relas + [r], Added(n, KeyOf(r)))
  {
    hide Keys, First, FirstRepeats, SlotOk, OffsetOk, Injective, IsLiteral;
    var key := KeyOf(r);
    FirstOfPrefix(relas, r);
    NoneSeen(relas, n);
    AddedSlots(relas, n, r);
    AddedOffsets(relas, n, r);
    AddedFirst(relas, n, r);
    StaysInjective(relas, n, key);
    assert n.table[key := n.size].Keys == n.table.Keys + {key};
    assert |n.table[key := n.size].Keys| == |n.table.Keys| + if key in n.table then 0 else 1;
    assert |n.table| == |n.table.Keys| && |n.table[key := n.size]| == |n.table[key := n.size].Keys|;
    FirstAgain(relas, n, r);
  }

  /** A pair recorded at 0 is the first pair, coming for the second time. */
  lemma FirstAgain(relas: seq<Rela>, n: Numbering, r: Rela)
    requires |n.slots| == |relas| && NumberingOk(relas, n)
    requires r.rType == R_LITERAL && Recorded(n.table, KeyOf(r)) == 0
    ensures KeyOf(r) in n.table ==> First(relas) < |relas| && KeyOf(r) == Key0(relas) && !FirstRepeats(relas)
    ensures KeyOf(r) !in n.table ==> !(First(relas) < |relas| && KeyOf(r) == Key0(relas))
  {
    hide Keys, FirstRepeats, First;
    if KeyOf(r) in n.table { assert OffsetOk(relas, n, KeyOf(r)); }
  }

  lemma AddedSlots(relas: seq<Rela>, n: Numbering, r: Rela)
    requires |n.slots| == |relas| && NumberingOk(relas, n)
    requires r.rType == R_LITERAL && Recorded(n.table, KeyOf(r)) == 0
    ensures forall i | 0 <= i < |relas| + 1 && IsLiteral(relas + [r], i) ::
              SlotOk(relas + [r], Added(n, KeyOf(r)), i)
  {
    hide Keys, FirstRepeats, First, Injective, OffsetOk;
    FirstOfPrefix(relas, r);
    NoneSeen(relas, n);
    forall i | 0 <= i < |relas| + 1 && IsLiteral(relas + [r], i)
      ensures SlotOk(relas + [r], Added(n, KeyOf(r)), i)
    {
      if i < |relas| { assert IsLiteral(relas, i) && SlotOk(relas, n, i); }
    }
  }

  lemma AddedOffsets(relas: seq<Rela>, n: Numbering, r: Rela)
    requires |n.slots| == |relas| && NumberingOk(relas, n)
    requires r.rType == R_LITERAL && Recorded(n.table, KeyOf(r)) == 0
    ensures forall k | k in Added(n, KeyOf(r)).table :: OffsetOk(relas + [r], Added(n, KeyOf(r)), k)
  {
    hide Keys, FirstRepeats, First, Injective, SlotOk;
    FirstOfPrefix(relas, r);
    NoneSeen(relas, n);
    forall k | k in Added(n, KeyOf(r)).table
      ensures OffsetOk(relas + [r], Added(n, KeyOf(r)), k)
    {
      if k != KeyOf(r) { assert OffsetOk(relas, n, k); }
    }
  }

  lemma AddedFirst(relas: seq<Rela>, n: Numbering, r: Rela)
    requires |n.slots| == |relas| && NumberingOk(relas, n)
    requires r.rType == R_LITERAL && Recorded(n.table, KeyOf(r)) == 0
    ensures var all, n' := relas + [r], Added(n, KeyOf(r));
            First(all) < |all| ==> Key0(all) in n'.table && (n'.table[Key0(all)] == 0 <==> !FirstRepeats(all))
  {
    hide Keys, FirstRepeats, First, Injective, SlotOk, OffsetOk;
    FirstOfPrefix(relas, r);
    NoneSeen(relas, n);
  }

  lemma NoneSeen(relas: seq<Rela>, n: Numbering)
    requires |n.slots| == |relas| && NumberingOk(relas, n)
    ensures First(relas) == |relas| ==> n.table == map[] && n.size == 0
    ensures First(relas) < |relas| ==> n.size > 0
  {
    if First(relas) == |relas| {
      if k :| k in n.table { KeyIsSeen(relas, n, k); }
    } else {
      assert |n.table.Keys| > 0;
    }
  }

  lemma StaysInjective(relas: seq<Rela>, n: Numbering, key: Key)
    requires |n.slots| == |relas| && NumberingOk(relas, n)
    ensures Injective(n.table[key := n.size])
  {
    hide Keys, FirstRepeats;
    forall k | k in n.table
      ensures n.table[k] < n.size
    {
      assert OffsetOk(relas, n, k);
    }
  }

  lemma {:induction false} NumberAllOk(relas: seq<Rela>)
    requires NumberAll(relas).size <= 0x1_0000_0000
    ensures NumberingOk(relas, NumberAll(relas))
  {
    hide NumberingOk, Recorded;
    if relas == [] {
      EmptyNumberingOk();
    } else {
      var pre, r := relas[..|relas| - 1], relas[|relas| - 1];
      var n := NumberAll(pre);
      assert pre + [r] == relas;
      NumberAllOk(pre);
      if r.rType == R_LITERAL && Recorded(n.table, KeyOf(r)) == 0 {
        AddsSlot(pre, n, r);
      } else {
        RecordedIn(n.table, KeyOf(r));
        KeepsNumbering(pre, n, r, if r.rType == R_LITERAL then n.table[KeyOf(r)] else 0);
      }
    }
  }

  lemma RecordedIn(table: map<Key, nat>, k: Key)
    ensures Recorded(table, k) != 0 ==> k in table && table[k] == Recorded(table, k)
  {}

  lemma EmptyNumberingOk()
    ensures NumberingOk([], Numbering(map[], 0, []))
  {
    assert Keys([]) == {};
  }

  /** The slots handed out: multiples of 8 inside the GOT; 0 for the first LITERAL and for no
      other; and among the others, equal exactly for equal pairs. */
  lemma SlotsSeparatePairs(relas: seq<Rela>, i: nat, j: nat)
    requires NumberAll(relas).size <= 0x1_0000_0000
    requires i < |relas| && IsLiteral(relas, i) && j < |relas| && IsLiteral(relas, j)
    ensures var n := NumberAll(relas);
            n.slots[i] % 8 == 0 && n.slots[i] < n.size &&
            (n.slots[i] == 0 <==> i == First(relas)) &&
            (i != First(relas) && j != First(relas) ==>
               (KeyOf(relas[i]) == KeyOf(relas[j]) <==> n.slots[i] == n.slots[j]))
  {
    hide NumberAll, Keys, FirstRepeats, First;
    var n := NumberAll(relas);
    NumberAllOk(relas);
    assert SlotOk(relas, n, i) && SlotOk(relas, n, j);
    NoneSeen(relas, n);
    if i != First(relas) { assert OffsetOk(relas, n, KeyOf(relas[i])); }
  }

  /** The GOT holds one slot per distinct pair, and one more exactly when the pair numbered
      first is asked for again. */
  lemma GotSize(relas: seq<Rela>)
    requires NumberAll(relas).size <= 0x1_0000_0000
    ensures NumberAll(relas).size == 8 * (|Keys(relas)| + if FirstRepeats(relas) then 1 else 0)
  {
    hide NumberAll, Keys, FirstRepeats, First;
    NumberAllOk(relas);
    assert |NumberAll(relas).table| == |NumberAll(relas).table.Keys|;
  }
}
