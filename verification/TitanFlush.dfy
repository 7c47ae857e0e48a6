/** The Titan chip's range flush: which register is written, and what that flushes. */
module TitanFlush {

  /** One write to a flush register: of everything, or of one 64 KB tag.  The hose index
      picks the chip (bit 0) and the port (bit 1). */
  datatype Flush = Flush(secondChip: bool, agpPort: bool, everything: bool, value: nat)

  /** Bits <31:16> of a bus address: two addresses agree on them exactly when
      `(start ^ end) & 0xffff0000` is zero. */
  function Tag(a: nat): nat {
    a / 0x1_0000 % 0x1_0000
  }

  /** The flush register matches its value, the shifted tag bits, against bits <31:16>. */
  predicate Drops(f: Flush, a: nat) {
    f.everything || Tag(a) * 16 == f.value
  }

  ghost predicate CoversRange(f: Flush, start: nat, end: nat) {
    forall a: nat | start <= a <= end :: Drops(f, a)
  }

  /** titan_pci_tbi.  The tag write covers the range if and only if the range is shorter
      than a tag; for addresses below 4 GB the test on the tag bits makes sure of that. */
  method PciTbi(hoseIndex: nat, start: nat, end: nat) returns (f: Flush)
    ensures f.secondChip == (hoseIndex % 2 == 1) && f.agpPort == (hoseIndex / 2 % 2 == 1)
    ensures f.everything <==> Tag(start) != Tag(end)
    ensures start <= end ==> (CoversRange(f, start, end) <==> f.everything || end - start < 0x1_0000)
    ensures end < 0x1_0000_0000 ==> CoversRange(f, start, end)
  {
    var everything := true;
    if Tag(start) == Tag(end) {
      everything := false;
    }
    f := Flush(hoseIndex % 2 == 1, hoseIndex / 2 % 2 == 1, everything, Tag(start) * 16);
    if start <= end {
      TagCovers(f, start, end);
    }
  }

  /** A range shorter than a tag meets at most the tags of its two ends. */
  lemma OneOrOther(start: nat, end: nat, a: nat)
    requires start <= a <= end < start + 0x1_0000
    ensures a / 0x1_0000 == start / 0x1_0000 || a / 0x1_0000 == end / 0x1_0000
  {}

  lemma TagCovers(f: Flush, start: nat, end: nat)
    requires start <= end && f.value == Tag(start) * 16 && (f.everything <==> Tag(start) != Tag(end))
    ensures CoversRange(f, start, end) <==> f.everything || end - start < 0x1_0000
    ensures end < 0x1_0000_0000 ==> CoversRange(f, start, end)
  {
    if end - start < 0x1_0000 {
      forall a: nat | start <= a <= end
        ensures Drops(f, a)
      {
        OneOrOther(start, end, a);
      }
    } else {
      assert (start + 0x1_0000) / 0x1_0000 == start / 0x1_0000 + 1;
      assert Drops(f, start + 0x1_0000) <==> f.everything;
    }
  }
}
