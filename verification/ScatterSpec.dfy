/** What it means for a scatter list to be grouped, and for a bus range to show a group. */
module ScatterSpec {
  import opened Arith
  import opened IommuArena
  import opened TlbCoherence
  import opened DmaMapping

  /** The part of a scatterlist element that the mapper only reads. */
  datatype Buf = Buf(paddr: nat, length: nat)

  // Marks in dma_address before mapping.
  const LEADER_PHYS := 0    // followers all physically adjacent
  const LEADER_VIRT := 1    // some followers only virtually adjacent
  const FOLLOWS_PHYS := -1
  const FOLLOWS_VIRT := -2

  ghost predicate Adjacent(b: seq<Buf>, i: nat)
    requires 0 < i < |b|
  {
    b[i - 1].paddr + b[i - 1].length == b[i].paddr
  }

  /** Both sides of the gap lie on a page boundary, so the IOMMU can close it. */
  ghost predicate PageJoin(b: seq<Buf>, i: nat)
    requires 0 < i < |b|
  {
    (b[i - 1].paddr + b[i - 1].length) % PAGE_SIZE == 0 && b[i].paddr % PAGE_SIZE == 0
  }

  /** Total length of elements i..j. */
  ghost function Total(b: seq<Buf>, i: nat, j: nat): nat
    requires j <= |b|
  {
    if j <= i then 0 else Total(b, i, j - 1) + b[j - 1].length
  }

  ghost function Bytes(paddr: nat, n: nat): (r: seq<nat>)
    ensures |r| == n && forall k | 0 <= k < n :: r[k] == paddr + k
  {
    seq(n, k requires 0 <= k < n => PhysByte(paddr, k))
  }

  ghost function PhysByte(paddr: nat, k: nat): nat {
    paddr + k
  }

  /** The physical addresses of elements i..j, byte after byte. */
  ghost function BufBytes(b: seq<Buf>, i: nat, j: nat): (r: seq<nat>)
    requires j <= |b|
    ensures |r| == Total(b, i, j)
  {
    if j <= i then [] else BufBytes(b, i, j - 1) + Bytes(b[j - 1].paddr, b[j - 1].length)
  }

  lemma {:induction false} BufBytesSplit(b: seq<Buf>, i: nat, j: nat, k: nat)
    requires i <= j <= k <= |b|
    ensures BufBytes(b, i, k) == BufBytes(b, i, j) + BufBytes(b, j, k)
  {
    hide BufBytes, Bytes;
    if j == k {
      NoBufBytes(b, j);
    } else {
      BufBytesSplit(b, i, j, k - 1);
      BufBytesLast(b, i, k);
      BufBytesLast(b, j, k);
    }
  }

  lemma NoBufBytes(b: seq<Buf>, i: nat)
    requires i <= |b|
    ensures BufBytes(b, i, i) == []
  {}

  lemma BufBytesLast(b: seq<Buf>, i: nat, j: nat)
    requires i < j <= |b|
    ensures BufBytes(b, i, j) == BufBytes(b, i, j - 1) + Bytes(b[j - 1].paddr, b[j - 1].length)
  {}

  // --- Groups --------------------------------------------------------------------

  /** The end of the followers that start at i, looking no further than hi. */
  ghost function GroupEnd(m: seq<int>, i: nat, hi: nat): (r: nat)
    requires i <= hi <= |m|
    ensures i <= r <= hi
    ensures forall k | i <= k < r :: m[k] < 0
    ensures r < hi ==> m[r] >= 0
    decreases hi - i
  {
    if i == hi || m[i] >= 0 then i else GroupEnd(m, i + 1, hi)
  }

  /** The end is the one place with followers before it and none at it. */
  lemma GroupEndIs(m: seq<int>, i: nat, hi: nat, e: nat)
    requires i <= e <= hi <= |m|
    requires forall k | i <= k < e :: m[k] < 0
    requires e < hi ==> m[e] >= 0
    ensures GroupEnd(m, i, hi) == e
  {
  }

  ghost predicate FollowerOk(b: seq<Buf>, m: seq<int>, i: nat)
    requires 0 < i < |b| == |m|
  {
    (m[i] == FOLLOWS_PHYS && Adjacent(b, i)) ||
    (m[i] == FOLLOWS_VIRT && !Adjacent(b, i) && PageJoin(b, i))
  }

  /** Whether elements i+1..e were all marked physically adjacent. */
  ghost predicate AllPhys(m: seq<int>, i: nat, e: nat)
    requires e <= |m|
  {
    forall k | i < k < e :: m[k] == FOLLOWS_PHYS
  }

  ghost predicate LeaderOk(b: seq<Buf>, m: seq<int>, d: seq<nat>, i: nat, hi: nat)
    requires i < hi <= |b| == |m| == |d|
  {
    var e := GroupEnd(m, i + 1, hi);
    (m[i] == LEADER_PHYS || m[i] == LEADER_VIRT) &&
    (m[i] == LEADER_PHYS <==> AllPhys(m, i, e)) &&
    d[i] == Total(b, i, e)
  }

  /** Elements lo..hi fall into groups: a leader carrying its group's length and kind,
      then followers each joined to the element before it. */
  ghost predicate Grouped(b: seq<Buf>, m: seq<int>, d: seq<nat>, lo: nat, hi: nat)
    requires lo <= hi <= |b| == |m| == |d|
  {
    (lo < hi ==> m[lo] >= 0) &&
    forall i | lo <= i < hi :: ElementOk(b, m, d, lo, i, hi)
  }

  ghost predicate ElementOk(b: seq<Buf>, m: seq<int>, d: seq<nat>, lo: nat, i: nat, hi: nat)
    requires lo <= i < hi <= |b| == |m| == |d|
  {
    if m[i] >= 0 then LeaderOk(b, m, d, i, hi) else i > lo && FollowerOk(b, m, i)
  }

  /** The leader of the group that element i belongs to. */
  ghost function LeaderOf(m: seq<int>, i: nat): (r: nat)
    requires i < |m|
    ensures r <= i
  {
    if m[i] >= 0 || i == 0 then i else LeaderOf(m, i - 1)
  }

  ghost predicate CanJoin(b: seq<Buf>, i: nat, virtOk: bool)
    requires 0 < i < |b|
  {
    Adjacent(b, i) || (virtOk && PageJoin(b, i))
  }

  /** The grouping is the coarsest one allowed: a follower was allowed to join and its group
      fits the segment size, a leader was not allowed to join the group before it. */
  ghost predicate Coarsest(b: seq<Buf>, m: seq<int>, lo: nat, hi: nat, virtOk: bool, maxSeg: nat)
    requires lo <= hi <= |b| == |m|
  {
    forall i | lo < i < hi :: JoinDecided(b, m, i, virtOk, maxSeg)
  }

  ghost predicate JoinDecided(b: seq<Buf>, m: seq<int>, i: nat, virtOk: bool, maxSeg: nat)
    requires 0 < i < |b| == |m|
  {
    m[i] < 0 <==> JoinsGroup(b, LeaderOf(m, i - 1), i, virtOk, maxSeg)
  }

  ghost predicate JoinsGroup(b: seq<Buf>, l: nat, k: nat, virtOk: bool, maxSeg: nat)
    requires l < k < |b|
  {
    CanJoin(b, k, virtOk) && Total(b, l, k) + b[k].length <= maxSeg
  }

  /** Groups after the first do not depend on what happens before them. */
  lemma GroupedTail(b: seq<Buf>, m: seq<int>, d: seq<nat>, lo: nat, hi: nat)
    requires lo < hi <= |b| == |m| == |d|
    requires Grouped(b, m, d, lo, hi)
    ensures Grouped(b, m, d, GroupEnd(m, lo + 1, hi), hi)
  {
    var e := GroupEnd(m, lo + 1, hi);
    forall i | e <= i < hi
      ensures ElementOk(b, m, d, e, i, hi)
    {
      assert ElementOk(b, m, d, lo, i, hi);
    }
  }

  /** Marks and lengths outside lo..hi do not matter. */
  lemma GroupedFrame(b: seq<Buf>, m: seq<int>, d: seq<nat>, m': seq<int>, d': seq<nat>, lo: nat, hi: nat)
    requires lo <= hi <= |b| == |m| == |d| == |m'| == |d'|
    requires Grouped(b, m, d, lo, hi)
    requires forall i | lo <= i < hi :: m[i] == m'[i] && d[i] == d'[i]
    ensures Grouped(b, m', d', lo, hi)
  {
    forall i | lo <= i < hi
      ensures ElementOk(b, m', d', lo, i, hi)
    {
      assert ElementOk(b, m, d, lo, i, hi);
      if m[i] >= 0 {
        GroupEndIs(m', i + 1, hi, GroupEnd(m, i + 1, hi));
      }
    }
  }

  /** What sg_classify knows about the open group [l, i): its followers were allowed to
      join it, and its leader was not allowed to join the group before. */
  ghost predicate OpenGroup(b: seq<Buf>, m: seq<int>, lo: nat, l: nat, i: nat, virtOk: bool, maxSeg: nat)
    requires lo <= l < i <= |b| == |m|
  {
    && (forall k | l < k < i :: FollowerOk(b, m, k) && JoinsGroup(b, l, k, virtOk, maxSeg))
    && (l > lo ==> !JoinsGroup(b, LeaderOf(m, l - 1), l, virtOk, maxSeg))
  }

  /** Closing the open group [l, i): what sg_classify does when it starts a new segment. */
  lemma CloseGroup(b: seq<Buf>, m: seq<int>, d: seq<nat>, m': seq<int>, d': seq<nat>,
                   lo: nat, l: nat, i: nat, virtOk: bool, maxSeg: nat)
    requires lo <= l < i <= |b| == |m| == |d| == |m'| == |d'|
    requires Grouped(b, m, d, lo, l)
    requires forall k | lo <= k < i && k != l :: m'[k] == m[k] && d'[k] == d[k]
    requires OpenGroup(b, m, lo, l, i, virtOk, maxSeg)
    requires m'[l] == if AllPhys(m, l, i) then LEADER_PHYS else LEADER_VIRT
    requires d'[l] == Total(b, l, i)
    ensures Grouped(b, m', d', lo, i)
  {
    hide OpenGroup, FollowerOk, LeaderOk;
    forall k | l < k < i
      ensures FollowerOk(b, m', k) && m'[k] < 0
    {
      OpenFollower(b, m, m', lo, l, i, k, virtOk, maxSeg);
    }
    forall k | lo <= k < i
      ensures ElementOk(b, m', d', lo, k, i)
    {
      if k < l {
        assert ElementOk(b, m, d, lo, k, l);
        ElementExtends(b, m, d, m', d', lo, k, l, i);
      } else if k == l {
        ClosedLeaderOk(b, m, m', d', l, i);
      }
    }
  }

  lemma OpenFollower(b: seq<Buf>, m: seq<int>, m': seq<int>, lo: nat, l: nat, i: nat, k: nat,
                     virtOk: bool, maxSeg: nat)
    requires lo <= l < k < i <= |b| == |m| == |m'| && m'[k] == m[k]
    requires OpenGroup(b, m, lo, l, i, virtOk, maxSeg)
    ensures FollowerOk(b, m', k) && m'[k] < 0
  {
    assert FollowerOk(b, m, k);
  }

  lemma ElementExtends(b: seq<Buf>, m: seq<int>, d: seq<nat>, m': seq<int>, d': seq<nat>,
                       lo: nat, k: nat, l: nat, i: nat)
    requires lo <= k < l < i <= |b| == |m| == |d| == |m'| == |d'|
    requires ElementOk(b, m, d, lo, k, l) && m'[l] >= 0
    requires forall j | lo <= j < l :: m'[j] == m[j] && d'[j] == d[j]
    ensures ElementOk(b, m', d', lo, k, i)
  {
    if m[k] >= 0 {
      GroupEndIs(m', k + 1, i, GroupEnd(m, k + 1, l));
    }
  }

  lemma ClosedLeaderOk(b: seq<Buf>, m: seq<int>, m': seq<int>, d': seq<nat>, l: nat, i: nat)
    requires l < i <= |b| == |m| == |m'| == |d'|
    requires forall k | l < k < i :: m'[k] == m[k] && m'[k] < 0
    requires m'[l] == if AllPhys(m, l, i) then LEADER_PHYS else LEADER_VIRT
    requires d'[l] == Total(b, l, i)
    ensures LeaderOk(b, m', d', l, i)
  {
    GroupEndIs(m', l + 1, i, i);
  }

  lemma {:induction false} LeaderOfSame(m: seq<int>, m': seq<int>, i: nat)
    requires i < |m| == |m'|
    requires forall k | 0 <= k <= i :: m[k] == m'[k]
    ensures LeaderOf(m, i) == LeaderOf(m', i)
  {
    if m[i] >= 0 || i == 0 {
    } else {
      LeaderOfSame(m, m', i - 1);
    }
  }

  lemma {:induction false} LeaderIs(m: seq<int>, l: nat, i: nat)
    requires l <= i < |m|
    requires m[l] >= 0 && forall k | l < k <= i :: m[k] < 0
    ensures LeaderOf(m, i) == l
  {
    if l == i {
    } else {
      LeaderIs(m, l, i - 1);
    }
  }

  lemma CloseGroupCoarsest(b: seq<Buf>, m: seq<int>, m': seq<int>, lo: nat, l: nat, i: nat,
                           virtOk: bool, maxSeg: nat)
    requires lo <= l < i <= |b| == |m| == |m'|
    requires Coarsest(b, m, lo, l, virtOk, maxSeg) && OpenGroup(b, m, lo, l, i, virtOk, maxSeg)
    requires m'[l] >= 0 && forall k | 0 <= k < i && k != l :: m'[k] == m[k]
    ensures Coarsest(b, m', lo, i, virtOk, maxSeg)
  {
    hide JoinsGroup;
    forall k | lo < k < i
      ensures JoinDecided(b, m', k, virtOk, maxSeg)
    {
      if k < l {
        LeaderOfSame(m, m', k - 1);
        assert JoinDecided(b, m, k, virtOk, maxSeg);
      } else if k == l {
        LeaderOfSame(m, m', l - 1);
      } else {
        FollowersAreMarked(b, m, m', l, i);
        LeaderIs(m', l, k - 1);
        assert FollowerOk(b, m, k);
      }
    }
  }

  lemma FollowersAreMarked(b: seq<Buf>, m: seq<int>, m': seq<int>, l: nat, i: nat)
    requires l < i <= |b| == |m| == |m'|
    requires forall k | l < k < i :: FollowerOk(b, m, k) && m'[k] == m[k]
    ensures forall k | l < k < i :: m'[k] < 0
  {
    forall k | l < k < i
      ensures m'[k] < 0
    {
      assert FollowerOk(b, m, k);
    }
  }

  /** Marking element i as a follower of the open group. */
  lemma AddFollower(b: seq<Buf>, m: seq<int>, d: seq<nat>, m': seq<int>, lo: nat, l: nat, i: nat,
                    virtOk: bool, maxSeg: nat)
    requires lo <= l < i < |b| == |m| == |d| == |m'|
    requires Grouped(b, m, d, lo, l) && Coarsest(b, m, lo, l, virtOk, maxSeg)
    requires OpenGroup(b, m, lo, l, i, virtOk, maxSeg)
    requires m' == m[i := m'[i]] && FollowerOk(b, m', i) && JoinsGroup(b, l, i, virtOk, maxSeg)
    ensures Grouped(b, m', d, lo, l) && Coarsest(b, m', lo, l, virtOk, maxSeg)
    ensures OpenGroup(b, m', lo, l, i + 1, virtOk, maxSeg)
    ensures AllPhys(m', l, i + 1) <==> AllPhys(m, l, i) && m'[i] == FOLLOWS_PHYS
  {
    hide JoinsGroup, CanJoin;
    GroupedFrame(b, m, d, m', d, lo, l);
    forall k | lo < k < l
      ensures JoinDecided(b, m', k, virtOk, maxSeg)
    {
      LeaderOfSame(m, m', k - 1);
      assert JoinDecided(b, m, k, virtOk, maxSeg);
    }
    forall k | l < k < i + 1
      ensures FollowerOk(b, m', k) && JoinsGroup(b, l, k, virtOk, maxSeg)
    {
      if k < i { assert FollowerOk(b, m, k); }
    }
    if l > lo { LeaderOfSame(m, m', l - 1); }
    assert forall k | l < k < i + 1 :: m'[k] == if k == i then m'[i] else m[k];
    assert AllPhys(m', l, i + 1) ==> forall k | l < k < i :: m[k] == m'[k] == FOLLOWS_PHYS;
    assert AllPhys(m', l, i + 1) ==> m'[i] == FOLLOWS_PHYS;
  }

  /** Closing the open group because element i may not join it, and opening one at i. */
  lemma StartGroup(b: seq<Buf>, m: seq<int>, d: seq<nat>, m': seq<int>, d': seq<nat>,
                   lo: nat, l: nat, i: nat, virtOk: bool, maxSeg: nat)
    requires lo <= l < i < |b| == |m| == |d| == |m'| == |d'|
    requires Coarsest(b, m, lo, l, virtOk, maxSeg) && OpenGroup(b, m, lo, l, i, virtOk, maxSeg)
    requires m' == m[l := m'[l]] && m'[l] >= 0 && !JoinsGroup(b, l, i, virtOk, maxSeg)
    ensures Coarsest(b, m', lo, i, virtOk, maxSeg)
    ensures OpenGroup(b, m', lo, i, i + 1, virtOk, maxSeg) && AllPhys(m', i, i + 1)
  {
    hide JoinsGroup, CanJoin;
    CloseGroupCoarsest(b, m, m', lo, l, i, virtOk, maxSeg);
    FollowersAreMarked(b, m, m', l, i);
    LeaderIs(m', l, i - 1);
  }

  lemma FirstGroup(b: seq<Buf>, m: seq<int>, d: seq<nat>, lo: nat, virtOk: bool, maxSeg: nat)
    requires lo < |b| == |m| == |d|
    ensures Grouped(b, m, d, lo, lo) && Coarsest(b, m, lo, lo, virtOk, maxSeg)
    ensures OpenGroup(b, m, lo, lo, lo + 1, virtOk, maxSeg) && AllPhys(m, lo, lo + 1)
    ensures Total(b, lo, lo + 1) == b[lo].length
  {}

  /** The branches of sg_classify decide exactly whether element i may join the group. */
  lemma JoinTest(b: seq<Buf>, m: seq<int>, l: nat, i: nat, virtOk: bool, maxSeg: nat)
    requires l < i < |b| == |m|
    ensures var next, addr := b[i - 1].paddr + b[i - 1].length, b[i].paddr;
            if Total(b, l, i) + b[i].length <= maxSeg && next == addr then
              FollowerOk(b, m[i := FOLLOWS_PHYS], i) && JoinsGroup(b, l, i, virtOk, maxSeg)
            else if Total(b, l, i) + b[i].length <= maxSeg &&
                    next % PAGE_SIZE == 0 && addr % PAGE_SIZE == 0 && virtOk then
              FollowerOk(b, m[i := FOLLOWS_VIRT], i) && JoinsGroup(b, l, i, virtOk, maxSeg)
            else !JoinsGroup(b, l, i, virtOk, maxSeg)
  {}

  /** Without virtual joins every group is one physically contiguous run. */
  lemma NoVirtualJoins(b: seq<Buf>, m: seq<int>, d: seq<nat>, lo: nat, hi: nat, maxSeg: nat)
    requires lo <= hi <= |b| == |m| == |d|
    requires Grouped(b, m, d, lo, hi) && Coarsest(b, m, lo, hi, false, maxSeg)
    ensures forall i | lo <= i < hi :: m[i] != FOLLOWS_VIRT && m[i] != LEADER_VIRT
    ensures lo < hi ==> m[lo] == LEADER_PHYS
  {
    forall i | lo < i < hi
      ensures m[i] != FOLLOWS_VIRT
    {
      assert ElementOk(b, m, d, lo, i, hi) && JoinDecided(b, m, i, false, maxSeg);
    }
    forall i | lo <= i < hi && m[i] >= 0
      ensures m[i] == LEADER_PHYS
    {
      assert ElementOk(b, m, d, lo, i, hi);
      var e := GroupEnd(m, i + 1, hi);
      forall k | i < k < e
        ensures m[k] == FOLLOWS_PHYS
      {
        assert ElementOk(b, m, d, lo, k, hi);
      }
    }
  }

  // --- Which groups ------------------------------------------------------------------

  /** Elements l..e follow each other in physical memory. */
  ghost predicate Contiguous(b: seq<Buf>, l: nat, e: nat)
    requires e <= |b|
  {
    forall k | l < k < e :: Adjacent(b, k)
  }

  /** Elements l..e are a group as large as can be: each was allowed to join, and the one behind
      it is not. */
  ghost predicate MaximalGroup(b: seq<Buf>, l: nat, e: nat, virtOk: bool, maxSeg: nat)
    requires l < e <= |b|
  {
    (forall k | l < k < e :: JoinsGroup(b, l, k, virtOk, maxSeg)) &&
    (e < |b| ==> !JoinsGroup(b, l, e, virtOk, maxSeg))
  }

  /** Such a group is one element or within the segment size. */
  lemma MaximalWithinSegment(b: seq<Buf>, l: nat, e: nat, virtOk: bool, maxSeg: nat)
    requires l < e <= |b| && MaximalGroup(b, l, e, virtOk, maxSeg)
    ensures e == l + 1 || Total(b, l, e) <= maxSeg
  {
    if e > l + 1 { assert JoinsGroup(b, l, e - 1, virtOk, maxSeg); }
  }

  /** And the element behind it would not have fitted, or nothing joins the two. */
  lemma MaximalStops(b: seq<Buf>, l: nat, e: nat, virtOk: bool, maxSeg: nat)
    requires l < e < |b| && MaximalGroup(b, l, e, virtOk, maxSeg) && Total(b, l, e) + b[e].length <= maxSeg
    ensures var end := b[e - 1].paddr + b[e - 1].length;
            end != b[e].paddr && !(virtOk && end % 8192 == 0 && b[e].paddr % 8192 == 0)
  {
    assert !JoinsGroup(b, l, e, virtOk, maxSeg);
  }

  /** Its end is determined by its start. */
  lemma MaximalUnique(b: seq<Buf>, l: nat, e: nat, e': nat, virtOk: bool, maxSeg: nat)
    requires l < e <= |b| && MaximalGroup(b, l, e, virtOk, maxSeg)
    requires l < e' <= |b| && MaximalGroup(b, l, e', virtOk, maxSeg)
    ensures e == e'
  {
    hide JoinsGroup;
  }

  lemma PhysMeansContiguous(b: seq<Buf>, m: seq<int>, l: nat, e: nat)
    requires l < e <= |b| == |m| && forall k | l < k < e :: FollowerOk(b, m, k)
    ensures AllPhys(m, l, e) <==> Contiguous(b, l, e)
  {
    hide Adjacent, PageJoin;
    forall k | l < k < e
      ensures m[k] == FOLLOWS_PHYS <==> Adjacent(b, k)
    {
      assert FollowerOk(b, m, k);
    }
  }

  lemma {:induction false} LeaderOfWithin(m: seq<int>, m': seq<int>, lo: nat, i: nat)
    requires lo <= i < |m| == |m'| && m[lo] >= 0 && forall k | lo <= k <= i :: m[k] == m'[k]
    ensures LeaderOf(m, i) == LeaderOf(m', i)
  {
    if m[i] >= 0 || i == 0 {
    } else {
      LeaderOfWithin(m, m', lo, i - 1);
    }
  }

  lemma CoarsestFrame(b: seq<Buf>, m: seq<int>, m': seq<int>, lo: nat, hi: nat, virtOk: bool, maxSeg: nat)
    requires lo <= hi <= |b| == |m| == |m'| && Coarsest(b, m, lo, hi, virtOk, maxSeg) && (lo < hi ==> m[lo] >= 0)
    requires forall k | lo <= k < hi :: m'[k] == m[k]
    ensures Coarsest(b, m', lo, hi, virtOk, maxSeg)
  {
    hide JoinsGroup;
    forall i | lo < i < hi
      ensures JoinDecided(b, m', i, virtOk, maxSeg)
    {
      LeaderOfWithin(m, m', lo, i - 1);
      assert JoinDecided(b, m, i, virtOk, maxSeg);
    }
  }

  /** The first group of a coarsest grouping is maximal, and the rest is coarsest again. */
  lemma FirstGroupMaximal(b: seq<Buf>, m: seq<int>, l: nat, e: nat, virtOk: bool, maxSeg: nat)
    requires l < |b| == |m| && m[l] >= 0 && e == GroupEnd(m, l + 1, |b|) && Coarsest(b, m, l, |b|, virtOk, maxSeg)
    ensures MaximalGroup(b, l, e, virtOk, maxSeg) && Coarsest(b, m, e, |b|, virtOk, maxSeg)
  {
    hide JoinsGroup;
    forall k | l < k <= e && k < |b|
      ensures JoinsGroup(b, l, k, virtOk, maxSeg) <==> k < e
    {
      LeaderIs(m, l, k - 1);
      assert JoinDecided(b, m, k, virtOk, maxSeg);
    }
  }

  // --- Writing a group into the table ----------------------------------------------

  ghost predicate BacksAt(ptes: seq<nat>, ofs: nat, off: nat, bytes: seq<nat>, k: nat)
    requires k < |bytes|
  {
    var j := ofs + (off + k) / PAGE_SIZE;
    j < |ptes| && PteValid(ptes[j]) && PtePage(ptes[j]) + (off + k) % PAGE_SIZE == bytes[k]
  }

  /** Entries from ofs on put the given bytes, in order, at page offset off and up. */
  ghost predicate Backs(ptes: seq<nat>, ofs: nat, off: nat, bytes: seq<nat>) {
    forall k: nat | k < |bytes| :: BacksAt(ptes, ofs, off, bytes, k)
  }

  /** The entries ofs..p are valid, the others as they were. */
  ghost predicate Wrote(was: seq<nat>, ptes: seq<nat>, ofs: nat, p: nat) {
    |ptes| == |was| &&
    forall k: nat | k < |ptes| :: WroteAt(was, ptes, ofs, p, k)
  }

  ghost predicate WroteAt(was: seq<nat>, ptes: seq<nat>, ofs: nat, p: nat, k: nat)
    requires k < |ptes| == |was|
  {
    if ofs <= k < p then PteValid(ptes[k]) else ptes[k] == was[k]
  }

  /** Where the writer stands before the run at element g: everything before it fills whole
      pages, unless nothing was written yet. */
  ghost predicate AtRun(b: seq<Buf>, l: nat, g: nat, ofs: nat, p: nat)
    requires l <= g < |b|
  {
    ofs <= p &&
    b[l].paddr % PAGE_SIZE + Total(b, l, g) == (p - ofs) * PAGE_SIZE + b[g].paddr % PAGE_SIZE &&
    (g > l ==> b[g].paddr % PAGE_SIZE == 0)
  }

  /** Elements g..h are one physically contiguous run of `size` bytes. */
  ghost predicate OneRun(b: seq<Buf>, g: nat, h: nat, size: nat)
    requires g < h <= |b|
  {
    size == Total(b, g, h) && BufBytes(b, g, h) == Bytes(b[g].paddr, size) &&
    b[h - 1].paddr + b[h - 1].length == b[g].paddr + size
  }

  lemma FirstOfRun(b: seq<Buf>, g: nat)
    requires g < |b|
    ensures OneRun(b, g, g + 1, b[g].length)
  {
    assert BufBytes(b, g, g) == [];
  }

  lemma RunGrows(b: seq<Buf>, g: nat, h: nat, size: nat)
    requires g < h < |b| && OneRun(b, g, h, size) && Adjacent(b, h)
    ensures OneRun(b, g, h + 1, size + b[h].length)
  {
    var more := Bytes(b[h].paddr, b[h].length);
    assert Bytes(b[g].paddr, size) + more == Bytes(b[g].paddr, size + b[h].length);
  }

  lemma {:induction false} TotalSplit(b: seq<Buf>, i: nat, j: nat, k: nat)
    requires i <= j <= k <= |b|
    ensures Total(b, i, k) == Total(b, i, j) + Total(b, j, k)
  {
    if j == k {
    } else {
      TotalSplit(b, i, j, k - 1);
    }
  }

  /** The page counts of the runs add up: after the run [g, h) the writer has used exactly
      the pages that the bytes up to h need, and stands ready for the next run. */
  lemma PagesAddUp(b: seq<Buf>, l: nat, g: nat, h: nat, ofs: nat, p: nat, size: nat)
    requires l <= g < h <= |b| && AtRun(b, l, g, ofs, p) && OneRun(b, g, h, size)
    ensures p + NumPages(b[g].paddr, size) == ofs + NumPages(b[l].paddr, Total(b, l, h))
    ensures h < |b| && PageJoin(b, h) ==> AtRun(b, l, h, ofs, p + NumPages(b[g].paddr, size))
  {
    TotalSplit(b, l, g, h);
    RunArithmetic(b[l].paddr % PAGE_SIZE + Total(b, l, h), p - ofs, b[g].paddr, size);
  }

  lemma RunArithmetic(x: nat, w: nat, paddr: nat, size: nat)
    requires x == w * PAGE_SIZE + paddr % PAGE_SIZE + size
    ensures w + NumPages(paddr, size) == (x + (PAGE_SIZE - 1)) / PAGE_SIZE
    ensures (paddr + size) % PAGE_SIZE == 0 ==> x == (w + NumPages(paddr, size)) * PAGE_SIZE
  {}

  /** Never more pages than were allocated for the whole group. */
  lemma PagesWithinGroup(b: seq<Buf>, l: nat, h: nat, e: nat)
    requires l < h <= e <= |b|
    ensures NumPages(b[l].paddr, Total(b, l, h)) <= NumPages(b[l].paddr, Total(b, l, e))
  {
    TotalSplit(b, l, h, e);
  }

  /** Writing one run's entries extends what the table backs by that run's bytes. */
  lemma BackRun(t: seq<nat>, t': seq<nat>, ofs: nat, w: nat, off: nat, bytes: seq<nat>, paddr: nat, size: nat)
    requires off + |bytes| == w * PAGE_SIZE + paddr % PAGE_SIZE
    requires |bytes| == 0 || paddr % PAGE_SIZE == 0
    requires Backs(t, ofs, off, bytes)
    requires ofs + w + NumPages(paddr, size) <= |t|
    requires t' == Fill(t, ofs + w, NumPages(paddr, size), paddr)
    ensures Backs(t', ofs, off, bytes + Bytes(paddr, size))
  {
    var all := bytes + Bytes(paddr, size);
    forall k: nat | k < |all|
      ensures BacksAt(t', ofs, off, all, k)
    {
      if k < |bytes| {
        assert BacksAt(t, ofs, off, bytes, k);
        EarlierPage(w, off, k);
      } else {
        BackByte(t, t', ofs, w, off, |bytes|, paddr, size, k - |bytes|);
      }
    }
  }

  lemma EarlierPage(w: nat, off: nat, k: nat)
    requires off + k < w * PAGE_SIZE
    ensures (off + k) / PAGE_SIZE < w
  {}

  lemma BackByte(t: seq<nat>, t': seq<nat>, ofs: nat, w: nat, off: nat, done: nat, paddr: nat, size: nat, k: nat)
    requires off + done == w * PAGE_SIZE + paddr % PAGE_SIZE && k < size
    requires ofs + w + NumPages(paddr, size) <= |t|
    requires t' == Fill(t, ofs + w, NumPages(paddr, size), paddr)
    ensures var x := off + (done + k);
            ofs + x / PAGE_SIZE < |t'| && PteValid(t'[ofs + x / PAGE_SIZE]) &&
            PtePage(t'[ofs + x / PAGE_SIZE]) + x % PAGE_SIZE == paddr + k
  {
    hide NumPages, MkPte, PtePage, PteValid;
    var r := paddr % PAGE_SIZE;
    PageOfByte(0, w, r, k, size);
    SameOffsetSamePages(r, paddr, size);
    FrameNamed(paddr, (r + k) / PAGE_SIZE);
  }

  lemma WroteMore(was: seq<nat>, t: seq<nat>, t': seq<nat>, ofs: nat, p: nat, n: nat, paddr: nat)
    requires Wrote(was, t, ofs, p) && ofs <= p && t' == Fill(t, p, n, paddr)
    ensures Wrote(was, t', ofs, p + n)
  {
    hide MkPte, Frame, PteValid;
    var q := p + n;
    forall k: nat | k < |t'|
      ensures WroteAt(was, t', ofs, q, k)
    {
      assert WroteAt(was, t, ofs, p, k);
      if p <= k < p + n { FrameNamed(paddr, k - p); }
    }
  }

  // --- What the device reads through one entry --------------------------------------

  ghost function Known(bytes: seq<nat>): (r: seq<Option<nat>>)
    ensures |r| == |bytes| && forall k | 0 <= k < |r| :: r[k] == Some(bytes[k])
  {
    seq(|bytes|, k requires 0 <= k < |bytes| => Some(bytes[k]))
  }

  /** What the device reaches at len bus addresses from addr on. */
  ghost function Seen(v: BusView, addr: nat, len: nat): (r: seq<Option<nat>>)
    ensures |r| == len && forall k | 0 <= k < len :: r[k] == Translate(v, addr + k)
  {
    seq(len, k requires 0 <= k < len => Translate(v, addr + k))
  }

  /** An unmap passes over addresses in the DAC range and in the direct window. */
  predicate Skipped(plat: Platform, addr: nat) {
    addr > 0xffff_ffff || InDirectWindow(plat, addr)
  }

  /** A range that an unmap passes over stays clear of the tables to its end. */
  ghost predicate SkippedThroughout(plat: Platform, addr: nat, len: nat) {
    Skipped(plat, addr) ==> forall k: nat | k < len :: SkippedAt(plat, addr, k)
  }

  predicate SkippedAt(plat: Platform, addr: nat, k: nat) {
    Skipped(plat, addr + k)
  }

  /** The table changed by exactly the entries of one bus range: they were free and are
      valid now.  A skipped range has none. */
  ghost predicate TableChange(plat: Platform, base: nat, was: seq<nat>, now: seq<nat>, seg: Segment) {
    if Skipped(plat, seg.addr) then now == was
    else
      base <= seg.addr && |now| == |was| && FirstPte(base, seg) + PteCount(seg) <= |now| &&
      forall k: nat | k < |now| :: EntryChange(base, was, now, seg, k)
  }

  ghost predicate EntryChange(base: nat, was: seq<nat>, now: seq<nat>, seg: Segment, k: nat)
    requires base <= seg.addr && k < |now| == |was|
  {
    if Holds(BlockOf(base, seg), k) then was[k] == 0 && PteValid(now[k]) else now[k] == was[k]
  }

  lemma ReachesSeen(v: BusView, bus: nat, paddr: nat, size: nat)
    requires Reaches(v, bus, paddr, size)
    ensures Seen(v, bus, size) == Known(Bytes(paddr, size))
  {
    forall k: nat | k < size
      ensures Seen(v, bus, size)[k] == Known(Bytes(paddr, size))[k]
    {
      assert ReachesAt(v, bus, paddr, k);
    }
  }

  lemma BackedSeen(v: BusView, maxDma: nat, ofs: nat, off: nat, bytes: seq<nat>)
    requires Apart(v) && off < PAGE_SIZE
    requires Backs(ServingWindow(v, maxDma).ptes, ofs, off, bytes)
    ensures Seen(v, ServingWindow(v, maxDma).base + ofs * PAGE_SIZE + off, |bytes|) == Known(bytes)
  {
    hide Translate, Lookup, ApartExtents;
    AlignedWindow(v, maxDma);
    var w := ServingWindow(v, maxDma);
    var bus := w.base + ofs * PAGE_SIZE + off;
    forall k: nat | k < |bytes|
      ensures Seen(v, bus, |bytes|)[k] == Known(bytes)[k]
    {
      assert BacksAt(w.ptes, ofs, off, bytes, k);
      ByteInWindow(w, ofs, off + k);
      WindowTranslates(v, maxDma, bus + k);
      assert bus + k == w.base + ofs * PAGE_SIZE + (off + k);
    }
  }

  lemma ByteInWindow(w: Window, ofs: nat, x: nat)
    requires w.base % PAGE_SIZE == 0 && ofs + x / PAGE_SIZE < |w.ptes|
    requires PteValid(w.ptes[ofs + x / PAGE_SIZE])
    ensures var bus := w.base + ofs * PAGE_SIZE + x;
            Within(w, bus) &&
            Lookup(w, bus) == Some(PtePage(w.ptes[ofs + x / PAGE_SIZE]) + x % PAGE_SIZE)
  {
    hide PteValid, PtePage;
    IndexInWindow(w.base / PAGE_SIZE, ofs, x);
  }

  lemma IndexInWindow(b: nat, ofs: nat, x: nat)
    ensures var bus := b * PAGE_SIZE + ofs * PAGE_SIZE + x;
            (bus - b * PAGE_SIZE) / PAGE_SIZE == ofs + x / PAGE_SIZE && bus % PAGE_SIZE == x % PAGE_SIZE
  {}

  /** A group whose followers are all physically adjacent is one run. */
  lemma {:induction false} PhysGroupIsRun(b: seq<Buf>, m: seq<int>, l: nat, e: nat)
    requires l < e <= |b| == |m| && AllPhys(m, l, e)
    requires forall k | l < k < e :: FollowerOk(b, m, k)
    ensures OneRun(b, l, e, Total(b, l, e))
  {
    hide Adjacent, PageJoin, OneRun;
    if e == l + 1 {
      FirstOfRun(b, l);
      FirstTotal(b, l);
    } else {
      PhysGroupIsRun(b, m, l, e - 1);
      assert FollowerOk(b, m, e - 1);
      RunGrows(b, l, e - 1, Total(b, l, e - 1));
    }
  }

  lemma FirstTotal(b: seq<Buf>, l: nat)
    requires l < |b|
    ensures Total(b, l, l + 1) == b[l].length
  {}

  /** What a successful placement of one group amounts to. */
  ghost predicate Placed(v: BusView, maxDma: nat, was: seq<nat>, addr: int, len: nat, bytes: seq<nat>) {
    addr >= 0 && len == |bytes| && Seen(v, addr, len) == Known(bytes) && SkippedThroughout(v.plat, addr, len) &&
    TableChange(v.plat, ServingWindow(v, maxDma).base, was, ServingWindow(v, maxDma).ptes, Segment(addr, len))
  }

  lemma DirectPlaced(v: BusView, maxDma: nat, mask: nat, paddr: nat, size: nat)
    requires DirectOk(v.plat, paddr, size, mask) && size > 0
    ensures Placed(v, maxDma, ServingWindow(v, maxDma).ptes, paddr + v.plat.directBase, size, Bytes(paddr, size))
  {
    DirectReaches(v, paddr, size, mask);
    ReachesSeen(v, paddr + v.plat.directBase, paddr, size);
    assert InDirectWindow(v.plat, paddr + v.plat.directBase);
  }

  lemma DacPlaced(v: BusView, maxDma: nat, paddr: nat, size: nat)
    requires Apart(v) && v.plat.dacOffset != 0
    ensures Placed(v, maxDma, ServingWindow(v, maxDma).ptes, paddr + v.plat.dacOffset, size, Bytes(paddr, size))
  {
    DacReaches(v, paddr, size);
    ReachesSeen(v, paddr + v.plat.dacOffset, paddr, size);
    assert Skipped(v.plat, paddr + v.plat.dacOffset);
  }

  /** A group written at entry ofs, where the table was free. */
  lemma IommuPlaced(v: BusView, maxDma: nat, was: seq<nat>, marked: seq<nat>, ofs: nat, paddr: nat, bytes: seq<nat>)
    requires Apart(v) && |bytes| > 0
    requires var w, n := ServingWindow(v, maxDma), NumPages(paddr, |bytes|);
             AllFree(was, ofs, n) && marked == MarkRange(was, ofs, n, INVALID_PTE) &&
             Wrote(marked, w.ptes, ofs, ofs + n) && Backs(w.ptes, ofs, paddr % PAGE_SIZE, bytes)
    ensures Placed(v, maxDma, was, ServingWindow(v, maxDma).base + ofs * PAGE_SIZE + paddr % PAGE_SIZE,
                   |bytes|, bytes)
  {
    hide Backs, Wrote, NumPages, ApartExtents, PteValid, Skipped;
    var w, n, off := ServingWindow(v, maxDma), NumPages(paddr, |bytes|), paddr % PAGE_SIZE;
    var addr := w.base + ofs * PAGE_SIZE + off;
    BackedSeen(v, maxDma, ofs, off, bytes);
    if n == 0 { NoPagesNoBytes(paddr, |bytes|); }
    assert IsFree(was, ofs + n - 1);
    WroteWithin(marked, w.ptes, ofs, ofs + n);
    RangeNamesBlock(v, maxDma, ofs, paddr, |bytes|);
    forall k: nat | k < |w.ptes|
      ensures EntryChange(w.base, was, w.ptes, Segment(addr, |bytes|), k)
    {
      WroteAtEntry(marked, w.ptes, ofs, ofs + n, k);
      assert ofs <= k < ofs + n ==> IsFree(was, k);
    }
  }

  lemma WroteWithin(was: seq<nat>, ptes: seq<nat>, ofs: nat, p: nat)
    requires Wrote(was, ptes, ofs, p)
    ensures |ptes| == |was|
  {}

  lemma WroteAtEntry(was: seq<nat>, ptes: seq<nat>, ofs: nat, p: nat, k: nat)
    requires Wrote(was, ptes, ofs, p) && k < |ptes|
    ensures |ptes| == |was| && WroteAt(was, ptes, ofs, p, k)
  {}

  /** The bus range of entries ofs.. is not one an unmap passes over, and names them. */
  lemma RangeNamesBlock(v: BusView, maxDma: nat, ofs: nat, paddr: nat, len: nat)
    requires Apart(v) && len > 0 && ofs + NumPages(paddr, len) <= |ServingWindow(v, maxDma).ptes|
    ensures var w := ServingWindow(v, maxDma);
            var g := Segment(w.base + ofs * PAGE_SIZE + paddr % PAGE_SIZE, len);
            !Skipped(v.plat, g.addr) && w.base <= g.addr && FirstPte(w.base, g) == ofs &&
            PteCount(g) == NumPages(paddr, len)
  {
    var w := ServingWindow(v, maxDma);
    IndexInWindow(w.base / PAGE_SIZE, ofs, paddr % PAGE_SIZE);
    SameOffsetSamePages(w.base + ofs * PAGE_SIZE + paddr % PAGE_SIZE, paddr, len);
  }

  // --- The whole list --------------------------------------------------------------

  /** What the device reads through the first o entries, one after the other. */
  ghost function DeviceBytes(v: BusView, m: seq<int>, d: seq<nat>, o: nat): (r: seq<Option<nat>>)
    requires o <= |m| == |d|
  {
    if o == 0 then [] else DeviceBytes(v, m, d, o - 1) + Seen(v, BusAddress(m[o - 1]), d[o - 1])
  }

  /** A dma_address field read as the unsigned word it is. */
  function BusAddress(x: int): nat {
    if x < 0 then U64(x) else x
  }

  /** The IOMMU ranges among the first o entries. */
  ghost function SegsOf(plat: Platform, m: seq<int>, d: seq<nat>, o: nat): (r: seq<Segment>)
    requires o <= |m| == |d|
  {
    if o == 0 then []
    else if Skipped(plat, BusAddress(m[o - 1])) then SegsOf(plat, m, d, o - 1)
    else SegsOf(plat, m, d, o - 1) + [Segment(BusAddress(m[o - 1]), d[o - 1])]
  }

  /** Where an unmap of n entries stops: at the first zero length. */
  ghost function StopAt(d: seq<nat>, i: nat, n: nat): (r: nat)
    requires i <= n <= |d|
    ensures i <= r <= n && (r < n ==> d[r] == 0)
    ensures forall k | i <= k < r :: d[k] > 0
    decreases n - i
  {
    if i == n || d[i] == 0 then i else StopAt(d, i + 1, n)
  }

  ghost function SumLengths(d: seq<nat>, o: nat): nat
    requires o <= |d|
  {
    if o == 0 then 0 else SumLengths(d, o - 1) + d[o - 1]
  }

  /** The lengths handed to the device add up to the number of bytes it reads. */
  lemma {:induction false} LengthsAddUp(v: BusView, m: seq<int>, d: seq<nat>, o: nat)
    requires o <= |m| == |d|
    ensures |DeviceBytes(v, m, d, o)| == SumLengths(d, o)
  {
    if o == 0 {
    } else {
      LengthsAddUp(v, m, d, o - 1);
    }
  }

  lemma {:induction false} EntriesFrame(plat: Platform, v: BusView, m: seq<int>, d: seq<nat>,
                                        m': seq<int>, d': seq<nat>, o: nat)
    requires o <= |m| == |d| && o <= |m'| == |d'|
    requires forall k | 0 <= k < o :: m[k] == m'[k] && d[k] == d'[k]
    ensures SegsOf(plat, m, d, o) == SegsOf(plat, m', d', o)
    ensures DeviceBytes(v, m, d, o) == DeviceBytes(v, m', d', o)
  {
    if o == 0 {
    } else {
      EntriesFrame(plat, v, m, d, m', d', o - 1);
    }
  }

  /** v' translates at least what v does: tables only gained entries. */
  ghost predicate Extends(v: BusView, v': BusView) {
    v.plat == v'.plat && v.pci.Some? == v'.pci.Some? && WindowExtends(v.isa, v'.isa) &&
    (v.pci.Some? ==> WindowExtends(v.pci.value, v'.pci.value))
  }

  ghost predicate WindowExtends(w: Window, w': Window) {
    w.base == w'.base && |w.ptes| == |w'.ptes| &&
    forall k | 0 <= k < |w.ptes| :: w.ptes[k] == 0 || w'.ptes[k] == w.ptes[k]
  }

  lemma TranslateStable(v: BusView, v': BusView, bus: nat)
    requires Extends(v, v') && Translate(v, bus).Some?
    ensures Translate(v', bus) == Translate(v, bus)
  {}

  /** Mappings made later do not disturb what the device reads through earlier ones. */
  lemma {:induction false} DeviceBytesStable(v: BusView, v': BusView, m: seq<int>, d: seq<nat>, o: nat)
    requires o <= |m| == |d| && Extends(v, v') && None !in DeviceBytes(v, m, d, o)
    ensures DeviceBytes(v', m, d, o) == DeviceBytes(v, m, d, o)
  {
    hide Extends, Translate;
    if o == 0 {
    } else {
      var addr, len, rest := BusAddress(m[o - 1]), d[o - 1], DeviceBytes(v, m, d, o - 1);
      assert forall x | x in rest :: x in DeviceBytes(v, m, d, o);
      DeviceBytesStable(v, v', m, d, o - 1);
      forall k: nat | k < len
        ensures Seen(v', addr, len)[k] == Seen(v, addr, len)[k]
      {
        assert Seen(v, addr, len)[k] == DeviceBytes(v, m, d, o)[|rest| + k];
        TranslateStable(v, v', addr + k);
      }
    }
  }

  lemma KnownSplit(x: seq<nat>, y: seq<nat>)
    ensures Known(x + y) == Known(x) + Known(y) && None !in Known(x)
  {}

  /** The table differs from `was` by exactly the entries of the segments. */
  ghost predicate TableIs(base: nat, was: seq<nat>, now: seq<nat>, segs: seq<Segment>) {
    |now| == |was| && SegsInside(base, segs, |now|) &&
    forall k: nat | k < |now| :: EntryIs(base, was, now, segs, k)
  }

  ghost predicate SegsInside(base: nat, segs: seq<Segment>, n: nat) {
    forall g | g in segs :: base <= g.addr && FirstPte(base, g) + PteCount(g) <= n
  }

  ghost predicate EntryIs(base: nat, was: seq<nat>, now: seq<nat>, segs: seq<Segment>, k: nat)
    requires k < |now| == |was| && SegsInside(base, segs, |now|)
  {
    if Owned(BlocksOf(base, segs), k) then was[k] == 0 && PteValid(now[k]) else now[k] == was[k]
  }

  lemma TableIsStart(base: nat, was: seq<nat>)
    ensures TableIs(base, was, was, [])
  {}

  lemma TableIsGrows(base: nat, was: seq<nat>, mid: seq<nat>, now: seq<nat>, segs: seq<Segment>, g: Segment)
    requires TableIs(base, was, mid, segs)
    requires base <= g.addr && |now| == |mid| && FirstPte(base, g) + PteCount(g) <= |now|
    requires forall k: nat | k < |now| :: EntryChange(base, mid, now, g, k)
    ensures TableIs(base, was, now, segs + [g])
  {
    hide NumPages;
    assert BlocksOf(base, segs + [g]) == BlocksOf(base, segs) + {BlockOf(base, g)};
    forall k: nat | k < |now|
      ensures EntryIs(base, was, now, segs + [g], k)
    {
      assert EntryIs(base, was, mid, segs, k) && EntryChange(base, mid, now, g, k);
      OwnedUnion(BlocksOf(base, segs), BlockOf(base, g), k);
    }
  }

  /** Freeing every segment takes the table back to what it was. */
  lemma FreeAllRestores(base: nat, was: seq<nat>, now: seq<nat>, segs: seq<Segment>)
    requires TableIs(base, was, now, segs)
    ensures FreeAll(now, base, segs) == was
  {
    hide FreeAll, BlocksOf, Owned;
    forall k: nat | k < |was|
      ensures FreeAll(now, base, segs)[k] == was[k]
    {
      FreeAllZeroes(now, base, segs, k);
      assert EntryIs(base, was, now, segs, k);
    }
  }
}
