/** I/O copies that use the widest access they can: each does what the same copy would do a
    byte (or a 16-bit word) at a time. */
module WideIo {

  newtype byte = x: int | 0 <= x < 256

  /** The little-endian number of a run of bytes, and the low bytes of a number. */
  function Join(s: seq<byte>): nat {
    if s == [] then 0 else s[0] as nat + 256 * Join(s[1..])
  }

  function Split(v: nat, w: nat): (r: seq<byte>)
    ensures |r| == w
  {
    if w == 0 then [] else [(v % 256) as byte] + Split(v / 256, w - 1)
  }

  lemma {:induction false} SplitJoin(s: seq<byte>)
    ensures Split(Join(s), |s|) == s
    decreases |s|
  {
    hide Join, Split;
    if s == [] {
      SplitNone(Join(s));
    } else {
      SplitJoin(s[1..]);
      JoinHead(s);
      LowByte(s[0], Join(s[1..]));
      SplitByte(Join(s), |s|);
      assert s == [s[0]] + s[1..];
    }
  }

  lemma LowByte(x: byte, v: nat)
    ensures (x as nat + 256 * v) % 256 == x as nat && (x as nat + 256 * v) / 256 == v
  {}

  /** Memory with bytes v written at a. */
  function Written(mem: seq<byte>, a: nat, v: seq<byte>): (r: seq<byte>)
    requires a + |v| <= |mem|
    ensures |r| == |mem|
  {
    mem[..a] + v + mem[a + |v|..]
  }

  lemma WrittenMore(mem: seq<byte>, a: nat, v: seq<byte>, u: seq<byte>)
    requires a + |v| + |u| <= |mem|
    ensures Written(Written(mem, a, v), a + |v|, u) == Written(mem, a, v + u)
  {}

  /** One access of w bytes. */
  method Load(mem: array<byte>, a: nat, w: nat) returns (v: nat)
    requires a + w <= mem.Length
    ensures v == Join(mem[a..a + w])
  {
    v := 0;
    var i: nat := w;
    assert mem[a + w..a + w] == [];
    while i > 0
      invariant i <= w && v == Join(mem[a + i..a + w])
    {
      i := i - 1;
      assert mem[a + i..a + w] == [mem[a + i]] + mem[a + i + 1..a + w];
      v := mem[a + i] as nat + 256 * v;
    }
  }

  method Store(mem: array<byte>, a: nat, w: nat, v: nat)
    requires a + w <= mem.Length
    modifies mem
    ensures mem[..] == Written(old(mem[..]), a, Split(v, w))
  {
    hide Written, Split;
    var i: nat, rest := 0, v;
    ghost var was, done := mem[..], [];
    WrittenNone(was, a);
    while i < w
      invariant i <= w && |done| == i && mem[..] == Written(was, a, done)
      invariant Split(v, w) == done + Split(rest, w - i)
    {
      ghost var now := mem[..];
      mem[a + i] := (rest % 256) as byte;
      WrittenByte(was, a, done, (rest % 256) as byte);
      SplitByte(rest, w - i);
      assert mem[..] == now[a + i := (rest % 256) as byte];
      done := done + [(rest % 256) as byte];
      rest := rest / 256;
      i := i + 1;
    }
    SplitNone(rest);
    assert Split(v, w) == done + Split(rest, 0) == done;
  }

  lemma WrittenNone(mem: seq<byte>, a: nat)
    requires a <= |mem|
    ensures Written(mem, a, []) == mem
  {}

  lemma WrittenByte(mem: seq<byte>, a: nat, v: seq<byte>, x: byte)
    requires a + |v| < |mem|
    ensures Written(mem, a, v)[a + |v| := x] == Written(mem, a, v + [x])
  {}

  lemma SplitByte(v: nat, w: nat)
    requires w > 0
    ensures Split(v, w) == [(v % 256) as byte] + Split(v / 256, w - 1)
  {}

  lemma SplitNone(v: nat)
    ensures Split(v, 0) == []
  {}

  // --- memcpy_fromio and memcpy_toio -------------------------------------------------------

  /** dst after n bytes of src were copied, from address `from` to address `to`. */
  function Copied(dst: seq<byte>, to: nat, src: seq<byte>, from: nat, n: nat): seq<byte>
    requires to + n <= |dst| && from + n <= |src|
  {
    Written(dst, to, src[from..from + n])
  }

  lemma CopiedMore(dst: seq<byte>, to: nat, src: seq<byte>, from: nat, n: nat, w: nat)
    requires to + n + w <= |dst| && from + n + w <= |src|
    ensures Written(Copied(dst, to, src, from, n), to + n, src[from + n..from + n + w]) ==
            Copied(dst, to, src, from, n + w)
  {
    WrittenMore(dst, to, src[from..from + n], src[from + n..from + n + w]);
    assert src[from..from + n] + src[from + n..from + n + w] == src[from..from + (n + w)];
  }

  /** One access of w bytes in and out. */
  method CopyOne(dst: array<byte>, src: array<byte>, to: nat, from: nat, w: nat)
    requires dst != src && to + w <= dst.Length && from + w <= src.Length
    modifies dst
    ensures dst[..] == Written(old(dst[..]), to, src[from..from + w])
  {
    var v := Load(src, from, w);
    SplitJoin(src[from..from + w]);
    Store(dst, to, w, v);
  }

  /** One co-aligned stretch: if at least one access of w bytes is left and both addresses are
      equally aligned for it, the do-while loop of such accesses; `done` counts the bytes
      copied so far. */
  method CopyStretch(dst: array<byte>, src: array<byte>, to: nat, from: nat, count: nat, w: nat, done: nat,
                     ghost was: seq<byte>)
    returns (done': nat)
    requires dst != src && 0 < w && done <= count && to + count <= dst.Length == |was| && from + count <= src.Length
    requires dst[..] == Copied(was, to, src[..], from, done)
    modifies dst
    ensures done <= done' <= count && dst[..] == Copied(was, to, src[..], from, done')
    ensures (to + done) % w == (from + done) % w ==> count - done' < w
  {
    hide Copied;
    done' := done;
    if count - done >= w && (to + done) % w == (from + done) % w {
      ghost var s := src[..];
      var left := count - done - w;
      while true
        invariant done <= done' && 0 <= left && done' + left + w == count
        invariant src[..] == s && dst[..] == Copied(was, to, s, from, done')
        decreases left
      {
        CopiedMore(was, to, s, from, done', w);
        CopyOne(dst, src, to + done', from + done', w);
        assert src[from + done'..from + done' + w] == s[from + done'..from + done' + w];
        done' := done' + w;
        if left < w { break; }
        left := left - w;
      }
    }
  }

  /** The copy of both directions: quadwords, then longwords, then words while the addresses
      are co-aligned, then single bytes.  A negative count copies nothing. */
  method Memcpy(dst: array<byte>, src: array<byte>, to: nat, from: nat, count: int)
    requires dst != src && to + count <= dst.Length && from + count <= src.Length
    modifies dst
    ensures dst[..] == if count <= 0 then old(dst[..]) else Copied(old(dst[..]), to, src[..], from, count)
  {
    hide Copied;
    if count <= 0 { return; }
    ghost var was, s := dst[..], src[..];
    NothingCopied(was, to, s, from);
    var done := CopyStretch(dst, src, to, from, count, 8, 0, was);
    done := CopyStretch(dst, src, to, from, count, 4, done, was);
    done := CopyStretch(dst, src, to, from, count, 2, done, was);
    done := CopyStretch(dst, src, to, from, count, 1, done, was);
  }

  lemma NothingCopied(dst: seq<byte>, to: nat, src: seq<byte>, from: nat)
    requires to <= |dst| && from <= |src|
    ensures Copied(dst, to, src, from, 0) == dst
  {}

  // --- Ports -----------------------------------------------------------------------------------

  /** A port: what it will deliver, one item a read, and what it was given. */
  class Port<T> {
    const source: nat -> T
    var next: nat
    var taken: seq<T>

    constructor (source: nat -> T)
      ensures this.source == source && next == 0 && taken == []
    {
      this.source := source;
      next, taken := 0, [];
    }

    method Read() returns (x: T)
      modifies this`next
      ensures x == source(old(next)) && next == old(next) + 1
    {
      x := source(next);
      next := next + 1;
    }

    method Write(x: T)
      modifies this`taken
      ensures taken == old(taken) + [x]
    {
      taken := taken + [x];
    }

    /** The next n items. */
    ghost function Items(from: nat, n: nat): (r: seq<T>)
      ensures |r| == n && forall k | 0 <= k < n :: r[k] == source(from + k)
    {
      seq(n, k requires k >= 0 => source(from + k))
    }
  }

  /** The widths of an access, and natural alignment for each. */
  predicate AccessWidth(w: nat) {
    w == 1 || w == 2 || w == 4 || w == 8
  }

  predicate Aligned(a: nat, w: nat)
    requires AccessWidth(w)
  {
    if w == 8 then a % 8 == 0 else if w == 4 then a % 4 == 0 else if w == 2 then a % 2 == 0 else true
  }

  lemma AlignedNext(a: nat)
    requires Aligned(a, 4)
    ensures Aligned(a + 4, 4)
  {}

  /** A naturally aligned access. */
  method StoreAligned(mem: array<byte>, a: nat, w: nat, v: nat)
    requires AccessWidth(w) && Aligned(a, w) && a + w <= mem.Length
    modifies mem
    ensures mem[..] == Written(old(mem[..]), a, Split(v, w))
  {
    Store(mem, a, w, v);
  }

  /** Four bytes read one by one make the longword that stores them in order. */
  lemma FourBytes(a: byte, b: byte, c: byte, d: byte)
    ensures Split(a as nat + 0x100 * b as nat + 0x1_0000 * c as nat + 0x100_0000 * d as nat, 4) == [a, b, c, d]
  {
    var v := a as nat + 0x100 * b as nat + 0x1_0000 * c as nat + 0x100_0000 * d as nat;
    assert Join([d]) == d as nat + 256 * Join([d][1..]);
    assert [c, d][1..] == [d] && [b, c, d][1..] == [c, d] && [a, b, c, d][1..] == [b, c, d];
    assert Join([c, d]) == c as nat + 256 * Join([d]);
    assert Join([b, c, d]) == b as nat + 256 * Join([c, d]);
    assert Join([a, b, c, d]) == a as nat + 256 * Join([b, c, d]);
    SplitJoin([a, b, c, d]);
  }

  /** ioread8_rep: single bytes up to a longword boundary, then aligned longwords, then the
      remaining bytes; the port's bytes land in memory in the order they were read. */
  method IoRead8Rep(port: Port<byte>, mem: array<byte>, dst: nat, count: nat)
    requires dst + count <= mem.Length
    modifies port`next, mem
    ensures port.next == old(port.next) + count
    ensures mem[..] == Written(old(mem[..]), dst, port.Items(old(port.next), count))
  {
    hide Split, Written, Aligned;
    ghost var was, from := mem[..], port.next;
    var done: nat := 0;
    NothingWritten(was, dst, port, from);
    while !Aligned(dst + done, 4)
      invariant done <= count && port.next == from + done
      invariant mem[..] == Written(was, dst, port.Items(from, done))
      decreases count - done
    {
      if done == count { return; }
      done := ReadByte(port, mem, dst, done, was, from, count);
    }
    while count - done >= 4
      invariant done <= count && port.next == from + done && Aligned(dst + done, 4)
      invariant mem[..] == Written(was, dst, port.Items(from, done))
    {
      done := ReadLongword(port, mem, dst, done, was, from, count);
    }
    while done < count
      invariant done <= count && port.next == from + done
      invariant mem[..] == Written(was, dst, port.Items(from, done))
    {
      done := ReadByte(port, mem, dst, done, was, from, count);
    }
  }

  method ReadLongword(port: Port<byte>, mem: array<byte>, dst: nat, done: nat, ghost was: seq<byte>, ghost from: nat,
                      ghost count: nat)
    returns (done': nat)
    requires done + 4 <= count && dst + count <= mem.Length == |was| && port.next == from + done
    requires Aligned(dst + done, 4) && mem[..] == Written(was, dst, port.Items(from, done))
    modifies port`next, mem
    ensures done' == done + 4 && port.next == from + done' && Aligned(dst + done', 4)
    ensures mem[..] == Written(was, dst, port.Items(from, done'))
  {
    hide Split, Written, Aligned;
    var a := port.Read();
    var b := port.Read();
    var c := port.Read();
    var d := port.Read();
    var w := a as nat + 0x100 * b as nat + 0x1_0000 * c as nat + 0x100_0000 * d as nat;
    FourBytes(a, b, c, d);
    StoreAligned(mem, dst + done, 4, w);
    ItemsMore(was, dst, port, from, done, [a, b, c, d]);
    AlignedNext(dst + done);
    done' := done + 4;
  }

  method ReadByte(port: Port<byte>, mem: array<byte>, dst: nat, done: nat, ghost was: seq<byte>, ghost from: nat,
                  ghost count: nat)
    returns (done': nat)
    requires done < count && dst + count <= mem.Length == |was| && port.next == from + done
    requires mem[..] == Written(was, dst, port.Items(from, done))
    modifies port`next, mem
    ensures done' == done + 1 && port.next == from + done'
    ensures mem[..] == Written(was, dst, port.Items(from, done'))
  {
    ghost var now := mem[..];
    var x := port.Read();
    mem[dst + done] := x;
    assert mem[..] == Written(now, dst + done, [x]);
    ItemsMore(was, dst, port, from, done, [x]);
    done' := done + 1;
  }

  lemma NothingWritten(was: seq<byte>, dst: nat, port: Port<byte>, from: nat)
    requires dst <= |was|
    ensures Written(was, dst, port.Items(from, 0)) == was
  {}

  lemma ItemsMore(was: seq<byte>, dst: nat, port: Port<byte>, from: nat, done: nat, more: seq<byte>)
    requires dst + done + |more| <= |was|
    requires forall k | 0 <= k < |more| :: more[k] == port.source(from + done + k)
    ensures Written(Written(was, dst, port.Items(from, done)), dst + done, more) ==
            Written(was, dst, port.Items(from, done + |more|))
  {
    WrittenMore(was, dst, port.Items(from, done), more);
    assert port.Items(from, done) + more == port.Items(from, done + |more|);
  }

  // --- 16-bit ports ------------------------------------------------------------------------------

  /** A run of bytes as 16-bit words, and back. */
  function Words(s: seq<byte>): (r: seq<nat>)
    requires |s| % 2 == 0
    ensures |r| == |s| / 2
  {
    if s == [] then [] else Words(s[..|s| - 2]) + [Join(s[|s| - 2..])]
  }

  function Unwords(ws: seq<nat>): (r: seq<byte>)
    ensures |r| == 2 * |ws|
  {
    if ws == [] then [] else Unwords(ws[..|ws| - 1]) + Split(ws[|ws| - 1], 2)
  }

  /** Words read into memory and written out again, and bytes written out and read back, are
      the same. */
  lemma {:induction false} UnwordsWords(s: seq<byte>)
    requires |s| % 2 == 0
    ensures Unwords(Words(s)) == s
    decreases |s|
  {
    hide Join, Split, Words, Unwords;
    if s == [] {
      NoWords();
    } else {
      var pre, last := s[..|s| - 2], s[|s| - 2..];
      UnwordsWords(pre);
      WordsLast(s);
      UnwordsLast(Words(pre), Join(last));
      SplitJoin(last);
      assert s == pre + last;
    }
  }

  lemma WordsLast(s: seq<byte>)
    requires |s| % 2 == 0 && s != []
    ensures Words(s) == Words(s[..|s| - 2]) + [Join(s[|s| - 2..])]
  {}

  lemma UnwordsLast(ws: seq<nat>, x: nat)
    ensures Unwords(ws + [x]) == Unwords(ws) + Split(x, 2)
  {
    assert (ws + [x])[..|ws|] == ws;
  }

  lemma WordsNext(s: seq<byte>, n: nat)
    requires 2 * n + 2 <= |s|
    ensures Words(s[..2 * n + 2]) == Words(s[..2 * n]) + [Join(s[2 * n..2 * n + 2])]
  {
    assert s[..2 * n + 2][..2 * n] == s[..2 * n];
    assert s[..2 * n + 2][2 * n..] == s[2 * n..2 * n + 2];
  }

  lemma JoinTwo(s: seq<byte>)
    requires |s| == 2
    ensures Join(s) == s[0] as nat + 0x100 * s[1] as nat
  {
    assert s[1..] == [s[1]] && [s[1]][1..] == [];
    assert Join([s[1]]) == s[1] as nat + 256 * Join([]);
  }

  /** A longword is its two halves. */
  lemma LongwordHalves(s: seq<byte>)
    requires |s| == 4
    ensures Join(s) % 0x1_0000 == Join(s[..2]) && Join(s) / 0x1_0000 == Join(s[2..])
  {
    hide Join;
    JoinTwo(s[..2]);
    JoinTwo(s[2..]);
    JoinHead(s);
    JoinHead(s[1..]);
    assert s[1..][1..] == s[2..];
    HalvesOf(Join(s[..2]), Join(s[2..]));
  }

  lemma HalvesOf(x: nat, y: nat)
    requires x < 0x1_0000
    ensures (x + 0x1_0000 * y) % 0x1_0000 == x && (x + 0x1_0000 * y) / 0x1_0000 == y
  {}

  lemma JoinHead(s: seq<byte>)
    requires s != []
    ensures Join(s) == s[0] as nat + 256 * Join(s[1..])
  {}

  method LoadAligned(mem: array<byte>, a: nat, w: nat) returns (v: nat)
    requires AccessWidth(w) && Aligned(a, w) && a + w <= mem.Length
    ensures v == Join(mem[a..a + w])
  {
    v := Load(mem, a, w);
  }

  /** iowrite16_rep: one halfword if the buffer is not longword aligned (the code insists that
      it is then halfword aligned), then longwords in two halves, then a last halfword. */
  method IoWrite16Rep(port: Port<nat>, mem: array<byte>, src: nat, count: nat)
    requires src + 2 * count <= mem.Length && (count > 0 && !Aligned(src, 4) ==> Aligned(src, 2))
    modifies port`taken
    ensures port.taken == old(port.taken) + Words(mem[src..src + 2 * count])
  {
    hide Join, Words, Aligned;
    ghost var s, was := mem[src..src + 2 * count], port.taken;
    NoWords();
    assert s[..2 * 0] == [];
    if !Aligned(src, 4) {
      if count == 0 {
        assert s == [];
        return;
      }
      HalfAligned(src);
      var one := WriteHalf(port, mem, src, 0, s, was);
      WriteAlignedRest(port, mem, src, count, one, s, was);
    } else {
      WriteAlignedRest(port, mem, src, count, 0, s, was);
    }
  }

  method WriteAlignedRest(port: Port<nat>, mem: array<byte>, src: nat, count: nat, from: nat,
                          ghost s: seq<byte>, ghost was: seq<nat>)
    requires src + 2 * count <= mem.Length && s == mem[src..src + 2 * count] && from <= count
    requires Aligned(src + 2 * from, 4) && port.taken == was + Words(s[..2 * from])
    modifies port`taken
    ensures port.taken == was + Words(s)
  {
    hide Join, Words, Aligned;
    var done: nat := from;
    while count - done >= 2
      invariant done <= count && Aligned(src + 2 * done, 4)
      invariant port.taken == was + Words(s[..2 * done])
    {
      done := WriteLongword(port, mem, src, done, s, was);
    }
    if done < count {
      AlsoAligned(src + 2 * done);
      done := WriteHalf(port, mem, src, done, s, was);
    }
    assert s[..2 * done] == s;
  }

  lemma SliceOfSlice(m: seq<byte>, a: nat, n: nat, i: nat, k: nat)
    requires a + n <= |m| && i + k <= n
    ensures m[a..a + n][i..i + k] == m[a + i..a + i + k]
  {
    var part, run := m[a..a + n], m[a + i..a + i + k];
    forall j | 0 <= j < k
      ensures part[i..i + k][j] == run[j]
    {
      assert part[i..i + k][j] == part[i + j] == m[a + i + j];
    }
  }

  method WriteHalf(port: Port<nat>, mem: array<byte>, src: nat, done: nat, ghost s: seq<byte>, ghost was: seq<nat>)
    returns (done': nat)
    requires src + |s| <= mem.Length && s == mem[src..src + |s|] && 2 * done + 2 <= |s| && Aligned(src + 2 * done, 2)
    requires port.taken == was + Words(s[..2 * done])
    modifies port`taken
    ensures done' == done + 1 && port.taken == was + Words(s[..2 * done'])
  {
    hide Join, Words, Aligned;
    var v := LoadAligned(mem, src + 2 * done, 2);
    SliceOfSlice(mem[..], src, |s|, 2 * done, 2);
    port.Write(v);
    WordsNext(s, done);
    done' := done + 1;
  }

  method WriteLongword(port: Port<nat>, mem: array<byte>, src: nat, done: nat, ghost s: seq<byte>, ghost was: seq<nat>)
    returns (done': nat)
    requires src + |s| <= mem.Length && s == mem[src..src + |s|] && 2 * done + 4 <= |s| && Aligned(src + 2 * done, 4)
    requires port.taken == was + Words(s[..2 * done])
    modifies port`taken
    ensures done' == done + 2 && Aligned(src + 2 * done', 4) && port.taken == was + Words(s[..2 * done'])
  {
    hide Join, Words, Aligned;
    var w := LoadAligned(mem, src + 2 * done, 4);
    ghost var q := s[2 * done..2 * done + 4];
    SliceOfSlice(mem[..], src, |s|, 2 * done, 4);
    LongwordHalves(q);
    SliceOfSlice(s, 2 * done, 4, 0, 2);
    SliceOfSlice(s, 2 * done, 4, 2, 2);
    assert q[..2] == q[0..2] && q[2..] == q[2..4];
    port.Write(w % 0x1_0000);
    port.Write(w / 0x1_0000);
    WordsNext(s, done);
    WordsNext(s, done + 1);
    AlignedNext(src + 2 * done);
    done' := done + 2;
  }

  lemma NoWords()
    ensures Words([]) == [] && Unwords([]) == []
  {}

  /** The port is 16 bits wide. */
  ghost predicate Halfwords(port: Port<nat>) {
    forall i :: port.source(i) < 0x1_0000
  }

  lemma HalfAligned(a: nat)
    requires !Aligned(a, 4) && Aligned(a, 2)
    ensures Aligned(a + 2, 4)
  {}

  lemma AlsoAligned(a: nat)
    requires Aligned(a, 4)
    ensures Aligned(a, 2)
  {}

  /** ioread16_rep: the mirror image, with two port words to a longword. */
  method IoRead16Rep(port: Port<nat>, mem: array<byte>, dst: nat, count: nat)
    requires dst + 2 * count <= mem.Length && (count > 0 && !Aligned(dst, 4) ==> Aligned(dst, 2))
    requires Halfwords(port)
    modifies port`next, mem
    ensures port.next == old(port.next) + count
    ensures mem[..] == Written(old(mem[..]), dst, Unwords(port.Items(old(port.next), count)))
  {
    hide Split, Unwords, Written, Aligned;
    ghost var was, from := mem[..], port.next;
    NothingRead(was, dst, port, from);
    if !Aligned(dst, 4) {
      if count == 0 { return; }
      HalfAligned(dst);
      var one := ReadHalf(port, mem, dst, 0, was, from);
      ReadAlignedRest(port, mem, dst, count, one, was, from);
    } else {
      ReadAlignedRest(port, mem, dst, count, 0, was, from);
    }
  }

  method ReadAlignedRest(port: Port<nat>, mem: array<byte>, dst: nat, count: nat, first: nat,
                         ghost was: seq<byte>, ghost from: nat)
    requires dst + 2 * count <= mem.Length == |was| && first <= count && Aligned(dst + 2 * first, 4)
    requires Halfwords(port)
    requires port.next == from + first && mem[..] == Written(was, dst, Unwords(port.Items(from, first)))
    modifies port`next, mem
    ensures port.next == from + count && mem[..] == Written(was, dst, Unwords(port.Items(from, count)))
  {
    hide Split, Unwords, Written, Aligned;
    var done: nat := first;
    while count - done >= 2
      invariant done <= count && Aligned(dst + 2 * done, 4) && port.next == from + done
      invariant mem[..] == Written(was, dst, Unwords(port.Items(from, done)))
    {
      done := ReadTwo(port, mem, dst, done, was, from);
    }
    if done == count {
    } else {
      AlsoAligned(dst + 2 * done);
      done := ReadHalf(port, mem, dst, done, was, from);
    }
  }

  method ReadTwo(port: Port<nat>, mem: array<byte>, dst: nat, done: nat, ghost was: seq<byte>, ghost from: nat)
    returns (done': nat)
    requires dst + 2 * done + 4 <= mem.Length == |was| && Aligned(dst + 2 * done, 4)
    requires Halfwords(port)
    requires port.next == from + done && mem[..] == Written(was, dst, Unwords(port.Items(from, done)))
    modifies port`next, mem
    ensures done' == done + 2 && port.next == from + done' && Aligned(dst + 2 * done', 4)
    ensures mem[..] == Written(was, dst, Unwords(port.Items(from, done')))
  {
    hide Split, Unwords, Written, Aligned;
    var a := port.Read();
    var b := port.Read();
    StoreAligned(mem, dst + 2 * done, 4, a + 0x1_0000 * b);
    LongwordOfTwo(a, b);
    WordRead(was, dst, port, from, done);
    WordRead(was, dst, port, from, done + 1);
    WrittenMore(Written(was, dst, Unwords(port.Items(from, done))), dst + 2 * done, Split(a, 2), Split(b, 2));
    AlignedNext(dst + 2 * done);
    done' := done + 2;
  }

  method ReadHalf(port: Port<nat>, mem: array<byte>, dst: nat, done: nat, ghost was: seq<byte>, ghost from: nat)
    returns (done': nat)
    requires dst + 2 * done + 2 <= mem.Length == |was| && Aligned(dst + 2 * done, 2)
    requires port.next == from + done && mem[..] == Written(was, dst, Unwords(port.Items(from, done)))
    modifies port`next, mem
    ensures done' == done + 1 && port.next == from + done'
    ensures mem[..] == Written(was, dst, Unwords(port.Items(from, done')))
  {
    hide Split, Unwords, Written, Aligned;
    var a := port.Read();
    StoreAligned(mem, dst + 2 * done, 2, a);
    WordRead(was, dst, port, from, done);
    done' := done + 1;
  }

  lemma NothingRead(was: seq<byte>, dst: nat, port: Port<nat>, from: nat)
    requires dst <= |was|
    ensures Written(was, dst, Unwords(port.Items(from, 0))) == was
  {}

  lemma WordRead(was: seq<byte>, dst: nat, port: Port<nat>, from: nat, done: nat)
    requires dst + 2 * done + 2 <= |was|
    ensures Written(Written(was, dst, Unwords(port.Items(from, done))), dst + 2 * done,
                    Split(port.source(from + done), 2)) ==
            Written(was, dst, Unwords(port.Items(from, done + 1)))
  {
    hide Split;
    var ws := port.Items(from, done + 1);
    assert ws[..done] == port.Items(from, done) && ws[done] == port.source(from + done);
    WrittenMore(was, dst, Unwords(port.Items(from, done)), Split(port.source(from + done), 2));
  }

  lemma LongwordOfTwo(a: nat, b: nat)
    requires a < 0x1_0000 && b < 0x1_0000
    ensures Split(a + 0x1_0000 * b, 4) == Split(a, 2) + Split(b, 2)
  {
    hide Split;
    var v := a + 0x1_0000 * b;
    LowBytes(a, b);
    SplitByte(v, 4);
    SplitByte(v / 256, 3);
    SplitByte(a, 2);
    SplitByte(a / 256, 1);
    SplitNone(a / 256 / 256);
  }

  lemma LowBytes(a: nat, b: nat)
    requires a < 0x1_0000
    ensures var v := a + 0x1_0000 * b;
            v % 256 == a % 256 && v / 256 % 256 == a / 256 % 256 && v / 256 / 256 == b
  {
    assert (a + 0x1_0000 * b) / 256 == a / 256 + 0x100 * b;
  }

  // --- _memset_c_io --------------------------------------------------------------------------------

  /** The naturally aligned access of w bytes around address a lies within [lo, hi). */
  predicate FitsAround(a: nat, w: nat, lo: nat, hi: nat)
    requires AccessWidth(w)
  {
    var start := a - Phase(a, w);
    lo <= start && start + w <= hi
  }

  /** Where address a lies in the aligned access of w bytes around it. */
  function Phase(a: nat, w: nat): (r: nat)
    requires AccessWidth(w)
    ensures r <= a && r < w
    ensures r == 0 <==> Aligned(a, w)
  {
    if w == 8 then a % 8 else if w == 4 then a % 4 else if w == 2 then a % 2 else 0
  }

  /** The widest naturally aligned access around a that stays within [lo, hi). */
  function Widest(a: nat, lo: nat, hi: nat): (w: nat)
    ensures AccessWidth(w)
  {
    if FitsAround(a, 8, lo, hi) then 8
    else if FitsAround(a, 4, lo, hi) then 4
    else if FitsAround(a, 2, lo, hi) then 2
    else 1
  }

  /** What the bytes of [to, to + count) become: each is the byte of the 64-bit value c that the
      widest aligned store around it puts there. */
  ghost function Filled(c: nat, to: nat, count: nat): (r: seq<byte>)
    ensures |r| == count && forall j | 0 <= j < count :: r[j] == FilledAt(c, to, count, j)
  {
    seq(count, j requires 0 <= j < count => FilledAt(c, to, count, j))
  }

  ghost function FilledAt(c: nat, to: nat, count: nat, j: nat): byte {
    Split(c, 8)[Phase(to + j, Widest(to + j, to, to + count))]
  }

  /** The first w bytes of a number are the first w of its eight. */
  lemma {:induction false} SplitPrefix(v: nat, w: nat, x: nat)
    ensures Split(v, w + x)[..w] == Split(v, w)
    decreases w
  {
    hide Split;
    if w == 0 {
      SplitNone(v);
    } else {
      SplitPrefix(v / 256, w - 1, x);
      SplitByte(v, w + x);
      SplitByte(v, w);
      assert Split(v, w + x)[..w] == [(v % 256) as byte] + Split(v / 256, w + x - 1)[..w - 1];
    }
  }

  /** Inside one aligned access the widest access is the same for all bytes. */
  lemma SameAccess(a: nat, w: nat, j: nat, lo: nat, hi: nat)
    requires AccessWidth(w) && Aligned(a, w) && j < w && lo <= a && a + w <= hi
    requires w < 8 ==> !FitsAround(a, 2 * w, lo, hi)
    ensures Widest(a + j, lo, hi) == w && Phase(a + j, w) == j
  {
    hide Phase, Aligned, FitsAround;
    PhaseInside(a, w, j);
    FitsAtPhase(a + j, w, lo, hi);
    if w < 8 {
      SameOuter(a, w, j, lo, hi);
      if w < 4 { Nested(a + j, 2 * w, lo, hi); }
      if w < 2 { Nested(a + j, 4, lo, hi); }
    }
  }

  lemma PhaseInside(a: nat, w: nat, j: nat)
    requires AccessWidth(w) && Aligned(a, w) && j < w
    ensures Phase(a + j, w) == j
  {
    if w == 8 {
      EightMore(a, j);
    } else if w == 4 {
      FourMore(a, j);
    } else if w == 2 {
      TwoMore(a, j);
    }
  }

  lemma Rem2(x: nat, q: nat, r: nat)
    requires x == 2 * q + r && r < 2
    ensures x % 2 == r && x / 2 == q
  {}

  lemma Rem4(x: nat, q: nat, r: nat)
    requires x == 4 * q + r && r < 4
    ensures x % 4 == r && x / 4 == q
  {}

  lemma Rem8(x: nat, q: nat, r: nat)
    requires x == 8 * q + r && r < 8
    ensures x % 8 == r && x / 8 == q
  {}

  lemma EightMore(a: nat, j: nat)
    requires a % 8 == 0 && j < 8
    ensures (a + j) % 8 == j
  {
    Rem8(a + j, a / 8, j);
  }

  lemma FourMore(a: nat, j: nat)
    requires a % 4 == 0 && j < 4
    ensures (a + j) % 4 == j && (a + j) % 8 == a % 8 + j
  {
    InFours(a / 4, j, a);
  }

  lemma InFours(p: nat, j: nat, a: nat)
    requires a == 4 * p && j < 4
    ensures (a + j) % 4 == j && (a + j) % 8 == a % 8 + j
  {
    Rem4(a + j, p, j);
    var q, b := Halved(p);
    Rem8(a, q, 4 * b);
    Rem8(a + j, q, 4 * b + j);
  }

  lemma Halved(p: nat) returns (q: nat, b: nat)
    ensures p == 2 * q + b && b < 2
  {
    q, b := p / 2, p % 2;
  }

  lemma TwoMore(a: nat, j: nat)
    requires a % 2 == 0 && j < 2
    ensures (a + j) % 2 == j && (a + j) % 4 == a % 4 + j
  {
    InTwos(a / 2, j, a);
  }

  lemma InTwos(p: nat, j: nat, a: nat)
    requires a == 2 * p && j < 2
    ensures (a + j) % 2 == j && (a + j) % 4 == a % 4 + j
  {
    Rem2(a + j, p, j);
    var q, b := Halved(p);
    Rem4(a, q, 2 * b);
    Rem4(a + j, q, 2 * b + j);
  }

  lemma FitsAtPhase(a: nat, w: nat, lo: nat, hi: nat)
    requires AccessWidth(w)
    ensures FitsAround(a, w, lo, hi) <==> lo <= a - Phase(a, w) && a - Phase(a, w) + w <= hi
  {}

  /** The bytes of an aligned access share the access of twice its width. */
  lemma SameOuter(a: nat, w: nat, j: nat, lo: nat, hi: nat)
    requires (w == 1 || w == 2 || w == 4) && Aligned(a, w) && j < w
    ensures FitsAround(a + j, 2 * w, lo, hi) <==> FitsAround(a, 2 * w, lo, hi)
  {
    hide Phase, Aligned, FitsAround;
    FitsAtPhase(a, 2 * w, lo, hi);
    FitsAtPhase(a + j, 2 * w, lo, hi);
    PhaseOutside(a, w, j);
  }

  lemma PhaseOutside(a: nat, w: nat, j: nat)
    requires (w == 1 || w == 2 || w == 4) && Aligned(a, w) && j < w
    ensures Phase(a + j, 2 * w) == Phase(a, 2 * w) + j
  {
    if w == 4 {
      FourMore(a, j);
    } else if w == 2 {
      TwoMore(a, j);
    }
  }

  /** An access that fits holds one of half its width. */
  lemma Nested(a: nat, w: nat, lo: nat, hi: nat)
    requires w == 2 || w == 4
    ensures FitsAround(a, 2 * w, lo, hi) ==> FitsAround(a, w, lo, hi)
  {
    hide Phase, FitsAround;
    FitsAtPhase(a, w, lo, hi);
    FitsAtPhase(a, 2 * w, lo, hi);
    NestedPhase(a, w);
  }

  lemma NestedPhase(a: nat, w: nat)
    requires w == 2 || w == 4
    ensures Phase(a, 2 * w) == Phase(a, w) || Phase(a, 2 * w) == Phase(a, w) + w
  {
    if w == 2 { NestedInFour(a); } else { NestedInEight(a); }
  }

  lemma NestedInFour(a: nat)
    ensures a % 4 == a % 2 || a % 4 == a % 2 + 2
  {
    var p, r := Halved(a);
    var q, b := Halved(p);
    Rem2(a, p, r);
    Rem4(a, q, 2 * b + r);
  }

  lemma NestedInEight(a: nat)
    ensures a % 8 == a % 4 || a % 8 == a % 4 + 4
  {
    var p, r := Halved(a);
    var q, b := Halved(p);
    var t, c := Halved(q);
    Rem4(a, q, 2 * b + r);
    Rem8(a, t, 4 * c + 2 * b + r);
  }

  /** One store, of the widest aligned access that fits, continues the fill. */
  method FillOne(mem: array<byte>, to: nat, c: nat, count: nat, w: nat, done: nat, ghost was: seq<byte>)
    returns (done': nat)
    requires AccessWidth(w) && done + w <= count && to + count <= mem.Length == |was| && Aligned(to + done, w)
    requires w < 8 ==> !FitsAround(to + done, 2 * w, to, to + count)
    requires mem[..] == Written(was, to, Filled(c, to, count)[..done])
    modifies mem
    ensures done' == done + w && mem[..] == Written(was, to, Filled(c, to, count)[..done'])
  {
    hide Split, Written, Aligned, FitsAround, AccessWidth, Filled;
    StoreAligned(mem, to + done, w, c);
    FillMore(c, to, count, done, w);
    WrittenMore(was, to, Filled(c, to, count)[..done], Split(c, w));
    done' := done + w;
  }

  lemma FillMore(c: nat, to: nat, count: nat, done: nat, w: nat)
    requires AccessWidth(w) && done + w <= count && Aligned(to + done, w)
    requires w < 8 ==> !FitsAround(to + done, 2 * w, to, to + count)
    ensures Filled(c, to, count)[..done] + Split(c, w) == Filled(c, to, count)[..done + w]
  {
    hide Split, Aligned, FitsAround, AccessWidth, Filled;
    var all, part := Filled(c, to, count), Split(c, w);
    forall j | 0 <= j < w
      ensures all[done..done + w][j] == part[j]
    {
      FilledThere(c, to, count, done, w, j);
    }
    assert all[done..done + w] == part;
    assert all[..done + w] == all[..done] + all[done..done + w];
  }

  lemma FilledThere(c: nat, to: nat, count: nat, done: nat, w: nat, j: nat)
    requires AccessWidth(w) && done + w <= count && Aligned(to + done, w) && j < w
    requires w < 8 ==> !FitsAround(to + done, 2 * w, to, to + count)
    ensures Filled(c, to, count)[done + j] == Split(c, w)[j]
  {
    hide Split, Aligned, FitsAround, Phase, Widest;
    SameAccess(to + done, w, j, to, to + count);
    SplitPrefix(c, w, 8 - w);
    assert Split(c, w)[j] == Split(c, 8)[..w][j];
  }

  /** _memset_c_io: every byte gets what the widest aligned store around it puts there.  A
      negative count stores one byte all the same. */
  method MemsetCIo(mem: array<byte>, to: nat, c: nat, count: int)
    requires to + (if count < 0 then 1 else count) <= mem.Length
    modifies mem
    ensures mem[..] == Written(old(mem[..]), to, Filled(c, to, if count < 0 then 1 else count))
  {
    hide Split, Written, Filled, HeadDone, Aligned, FitsAround;
    ghost var was := mem[..];
    if count < 0 {
      NothingFilled(was, to, c, 1);
      OneByteOnly(to);
      var _ := FillOne(mem, to, c, 1, 1, 0, was);
      return;
    }
    NothingFilled(was, to, c, count);
    var done := FillHead(mem, to, c, count, was);
    while count - done >= 8
      invariant done <= count && HeadDone(to, count, done)
      invariant mem[..] == Written(was, to, Filled(c, to, count)[..done])
    {
      HeadKept(to, count, done);
      done := FillOne(mem, to, c, count, 8, done, was);
    }
    FillTail(mem, to, c, count, done, was);
  }

  lemma OneByteOnly(to: nat)
    ensures Aligned(to, 1) && !FitsAround(to, 2, to, to + 1)
    ensures forall s: seq<byte> | |s| == 1 :: s[..1] == s
  {}

  /** What is left is aligned for every access it still has room for. */
  ghost predicate HeadDone(to: nat, count: nat, done: nat) {
    (count - done >= 4 ==> Aligned(to + done, 8)) &&
    (count - done >= 2 ==> Aligned(to + done, 4)) &&
    (count - done >= 1 ==> Aligned(to + done, 2))
  }

  lemma HeadKept(to: nat, count: nat, done: nat)
    requires HeadDone(to, count, done) && count - done >= 8
    ensures Aligned(to + done, 8) && HeadDone(to, count, done + 8)
  {}

  /** The odd byte, halfword and longword in front. */
  method FillHead(mem: array<byte>, to: nat, c: nat, count: nat, ghost was: seq<byte>) returns (done: nat)
    requires to + count <= mem.Length == |was| && mem[..] == Written(was, to, Filled(c, to, count)[..0])
    modifies mem
    ensures done <= count && HeadDone(to, count, done)
    ensures mem[..] == Written(was, to, Filled(c, to, count)[..done])
  {
    hide Split, Written, Filled, HeadDone, Aligned, FitsAround;
    done := 0;
    if count > 0 && to % 2 == 1 {
      HeadByte(to, count);
      done := FillOne(mem, to, c, count, 1, done, was);
    }
    ghost var one := done;
    if count - done >= 2 && (to + done) / 2 % 2 == 1 {
      HeadHalf(to, count, done);
      done := FillOne(mem, to, c, count, 2, done, was);
    }
    ghost var two := done;
    if count - done >= 4 && (to + done) / 4 % 2 == 1 {
      HeadLong(to, count, one, done);
      done := FillOne(mem, to, c, count, 4, done, was);
    }
    HeadReached(to, count, one, two, done);
  }

  lemma HeadByte(to: nat, count: nat)
    requires count > 0 && to % 2 == 1
    ensures Aligned(to, 1) && !FitsAround(to, 2, to, to + count)
  {}

  /** An access whose aligned place starts before the range does not fit. */
  lemma StartsBefore(to: nat, count: nat, done: nat, w: nat)
    requires AccessWidth(w) && done < Phase(to + done, w)
    ensures !FitsAround(to + done, w, to, to + count)
  {}

  lemma HeadHalf(to: nat, count: nat, one: nat)
    requires one == if count > 0 && to % 2 == 1 then 1 else 0
    requires count - one >= 2 && (to + one) / 2 % 2 == 1
    ensures Aligned(to + one, 2) && !FitsAround(to + one, 4, to, to + count)
  {
    hide FitsAround;
    var t := to + one;
    assert t % 2 == 0;
    assert t % 4 == 2;
    StartsBefore(to, count, one, 4);
  }

  lemma HeadLong(to: nat, count: nat, one: nat, two: nat)
    requires one == if count > 0 && to % 2 == 1 then 1 else 0
    requires two == if count - one >= 2 && (to + one) / 2 % 2 == 1 then one + 2 else one
    requires count - two >= 4 && (to + two) / 4 % 2 == 1
    ensures Aligned(to + two, 4) && !FitsAround(to + two, 8, to, to + count)
  {
    hide FitsAround;
    HalfReached(to, count, one, two);
    OddLongword(to + two);
    StartsBefore(to, count, two, 8);
  }

  lemma OddLongword(t: nat)
    requires t % 4 == 0 && t / 4 % 2 == 1
    ensures Aligned(t, 4) && Phase(t, 8) == 4
  {}

  lemma HalfReached(to: nat, count: nat, one: nat, two: nat)
    requires one == if count > 0 && to % 2 == 1 then 1 else 0
    requires two == if count - one >= 2 && (to + one) / 2 % 2 == 1 then one + 2 else one
    ensures count - two >= 1 ==> (to + two) % 2 == 0
    ensures count - two >= 2 ==> (to + two) % 4 == 0
  {
    assert count - one >= 1 ==> (to + one) % 2 == 0;
  }

  lemma HeadReached(to: nat, count: nat, one: nat, two: nat, done: nat)
    requires one == if count > 0 && to % 2 == 1 then 1 else 0
    requires two == if count - one >= 2 && (to + one) / 2 % 2 == 1 then one + 2 else one
    requires done == if count - two >= 4 && (to + two) / 4 % 2 == 1 then two + 4 else two
    ensures HeadDone(to, count, done)
  {
    HalfReached(to, count, one, two);
    NextBit4(to, count, two, done);
  }

  lemma NextBit4(to: nat, count: nat, two: nat, done: nat)
    requires count - two >= 1 ==> (to + two) % 2 == 0
    requires count - two >= 2 ==> (to + two) % 4 == 0
    requires done == if count - two >= 4 && (to + two) / 4 % 2 == 1 then two + 4 else two
    ensures HeadDone(to, count, done)
  {
    if count - two >= 4 { FourthBit(to + two); }
  }

  lemma FourthBit(t: nat)
    requires t % 4 == 0
    ensures if t / 4 % 2 == 1 then (t + 4) % 8 == 0 && (t + 4) % 4 == 0 && (t + 4) % 2 == 0 else t % 8 == 0
  {
    var q, b := Halved(t / 4);
    Rem2(t / 4, q, b);
    Rem8(t, q, 4 * b);
    if b == 1 {
      Rem8(t + 4, q + 1, 0);
      Rem4(t + 4, 2 * q + 2, 0);
      Rem2(t + 4, 4 * q + 4, 0);
    }
  }

  /** The longword, halfword and byte that are left. */
  method FillTail(mem: array<byte>, to: nat, c: nat, count: nat, from: nat, ghost was: seq<byte>)
    requires to + count <= mem.Length == |was|
    requires from <= count && count - from < 8 && HeadDone(to, count, from)
    requires mem[..] == Written(was, to, Filled(c, to, count)[..from])
    modifies mem
    ensures mem[..] == Written(was, to, Filled(c, to, count))
  {
    hide Split, Written, Filled, HeadDone, Aligned, FitsAround;
    var done: nat := from;
    if count - done >= 4 {
      TailLong(to, count, done);
      done := FillOne(mem, to, c, count, 4, done, was);
    }
    if count - done >= 2 {
      TailHalf(to, count, done);
      done := FillOne(mem, to, c, count, 2, done, was);
    }
    if done < count {
      TailByte(to, count, done);
      done := FillOne(mem, to, c, count, 1, done, was);
    }
    assert Filled(c, to, count)[..count] == Filled(c, to, count);
  }

  lemma TailLong(to: nat, count: nat, done: nat)
    requires HeadDone(to, count, done) && 4 <= count - done < 8
    ensures Aligned(to + done, 4) && !FitsAround(to + done, 8, to, to + count)
    ensures HeadDone(to, count, done + 4)
  {}

  lemma TailHalf(to: nat, count: nat, done: nat)
    requires HeadDone(to, count, done) && 2 <= count - done < 4
    ensures Aligned(to + done, 2) && !FitsAround(to + done, 4, to, to + count)
    ensures HeadDone(to, count, done + 2)
  {}

  lemma TailByte(to: nat, count: nat, done: nat)
    requires HeadDone(to, count, done) && count - done == 1
    ensures Aligned(to + done, 1) && !FitsAround(to + done, 2, to, to + count)
  {}

  lemma NothingFilled(was: seq<byte>, to: nat, c: nat, count: nat)
    requires to <= |was|
    ensures Written(was, to, Filled(c, to, count)[..0]) == was
  {}

  // --- What memset_io and memsetw_io fill -----------------------------------------------------------

  /** The eight bytes of the value memset_io makes of a byte, and memsetw_io of a halfword. */
  lemma RepeatedBytes(x: byte, y: byte)
    ensures Split(0x0101_0101_0101_0101 * x as nat, 8) == [x, x, x, x, x, x, x, x]
    ensures Split(0x0001_0001_0001_0001 * (x as nat + 256 * y as nat), 8) == [x, y, x, y, x, y, x, y]
  {
    hide Split, Join;
    var s, t := [x, x, x, x, x, x, x, x], [x, y, x, y, x, y, x, y];
    JoinEight(s);
    SplitJoin(s);
    JoinEight(t);
    SplitJoin(t);
  }

  lemma JoinEight(s: seq<byte>)
    requires |s| == 8
    ensures Join(s) == s[0] as nat + 0x100 * s[1] as nat + 0x1_0000 * s[2] as nat + 0x100_0000 * s[3] as nat +
                       0x1_0000_0000 * s[4] as nat + 0x100_0000_0000 * s[5] as nat +
                       0x1_0000_0000_0000 * s[6] as nat + 0x100_0000_0000_0000 * s[7] as nat
  {
    hide Join;
    JoinHead(s);
    JoinHead(s[1..]);
    JoinHead(s[1..][1..]);
    JoinHead(s[1..][1..][1..]);
    JoinHead(s[1..][1..][1..][1..]);
    JoinHead(s[1..][1..][1..][1..][1..]);
    JoinHead(s[1..][1..][1..][1..][1..][1..]);
    JoinHead(s[1..][1..][1..][1..][1..][1..][1..]);
    JoinNone();
    assert s[1..][1..][1..][1..][1..][1..][1..][1..] == [];
  }

  lemma JoinNone()
    ensures Join([]) == 0
  {}

  /** memset_io fills with its byte, at any address and for any count. */
  lemma MemsetIoFills(x: byte, to: nat, count: nat, j: nat)
    requires j < count
    ensures Filled(0x0101_0101_0101_0101 * x as nat, to, count)[j] == x
  {
    hide Split, Widest, Phase;
    RepeatedBytes(x, x);
  }

  /** x and y by turns. */
  ghost function Alternating(x: byte, y: byte, count: nat): (r: seq<byte>)
    ensures |r| == count && forall j | 0 <= j < count :: r[j] == if j % 2 == 0 then x else y
  {
    seq(count, j => if j % 2 == 0 then x else y)
  }

  /** memsetw_io fills with its halfword exactly if the address is even, or there is at most one
      byte to fill, or the two bytes of the halfword are equal. */
  lemma MemsetwIoFills(x: byte, y: byte, to: nat, count: nat)
    ensures Filled(0x0001_0001_0001_0001 * (x as nat + 256 * y as nat), to, count) == Alternating(x, y, count) <==>
            to % 2 == 0 || count <= 1 || x == y
  {
    hide Split, Widest, Phase;
    var c := 0x0001_0001_0001_0001 * (x as nat + 256 * y as nat);
    var filled := Filled(c, to, count);
    RepeatedBytes(x, y);
    forall j | 0 <= j < count
      ensures filled[j] == if HalfPhase(to, count, j) == 0 then x else y
    {
      PhaseParity(to, count, j);
    }
    if to % 2 == 0 || count <= 1 {
      forall j | 0 <= j < count
        ensures HalfPhase(to, count, j) == j % 2
      {
        EvenPhase(to, count, j);
      }
    } else {
      OddPhase(to, count);
      assert filled[1] == x && Alternating(x, y, count)[1] == y;
      if x == y { assert forall j | 0 <= j < count :: filled[j] == Alternating(x, y, count)[j] == x; }
    }
  }

  /** Which byte of the halfword lands at byte j. */
  function HalfPhase(to: nat, count: nat, j: nat): nat {
    Phase(to + j, Widest(to + j, to, to + count)) % 2
  }

  lemma PhaseParity(to: nat, count: nat, j: nat)
    requires j < count
    ensures var p := Phase(to + j, Widest(to + j, to, to + count));
            p < 8 && p % 2 == HalfPhase(to, count, j)
  {}

  /** At an even address a byte and its place in any access have the same parity; a byte at an
      odd place always has a halfword around it. */
  lemma EvenPhase(to: nat, count: nat, j: nat)
    requires j < count && (to % 2 == 0 || count <= 1)
    ensures HalfPhase(to, count, j) == j % 2
  {
    hide Phase, FitsAround, Widest, HalfPhase;
    var a := to + j;
    if count <= 1 {
      LoneByte(to);
    } else {
      SumParity(to, j);
      var w := Widest(a, to, to + count);
      HalfPhaseIs(to, count, j, w);
      if w == 1 {
        SingleByte(a, to, to + count);
        OddPlaceFits(to, count, j);
      } else {
        AccessParity(a, w);
      }
    }
  }

  lemma HalfPhaseIs(to: nat, count: nat, j: nat, w: nat)
    requires w == Widest(to + j, to, to + count)
    ensures HalfPhase(to, count, j) == Phase(to + j, w) % 2
  {
    hide Phase, Widest;
  }

  lemma SingleByte(a: nat, lo: nat, hi: nat)
    requires Widest(a, lo, hi) == 1
    ensures !FitsAround(a, 2, lo, hi) && Phase(a, 1) == 0
  {
    hide FitsAround;
  }

  lemma SumParity(to: nat, j: nat)
    requires to % 2 == 0
    ensures (to + j) % 2 == j % 2
  {
    var q, b := Halved(j);
    Rem2(j, q, b);
    Rem2(to + j, to / 2 + q, b);
  }

  lemma LoneByte(to: nat)
    ensures HalfPhase(to, 1, 0) == 0
  {
    hide Phase;
    FitsAtPhase(to, 2, to, to + 1);
    Nested(to, 2, to, to + 1);
    Nested(to, 4, to, to + 1);
    assert Phase(to, 1) == 0 by { PhaseInside(to, 1, 0); }
  }

  lemma OddPlaceFits(to: nat, count: nat, j: nat)
    requires to % 2 == 0 && j < count && !FitsAround(to + j, 2, to, to + count)
    ensures j % 2 == 0
  {
    SumParity(to, j);
  }

  /** An even width keeps the parity of the address. */
  lemma AccessParity(a: nat, w: nat)
    requires AccessWidth(w) && w > 1
    ensures Phase(a, w) % 2 == a % 2
  {
    var p, r := Halved(a);
    var q, b := Halved(p);
    var t, c := Halved(q);
    Rem2(a, p, r);
    Rem4(a, q, 2 * b + r);
    Rem8(a, t, 4 * c + 2 * b + r);
    Rem2(2 * b + r, b, r);
    Rem2(4 * c + 2 * b + r, 2 * c + b, r);
  }

  lemma OddPhase(to: nat, count: nat)
    requires count > 1 && to % 2 == 1
    ensures HalfPhase(to, count, 1) == 0
  {
    hide Phase, FitsAround, Widest, HalfPhase;
    var w := Widest(to + 1, to, to + count);
    HalfPhaseIs(to, count, 1, w);
    Rem2(to + 1, to / 2 + 1, 0);
    if w == 1 { SingleByte(to + 1, to, to + count); } else { AccessParity(to + 1, w); }
  }
}
