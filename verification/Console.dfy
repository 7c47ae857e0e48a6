/** Newline expansion on the two SRM console paths: in place, backwards, in srm_printk, and
    by chunks through a firmware call that may write less than asked, in srmcons. */
module Console {
  /** What both paths put on the console: a carriage return after every line feed. */
  function Expand(s: string): (r: string)
    ensures |r| == |s| + Newlines(s)
  {
    if s == "" then ""
    else Expand(s[..|s| - 1]) + (if s[|s| - 1] == '\n' then "\n\r" else [s[|s| - 1]])
  }

  function Newlines(s: string): nat {
    if s == "" then 0
    else Newlines(s[..|s| - 1]) + if s[|s| - 1] == '\n' then 1 else 0
  }

  lemma {:induction false} ExpandAppend(s: string, t: string)
    ensures Expand(s + t) == Expand(s) + Expand(t)
    decreases |t|
  {
    if t == "" {
      assert s + t == s;
    } else {
      var pre := t[..|t| - 1];
      assert (s + t)[..|s + t| - 1] == s + pre;
      ExpandAppend(s, pre);
    }
  }

  lemma ExpandNext(s: string, n: nat)
    requires n < |s|
    ensures Expand(s[..n + 1]) == Expand(s[..n]) + if s[n] == '\n' then "\n\r" else [s[n]]
    ensures Newlines(s[..n + 1]) == Newlines(s[..n]) + if s[n] == '\n' then 1 else 0
  {
    assert s[..n + 1][..n] == s[..n];
  }

  lemma {:induction false} NewlinesBound(s: string, n: nat)
    requires n <= |s|
    ensures Newlines(s[..n]) <= Newlines(s) && Newlines(s[..n]) <= n
    decreases |s|
  {
    if n == |s| {
      assert s[..n] == s;
      if n > 0 { NewlinesBound(s[..n - 1], n - 1); assert s[..n - 1][..n - 1] == s[..n - 1]; }
    } else {
      NewlinesBound(s[..|s| - 1], n);
      assert s[..|s| - 1][..n] == s[..n];
    }
  }

  // --- In place ------------------------------------------------------------------------------

  /** The loops of srm_printk, on a buffer that holds the `len` formatted characters and their
      terminating NUL and has room for the longer text; num is what srm_puts is asked for
      beyond len. */
  method ExpandInPlace(buf: array<char>, len: nat) returns (num: nat)
    requires len < buf.Length && buf[len] == '\0' && forall i | 0 <= i < len :: buf[i] != '\0'
    requires len + Newlines(buf[..len]) < buf.Length
    modifies buf
    ensures num == Newlines(old(buf[..len]))
    ensures buf[..len + num + 1] == Expand(old(buf[..len])) + "\0"
    ensures buf[len + num + 1..] == old(buf[len + num + 1..])
  {
    ghost var text := buf[..len];
    num := 0;
    var src: nat := 0;
    while buf[src] != '\0'
      invariant src <= len && num == Newlines(text[..src]) && buf[..] == old(buf[..])
      decreases len - src
    {
      assert text[src] == buf[src];
      ExpandNext(text, src);
      if buf[src] == '\n' { num := num + 1; }
      src := src + 1;
    }
    assert src == len && text[..len] == text;
    if num > 0 {
      assert buf[..len + 1] == text + "\0";
      Backwards(buf, len, num, text);
    } else {
      NoNewlines(text);
      assert buf[..len + 1] == text + "\0";
      assert Expand(text) == text;
    }
  }

  /** The backward loop: source and destination move down together, and the destination stays
      ahead of everything not yet read. */
  method Backwards(buf: array<char>, len: nat, num: nat, ghost text: string)
    requires len + num < buf.Length && buf[..len + 1] == text + "\0" && |text| == len && num == Newlines(text)
    requires '\0' !in text
    modifies buf
    ensures buf[..len + num + 1] == Expand(text) + "\0"
    ensures buf[len + num + 1..] == old(buf[len + num + 1..])
  {
    hide Expand, Newlines, Halfway;
    ghost var was, whole, top: nat := buf[..], text + "\0", len + num;
    WholeExpand(text);
    StartHalfway(was, whole, top);
    var src: int, dst: int := len, len + num;
    while src >= 0
      invariant -1 <= src <= len && -1 <= dst <= top
      invariant Halfway(was, buf[..], whole, top, src, dst)
    {
      ExpandedHere(whole, src);
      StepHalfway(was, buf[..], whole, top, src, dst);
      if buf[src] == '\n' {
        buf[dst] := '\r';
        dst := dst - 1;
      }
      buf[dst] := buf[src];
      dst := dst - 1;
      src := src - 1;
    }
    DoneHalfway(was, buf[..], whole, top, dst);
  }

  /** In the middle of the backward loop: the text up to src is still unread, the expansion
      above dst is in place, and what lies above the expansion is untouched. */
  ghost predicate Halfway(was: string, b: string, whole: string, top: nat, src: int, dst: int) {
    && -1 <= src < |whole| <= top + 1 <= |b| == |was| && |Expand(whole)| == top + 1
    && dst + 1 == |Expand(whole[..src + 1])|
    && (forall k | 0 <= k <= src :: b[k] == whole[k])
    && (forall k | dst < k <= top && 0 <= k :: b[k] == Expand(whole)[k])
    && b[top + 1..] == was[top + 1..]
  }

  lemma StartHalfway(was: string, whole: string, top: nat)
    requires 0 < |whole| <= top + 1 <= |was| && |Expand(whole)| == top + 1 && was[..|whole|] == whole
    ensures Halfway(was, was, whole, top, |whole| - 1, top)
  {
    assert whole[..|whole| - 1 + 1] == whole;
    forall k | 0 <= k < |whole| ensures was[k] == whole[k] { assert was[..|whole|][k] == whole[k]; }
  }

  /** One turn: nothing still unread is overwritten. */
  lemma StepHalfway(was: string, b: string, whole: string, top: nat, src: nat, dst: int)
    requires Halfway(was, b, whole, top, src, dst)
    ensures src <= dst <= top && b[src] == whole[src]
    ensures if b[src] == '\n' then
              dst >= src + 1 &&
              Halfway(was, b[dst := '\r'][dst - 1 := b[src]], whole, top, src - 1, dst - 2)
            else Halfway(was, b[dst := b[src]], whole, top, src - 1, dst - 1)
  {
    hide Expand;
    ExpandedHere(whole, src);
    assert whole[..src - 1 + 1] == whole[..src];
  }

  lemma DoneHalfway(was: string, b: string, whole: string, top: nat, dst: int)
    requires Halfway(was, b, whole, top, -1, dst)
    ensures b[..top + 1] == Expand(whole) && b[top + 1..] == was[top + 1..]
  {
    NothingExpands();
    assert whole[..-1 + 1] == "";
  }

  lemma NothingExpands()
    ensures Expand("") == ""
  {}

  /** Where the character at src and the '\r' behind it go: their places in the expansion, at
      or above src. */
  lemma ExpandedHere(whole: string, src: nat)
    requires src < |whole|
    ensures var d := |Expand(whole[..src + 1])| - 1;
            var goal := Expand(whole);
            d < |goal| &&
            if whole[src] == '\n' then
              d >= src + 1 && goal[d] == '\r' && goal[d - 1] == '\n' && |Expand(whole[..src])| == d - 1
            else d >= src && goal[d] == whole[src] && |Expand(whole[..src])| == d
  {
    hide Expand, Newlines;
    ExpandNext(whole, src);
    assert whole[..src + 1] + whole[src + 1..] == whole;
    ExpandAppend(whole[..src + 1], whole[src + 1..]);
  }

  lemma WholeExpand(text: string)
    ensures Expand(text + "\0") == Expand(text) + "\0" && Newlines(text + "\0") == Newlines(text)
  {
    assert (text + "\0")[..|text|] == text;
  }

  lemma {:induction false} NoNewlines(s: string)
    requires Newlines(s) == 0
    ensures Expand(s) == s
  {
    if s == "" {
    } else {
      NoNewlines(s[..|s| - 1]);
    }
  }

  // --- By chunks -----------------------------------------------------------------------------

  /** How many of the firmware's answers accept at least one character. */
  function Productive(replies: seq<nat>): nat {
    if replies == [] then 0 else (if replies[0] > 0 then 1 else 0) + Productive(replies[1..])
  }

  /** The firmware console: what it has put out, and how many characters it will accept in
      each of its next calls; when the answers run out the run is cut short. */
  class Firmware {
    var out: string
    var replies: seq<nat>

    constructor (replies: seq<nat>)
      ensures this.replies == replies && out == ""
    {
      this.replies := replies;
      out := "";
    }

    /** callback_puts: some first part of s is put out. */
    method Puts(s: string) returns (c: nat)
      requires replies != []
      modifies this
      ensures c == if old(replies)[0] < |s| then old(replies)[0] else |s|
      ensures out == old(out) + s[..c] && replies == old(replies)[1..]
    {
      c := if replies[0] < |s| then replies[0] else |s|;
      out := out + s[..c];
      replies := replies[1..];
    }
  }

  const CHUNK: nat := 128

  /** The end of the chunk that starts at pos: after a line feed, or 128 characters on, or at
      the end of the text. */
  ghost predicate IsChunk(s: string, pos: nat, end: nat) {
    pos < end <= |s| && end - pos <= CHUNK &&
    (forall i | pos <= i < end - 1 :: s[i] != '\n') &&
    (end < |s| && end - pos < CHUNK ==> s[end - 1] == '\n')
  }

  lemma {:induction false} ChunkExpands(s: string, pos: nat, end: nat)
    requires IsChunk(s, pos, end)
    ensures Expand(s[..end]) == Expand(s[..pos]) + s[pos..end] + if s[end - 1] == '\n' then "\r" else ""
  {
    hide Expand;
    ExpandNext(s, end - 1);
    PlainExpands(s, pos, end - 1);
    assert s[pos..end] == s[pos..end - 1] + [s[end - 1]];
  }

  lemma {:induction false} PlainExpands(s: string, pos: nat, end: nat)
    requires pos <= end <= |s| && forall i | pos <= i < end :: s[i] != '\n'
    ensures Expand(s[..end]) == Expand(s[..pos]) + s[pos..end]
    decreases end
  {
    hide Expand;
    if pos == end {
    } else {
      PlainExpands(s, pos, end - 1);
      ExpandNext(s, end - 1);
      assert s[pos..end] == s[pos..end - 1] + [s[end - 1]];
    }
  }

  /** What the console shows after start, of a text that is to be expanded: `shown`, reached
      by answers of which `left` remain. */
  ghost predicate Shows(out: string, start: string, shown: string, replies: seq<nat>, left: seq<nat>) {
    out == start + shown && Productive(replies) <= |shown| + Productive(left)
  }

  method NextChunk(s: string, pos: nat) returns (end: nat, needCr: bool)
    requires pos < |s|
    ensures IsChunk(s, pos, end) && needCr == (s[end - 1] == '\n')
  {
    needCr := false;
    end := pos;
    while end - pos < CHUNK && end < |s| && !needCr
      invariant pos <= end <= |s| && end - pos <= CHUNK
      invariant needCr ==> pos < end && s[end - 1] == '\n'
      invariant forall i | pos <= i < if needCr then end - 1 else end :: s[i] != '\n'
      decreases |s| - end
    {
      if s[end] == '\n' { needCr := true; }
      end := end + 1;
    }
  }

  lemma NextPart(start: string, shown: string, text: string, i: nat, c: nat)
    requires i + c <= |text|
    ensures start + (shown + text[..i]) + text[i..][..c] == start + (shown + text[..i + c])
  {
    assert text[..i + c] == text[..i] + text[i..][..c];
  }

  /** Putting out `text`, however the firmware splits it. */
  method PutAll(fw: Firmware, text: string, ghost start: string, ghost shown: string, ghost replies: seq<nat>)
    returns (ok: bool, ghost n: nat)
    requires Shows(fw.out, start, shown, replies, fw.replies)
    modifies fw
    ensures n <= |text| && (ok <==> n == |text|) && (!ok ==> fw.replies == [])
    ensures Shows(fw.out, start, shown + text[..n], replies, fw.replies)
  {
    n := 0;
    var i := 0;
    assert shown + text[..0] == shown;
    while i < |text|
      invariant n == i <= |text|
      invariant Shows(fw.out, start, shown + text[..i], replies, fw.replies)
      decreases |fw.replies|
    {
      if fw.replies == [] { return false, n; }
      ghost var left := fw.replies;
      var c := fw.Puts(text[i..]);
      NextPart(start, shown, text, i, c);
      i := i + c;
      n := i;
    }
    return true, n;
  }

  /** srmcons_do_write: whatever the firmware accepts call by call, the console shows a prefix
      of the expanded text, and all of it once the loops end; they do end as soon as there are
      as many productive answers as characters to show. */
  method DoWrite(fw: Firmware, s: string) returns (done: bool)
    modifies fw
    ensures done ==> fw.out == old(fw.out) + Expand(s)
    ensures !done ==> fw.replies == [] && old(fw.out) <= fw.out < old(fw.out) + Expand(s)
    ensures Productive(old(fw.replies)) >= |Expand(s)| ==> done
  {
    hide Expand, Productive, IsChunk;
    ghost var start, replies := fw.out, fw.replies;
    var pos := 0;
    NothingExpands();
    assert s[..0] == "";
    while pos < |s|
      invariant pos <= |s| && Shows(fw.out, start, Expand(s[..pos]), replies, fw.replies)
      decreases |s| - pos
    {
      var end, needCr := NextChunk(s, pos);
      ChunkInside(s, pos, end);
      ghost var shown := Expand(s[..pos]);
      var ok, n := PutAll(fw, s[pos..end], start, shown, replies);
      if !ok {
        Unfinished(s, pos, end, n, fw.out, start, replies);
        return false;
      }
      assert s[pos..end][..n] == s[pos..end];
      if needCr {
        ok, n := PutAll(fw, "\r", start, shown + s[pos..end], replies);
        if !ok {
          assert n == 0;
          Unfinished(s, pos, end, |s[pos..end]|, fw.out, start, replies);
          return false;
        }
        assert "\r"[..n] == "\r";
      }
      pos := end;
    }
    assert s[..pos] == s;
    return true;
  }

  lemma ChunkInside(s: string, pos: nat, end: nat)
    requires IsChunk(s, pos, end)
    ensures pos < end <= |s|
    ensures Expand(s[..end]) == Expand(s[..pos]) + s[pos..end] + if s[end - 1] == '\n' then "\r" else ""
  {
    ChunkExpands(s, pos, end);
  }

  /** Stopping inside a chunk, for lack of answers, stops short of the whole. */
  lemma Unfinished(s: string, pos: nat, end: nat, n: nat, out: string, start: string, replies: seq<nat>)
    requires IsChunk(s, pos, end) && n <= end - pos && (n == end - pos ==> s[end - 1] == '\n')
    requires Shows(out, start, Expand(s[..pos]) + s[pos..end][..n], replies, [])
    ensures start <= out < start + Expand(s)
    ensures Productive(replies) < |Expand(s)|
  {
    hide Expand, Productive, IsChunk;
    ChunkInside(s, pos, end);
    assert s[..end] + s[end..] == s;
    ExpandAppend(s[..end], s[end..]);
    var e := Expand(s[..pos]);
    StrictPrefix(e, s[pos..end], n, if s[end - 1] == '\n' then "\r" else "", Expand(s[end..]));
    PrefixBehind(start, e + s[pos..end][..n], Expand(s));
    assert Productive([]) == 0 by { NoAnswers(); }
  }

  lemma NoAnswers()
    ensures Productive([]) == 0
  {}

  lemma StrictPrefix(a: string, b: string, n: nat, c: string, d: string)
    requires n <= |b| && (n == |b| ==> c != "")
    ensures a + b[..n] < a + b + c + d
  {
    assert a + b + c + d == (a + b[..n]) + (b[n..] + c + d);
  }

  lemma PrefixBehind(start: string, a: string, b: string)
    requires a < b
    ensures start <= start + a < start + b && |a| < |b|
  {
    assert b == a + b[|a|..];
    assert start + b == (start + a) + b[|a|..];
  }
}
