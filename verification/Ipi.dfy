/** Interprocessor interrupts: send_ipi_message against handle_ipi, for any number of CPUs
    and any number of concurrent senders.  Each set_bit, wripir, interrupt entry, xchg and
    dispatch is one step.  IPI_CPU_STOP, which halts the handler, is not sent. */
module Ipi {
  import opened Arith

  const IPI_CPU_STOP := 3

  /** Bit `op` of the message word of a CPU. */
  datatype Bit = Bit(cpu: nat, op: nat)

  /** One send_ipi_message call's message to one CPU. */
  datatype Msg = Msg(id: nat, bit: Bit)

  /** A send_ipi_message call: its targets, the CPUs whose bit it has not set yet, and those
      it has not interrupted yet. */
  datatype Sender = Sender(op: nat, whom: set<nat>, toSet: set<nat>, toRing: set<nat>)

  datatype State = State(
    bits: set<Bit>,              // ipi_data[].bits
    pending: set<nat>,           // CPUs with an interprocessor interrupt pending
    active: set<nat>,            // CPUs inside handle_ipi
    local: set<Bit>,             // the `ops` word of each active handler
    senders: map<nat, Sender>,
    used: set<nat>,              // identities of all send_ipi_message calls so far
    waiting: set<Msg>,           // history: messages whose bit is set in `bits`
    fetched: set<Msg>,           // history: messages taken by an xchg, not yet dispatched
    handled: set<Msg>)           // history: messages dispatched

  // --- Steps ---------------------------------------------------------------------------

  ghost predicate Init(s: State) {
    s == State({}, {}, {}, {}, map[], {}, {}, {}, {})
  }

  ghost predicate StartSend(s: State, t: State, id: nat, op: nat, whom: set<nat>) {
    id !in s.used && op != IPI_CPU_STOP &&
    t == s.(senders := s.senders[id := Sender(op, whom, whom, whom)], used := s.used + {id})
  }

  ghost predicate SetBit(s: State, t: State, id: nat, c: nat) {
    id in s.senders && c in s.senders[id].toSet &&
    var snd := s.senders[id];
    t == s.(bits := s.bits + {Bit(c, snd.op)},
            waiting := s.waiting + {Msg(id, Bit(c, snd.op))},
            senders := s.senders[id := snd.(toSet := snd.toSet - {c})])
  }

  /** The second loop of send_ipi_message: all bits are set before the first wripir. */
  ghost predicate Ring(s: State, t: State, id: nat, c: nat) {
    id in s.senders && s.senders[id].toSet == {} && c in s.senders[id].toRing &&
    var snd := s.senders[id];
    t == s.(pending := s.pending + {c}, senders := s.senders[id := snd.(toRing := snd.toRing - {c})])
  }

  ghost predicate EnterHandler(s: State, t: State, c: nat) {
    c in s.pending && c !in s.active &&
    t == s.(pending := s.pending - {c}, active := s.active + {c})
  }

  ghost predicate NoLocal(s: State, c: nat) {
    forall b | b in s.local :: b.cpu != c
  }

  ghost function BitsOf(bits: set<Bit>, c: nat): set<Bit> {
    set b | b in bits && b.cpu == c
  }

  ghost function MsgsOf(msgs: set<Msg>, c: nat): set<Msg> {
    set m | m in msgs && m.bit.cpu == c
  }

  /** `ops = xchg(pending_ipis, 0)`: an empty word ends the handler. */
  ghost predicate Xchg(s: State, t: State, c: nat) {
    c in s.active && NoLocal(s, c) &&
    t == if BitsOf(s.bits, c) == {} then s.(active := s.active - {c})
         else s.(bits := s.bits - BitsOf(s.bits, c), local := s.local + BitsOf(s.bits, c),
                 waiting := s.waiting - MsgsOf(s.waiting, c), fetched := s.fetched + MsgsOf(s.waiting, c))
  }

  /** The lowest bit of the fetched word is cleared and its operation called. */
  ghost predicate Dispatch(s: State, t: State, b: Bit) {
    b.cpu in s.active && b in s.local && (forall x | x in s.local && x.cpu == b.cpu :: b.op <= x.op) &&
    var done := set m | m in s.fetched && m.bit == b;
    t == s.(local := s.local - {b}, fetched := s.fetched - done, handled := s.handled + done)
  }

  ghost predicate Next(s: State, t: State) {
    || (exists id, op, whom :: StartSend(s, t, id, op, whom))
    || (exists id, c :: SetBit(s, t, id, c))
    || (exists id, c :: Ring(s, t, id, c))
    || (exists c :: EnterHandler(s, t, c))
    || (exists c :: Xchg(s, t, c))
    || (exists b :: Dispatch(s, t, b))
  }

  ghost predicate Run(run: seq<State>) {
    |run| > 0 && Init(run[0]) && forall i | 0 <= i < |run| - 1 :: Next(run[i], run[i + 1])
  }

  // --- Invariant -----------------------------------------------------------------------

  /** A set of bits and the messages behind it. */
  ghost predicate BitsMatch(bits: set<Bit>, msgs: set<Msg>) {
    (forall m | m in msgs :: m.bit in bits) && (forall b | b in bits :: exists m :: m in msgs && m.bit == b)
  }

  /** The sender of m has not yet interrupted m's CPU. */
  ghost predicate OwesRing(s: State, m: Msg) {
    m.id in s.senders && m.bit.cpu in s.senders[m.id].toRing
  }

  ghost predicate WillBeSeen(s: State, m: Msg) {
    m.bit.cpu in s.pending || m.bit.cpu in s.active || OwesRing(s, m)
  }

  /** A call sends each CPU one message, when it sets that CPU's bit. */
  ghost predicate SentOk(s: State, m: Msg) {
    m.id in s.used && m.id in s.senders && m.bit.op == s.senders[m.id].op && m.bit.cpu !in s.senders[m.id].toSet
  }

  ghost function Sent(s: State): set<Msg> {
    s.waiting + s.fetched + s.handled
  }

  ghost predicate SenderOk(s: State, id: nat)
    requires id in s.senders
  {
    var snd := s.senders[id];
    id in s.used && snd.op != IPI_CPU_STOP && snd.toSet <= snd.toRing <= snd.whom &&
    forall c | c in snd.whom - snd.toSet :: Msg(id, Bit(c, snd.op)) in Sent(s)
  }

  ghost predicate Inv(s: State) {
    && BitsMatch(s.bits, s.waiting) && BitsMatch(s.local, s.fetched)
    && (forall b | b in s.local :: b.cpu in s.active)
    && (forall m | m in s.waiting :: WillBeSeen(s, m))
    && (forall m | m in Sent(s) :: SentOk(s, m))
    && (forall id | id in s.senders :: SenderOk(s, id))
    && s.waiting !! s.fetched && s.waiting !! s.handled && s.fetched !! s.handled
  }

  lemma StartSendKeepsInv(s: State, t: State, id: nat, op: nat, whom: set<nat>)
    requires Inv(s) && StartSend(s, t, id, op, whom)
    ensures Inv(t)
  {
    forall m | m in Sent(t) ensures SentOk(t, m) { assert SentOk(s, m); }
    forall m | m in t.waiting ensures WillBeSeen(t, m) { assert SentOk(s, m) && WillBeSeen(s, m); }
    forall i | i in t.senders ensures SenderOk(t, i) { if i != id { assert SenderOk(s, i); } }
  }

  lemma SetBitKeepsInv(s: State, t: State, id: nat, c: nat)
    requires Inv(s) && SetBit(s, t, id, c)
    ensures Inv(t)
  {
    var new_ := Msg(id, Bit(c, s.senders[id].op));
    assert SenderOk(s, id);
    assert new_ in Sent(s) ==> SentOk(s, new_);
    forall m | m in Sent(t) ensures SentOk(t, m) { if m != new_ { assert SentOk(s, m); } }
    forall m | m in t.waiting ensures WillBeSeen(t, m) { if m != new_ { assert WillBeSeen(s, m); } }
    forall i | i in t.senders ensures SenderOk(t, i) { assert SenderOk(s, i); }
    forall b | b in t.bits ensures exists m :: m in t.waiting && m.bit == b {
      if b in s.bits {
        var m :| m in s.waiting && m.bit == b;
        assert m in t.waiting;
      } else {
        assert new_ in t.waiting;
      }
    }
  }

  lemma RingKeepsInv(s: State, t: State, id: nat, c: nat)
    requires Inv(s) && Ring(s, t, id, c)
    ensures Inv(t)
  {
    forall m | m in Sent(t) ensures SentOk(t, m) { assert SentOk(s, m); }
    forall m | m in t.waiting ensures WillBeSeen(t, m) { assert WillBeSeen(s, m); }
    forall i | i in t.senders ensures SenderOk(t, i) { assert SenderOk(s, i); }
  }

  lemma EnterHandlerKeepsInv(s: State, t: State, c: nat)
    requires Inv(s) && EnterHandler(s, t, c)
    ensures Inv(t)
  {
    forall m | m in t.waiting ensures WillBeSeen(t, m) { assert WillBeSeen(s, m); }
    forall m | m in Sent(t) ensures SentOk(t, m) { assert SentOk(s, m); }
    forall i | i in t.senders ensures SenderOk(t, i) { assert SenderOk(s, i); }
  }

  lemma XchgKeepsInv(s: State, t: State, c: nat)
    requires Inv(s) && Xchg(s, t, c)
    ensures Inv(t)
  {
    forall m | m in t.waiting ensures WillBeSeen(t, m) {
      assert WillBeSeen(s, m) && m.bit in s.bits;
      assert m.bit.cpu == c ==> m.bit in BitsOf(s.bits, c) && m in MsgsOf(s.waiting, c);
    }
    assert Sent(t) == Sent(s);
    forall m | m in Sent(t) ensures SentOk(t, m) { assert SentOk(s, m); }
    forall i | i in t.senders ensures SenderOk(t, i) { assert SenderOk(s, i); }
    if BitsOf(s.bits, c) != {} {
      MatchSplit(s.bits, s.waiting, s.local, s.fetched, c);
    }
  }

  lemma MatchSplit(bits: set<Bit>, waiting: set<Msg>, local: set<Bit>, fetched: set<Msg>, c: nat)
    requires BitsMatch(bits, waiting) && BitsMatch(local, fetched)
    ensures BitsMatch(bits - BitsOf(bits, c), waiting - MsgsOf(waiting, c))
    ensures BitsMatch(local + BitsOf(bits, c), fetched + MsgsOf(waiting, c))
  {
    forall b | b in bits - BitsOf(bits, c)
      ensures exists m :: m in waiting - MsgsOf(waiting, c) && m.bit == b
    {
      var m :| m in waiting && m.bit == b;
      assert m in waiting - MsgsOf(waiting, c);
    }
    forall b | b in local + BitsOf(bits, c)
      ensures exists m :: m in fetched + MsgsOf(waiting, c) && m.bit == b
    {
      var m :| (m in fetched || m in waiting) && m.bit == b && (b in local ==> m in fetched);
      assert m in fetched + MsgsOf(waiting, c);
    }
  }

  lemma DispatchKeepsInv(s: State, t: State, b: Bit)
    requires Inv(s) && Dispatch(s, t, b)
    ensures Inv(t)
  {
    var done := set m | m in s.fetched && m.bit == b;
    assert Sent(t) == Sent(s);
    forall m | m in Sent(t) ensures SentOk(t, m) { assert SentOk(s, m); }
    forall m | m in t.waiting ensures WillBeSeen(t, m) { assert WillBeSeen(s, m); }
    forall i | i in t.senders ensures SenderOk(t, i) { assert SenderOk(s, i); }
    forall x | x in t.local ensures exists m :: m in t.fetched && m.bit == x {
      var m :| m in s.fetched && m.bit == x;
      assert m in t.fetched;
    }
  }

  lemma NextKeepsInv(s: State, t: State)
    requires Inv(s) && Next(s, t)
    ensures Inv(t)
  {
    hide Inv;
    if id, op, whom :| StartSend(s, t, id, op, whom) {
      StartSendKeepsInv(s, t, id, op, whom);
    } else if id, c :| SetBit(s, t, id, c) {
      SetBitKeepsInv(s, t, id, c);
    } else if id, c :| Ring(s, t, id, c) {
      RingKeepsInv(s, t, id, c);
    } else if c :| EnterHandler(s, t, c) {
      EnterHandlerKeepsInv(s, t, c);
    } else if c :| Xchg(s, t, c) {
      XchgKeepsInv(s, t, c);
    } else if b :| Dispatch(s, t, b) {
      DispatchKeepsInv(s, t, b);
    }
  }

  lemma {:induction false} RunKeepsInv(run: seq<State>, i: nat)
    requires Run(run) && i < |run|
    ensures Inv(run[i])
  {
    if i == 0 {
    } else {
      RunKeepsInv(run, i - 1);
      NextKeepsInv(run[i - 1], run[i]);
    }
  }

  // --- No message is lost ----------------------------------------------------------------

  /** In every reachable state a set message bit is owed attention: an interrupt is pending,
      the handler is still in its loop, or a sender that set this very bit has yet to ring. */
  lemma SetBitIsNoticed(run: seq<State>, i: nat, b: Bit)
    requires Run(run) && i < |run| && b in run[i].bits
    ensures b.cpu in run[i].pending || b.cpu in run[i].active ||
            exists id :: id in run[i].senders && run[i].senders[id].op == b.op && b.cpu in run[i].senders[id].toRing
  {
    RunKeepsInv(run, i);
    var s := run[i];
    var m :| m in s.waiting && m.bit == b;
    assert WillBeSeen(s, m) && SentOk(s, m);
  }

  ghost predicate Quiescent(s: State) {
    s.pending == {} && s.active == {} &&
    forall id | id in s.senders :: s.senders[id].toSet == {} && s.senders[id].toRing == {}
  }

  /** When everything has come to rest, every message of every call has been dispatched, and
      no bit is left set. */
  lemma NoIpiLost(run: seq<State>, i: nat)
    requires Run(run) && i < |run| && Quiescent(run[i])
    ensures var s := run[i];
            s.bits == {} && s.local == {} &&
            forall id, c | id in s.senders && c in s.senders[id].whom ::
              Msg(id, Bit(c, s.senders[id].op)) in s.handled
  {
    RunKeepsInv(run, i);
    var s := run[i];
    assert forall m | m in s.waiting :: WillBeSeen(s, m);
    assert s.waiting == {};
    forall id, c | id in s.senders && c in s.senders[id].whom
      ensures Msg(id, Bit(c, s.senders[id].op)) in s.handled
    {
      assert SenderOk(s, id);
    }
  }

  /** A message is fetched only after a state in which its bit was set. */
  lemma {:induction false} FetchedWasSet(run: seq<State>, j: nat, m: Msg) returns (i: nat)
    requires Run(run) && j < |run| && m in run[j].fetched
    ensures i < j && m in run[i].waiting && m.bit in run[i].bits
  {
    hide Next, StartSend, SetBit, Ring, EnterHandler, Xchg, Dispatch;
    if m in run[j - 1].fetched {
      i := FetchedWasSet(run, j - 1, m);
    } else {
      i := j - 1;
      RunKeepsInv(run, i);
      FetchedByXchg(run[i], run[j], m);
    }
  }

  lemma FetchedByXchg(s: State, t: State, m: Msg)
    requires Inv(s) && Next(s, t) && m in t.fetched && m !in s.fetched
    ensures m in s.waiting && m.bit in s.bits
  {
    if c :| Xchg(s, t, c) {
      assert m in MsgsOf(s.waiting, c);
    }
  }

  lemma HandledByDispatch(s: State, t: State, m: Msg)
    requires Next(s, t) && m in t.handled && m !in s.handled
    ensures Dispatch(s, t, m.bit) && m in s.fetched
  {
    if b :| Dispatch(s, t, b) {
      assert m.bit == b;
    }
  }

  lemma HandledForGood(s: State, t: State, m: Msg)
    requires Next(s, t) && m in s.handled
    ensures m in t.handled
  {}

  /** Every handled message was handled by a dispatch of its own bit that began after the
      bit had been set. */
  lemma {:induction false} HandledAfterSet(run: seq<State>, j: nat, m: Msg) returns (i: nat, k: nat)
    requires Run(run) && j < |run| && m in run[j].handled
    ensures i < k < j && m in run[i].waiting && m.bit in run[i].bits
    ensures Dispatch(run[k], run[k + 1], m.bit) && m in run[k].fetched
  {
    hide Next, StartSend, SetBit, Ring, EnterHandler, Xchg, Dispatch;
    if m in run[j - 1].handled {
      i, k := HandledAfterSet(run, j - 1, m);
    } else {
      k := j - 1;
      HandledByDispatch(run[k], run[j], m);
      i := FetchedWasSet(run, k, m);
    }
  }

  /** And it is handled once: a handled message is never waiting or fetched again. */
  lemma HandledOnce(run: seq<State>, i: nat, j: nat, m: Msg)
    requires Run(run) && i <= j < |run| && m in run[i].handled
    ensures m in run[j].handled && m !in run[j].waiting && m !in run[j].fetched
    decreases j - i
  {
    hide Next, StartSend, SetBit, Ring, EnterHandler, Xchg, Dispatch;
    RunKeepsInv(run, j);
    if i == j {
    } else {
      HandledOnce(run, i, j - 1, m);
      HandledForGood(run[j - 1], run[j], m);
    }
  }

  // --- The loop over one fetched word ------------------------------------------------------

  predicate HasBit(word: nat, i: nat)
    decreases i
  {
    if i == 0 then word % 2 == 1 else HasBit(word / 2, i - 1)
  }

  /** __ffs: the index of the lowest set bit; `ops & -ops` is that bit alone. */
  function Ffs(word: nat): (i: nat)
    requires word > 0
    ensures HasBit(word, i) && forall k | 0 <= k < i :: !HasBit(word, k)
  {
    if word % 2 == 1 then 0
    else
      var j := Ffs(word / 2);
      assert forall k | 0 < k < j + 1 :: HasBit(word, k) == HasBit(word / 2, k - 1);
      j + 1
  }

  /** Clearing the lowest set bit clears that bit and no other. */
  lemma {:induction false} ClearLowest(word: nat, i: nat)
    requires word > 0
    ensures Pow2(Ffs(word)) <= word
    ensures HasBit(word - Pow2(Ffs(word)), i) <==> HasBit(word, i) && i != Ffs(word)
    decreases word
  {
    if word % 2 == 1 {
    } else {
      ClearLowest(word / 2, if i == 0 then 0 else i - 1);
      assert (word - Pow2(Ffs(word))) / 2 == word / 2 - Pow2(Ffs(word / 2));
    }
  }

  lemma {:induction false} NoBits(i: nat)
    ensures !HasBit(0, i)
  {
    if i == 0 {
    } else {
      NoBits(i - 1);
    }
  }

  ghost predicate Ascending(s: seq<nat>) {
    forall j, k | 0 <= j < k < |s| :: s[j] < s[k]
  }

  /** Midway through a word: what was called so far lies below what is left. */
  ghost predicate Drained(word: nat, called: seq<nat>, ops: nat) {
    && (forall i: nat :: HasBit(word, i) <==> i in called || HasBit(ops, i))
    && (forall i: nat, c | HasBit(ops, i) && c in called :: c < i)
    && (forall j, k | 0 <= j < k < |called| :: called[j] < called[k])
  }

  lemma DrainStep(word: nat, called: seq<nat>, ops: nat)
    requires Drained(word, called, ops) && ops > 0
    ensures 0 < Pow2(Ffs(ops)) <= ops
    ensures Drained(word, called + [Ffs(ops)], ops - Pow2(Ffs(ops)))
  {
    hide HasBit, Pow2;
    var which := Ffs(ops);
    ClearLowest(ops, 0);
    var rest: nat := ops - Pow2(which);
    forall i: nat
      ensures HasBit(rest, i) <==> HasBit(ops, i) && i != which
    {
      ClearLowest(ops, i);
    }
    var more := called + [which];
    forall i: nat
      ensures i in more <==> i in called || i == which
    {
      if i in called || i == which { assert more[|called|] == which; }
    }
    forall i: nat, c | HasBit(rest, i) && c in more
      ensures c < i
    {
      assert HasBit(ops, i) && i != which;
      assert c in called || c == which;
    }
    forall i: nat
      ensures HasBit(word, i) <==> i in more || HasBit(rest, i)
    {
      assert HasBit(ops, which);
    }
    forall j, k | 0 <= j < k < |more|
      ensures more[j] < more[k]
    {
      assert more[j] in called && (k < |called| || more[k] == which);
    }
  }

  /** The do-while of handle_ipi: the operations called for one fetched word are exactly its
      set bits, each once, lowest first. */
  method DrainWord(word: nat) returns (called: seq<nat>)
    requires word > 0
    ensures forall i: nat :: i in called <==> HasBit(word, i)
    ensures Ascending(called)
  {
    hide HasBit, Pow2, Ffs;
    called := [];
    var ops: nat := word;
    while ops > 0
      invariant Drained(word, called, ops)
      decreases ops
    {
      DrainStep(word, called, ops);
      var which := Ffs(ops);
      ops := ops - Pow2(which);
      called := called + [which];
    }
    forall i: nat
      ensures !HasBit(0, i)
    {
      NoBits(i);
    }
  }

  // --- The word and the steps agree --------------------------------------------------------

  /** A step takes operation op of CPU c off the fetched bits; only a dispatch does. */
  ghost predicate Takes(s: State, t: State, c: nat, op: nat) {
    Bit(c, op) in s.local && Bit(c, op) !in t.local
  }

  /** A step adds to the fetched bits of CPU c; only an xchg does. */
  ghost predicate Fetches(s: State, t: State, c: nat) {
    exists op: nat :: Bit(c, op) in t.local && Bit(c, op) !in s.local
  }

  /** A CPU's fetched bits change only by its own xchg and its own dispatch, and the dispatch takes
      the lowest. */
  lemma TakesLowest(s: State, t: State, c: nat, op: nat)
    requires Next(s, t) && Takes(s, t, c, op)
    ensures Dispatch(s, t, Bit(c, op)) && forall x: nat | Bit(c, x) in s.local :: op <= x
    ensures forall x: nat :: Bit(c, x) in t.local <==> Bit(c, x) in s.local && x != op
  {
    hide StartSend, SetBit, Ring, EnterHandler;
    if b :| Dispatch(s, t, b) {
      assert b == Bit(c, op);
      forall x: nat | Bit(c, x) in s.local
        ensures op <= x
      {
        assert Bit(c, x).cpu == b.cpu;
      }
    } else {
      OnlyDispatchTakes(s, t, c, op);
    }
  }

  lemma OnlyDispatchTakes(s: State, t: State, c: nat, op: nat)
    requires Next(s, t) && Takes(s, t, c, op)
    ensures exists b :: Dispatch(s, t, b)
  {}

  /** The operations that CPU c dispatched in the steps from state i to state j, in order. */
  ghost function Called(run: seq<State>, c: nat, i: nat, j: nat): seq<nat>
    requires i <= j < |run|
    decreases j - i
  {
    if i == j then [] else Called(run, c, i, j - 1) + Taken(run[j - 1], run[j], c)
  }

  ghost predicate TakesAny(s: State, t: State, c: nat) {
    exists op: nat :: Takes(s, t, c, op)
  }

  /** The operation that one step takes, if any. */
  ghost function Taken(s: State, t: State, c: nat): (r: seq<nat>)
    ensures |r| <= 1
    ensures if r == [] then !TakesAny(s, t, c) else Takes(s, t, c, r[0])
  {
    if TakesAny(s, t, c) then
      var op: nat :| Takes(s, t, c, op);
      [op]
    else []
  }

  /** Between two xchgs: what was called so far and what is left make up what was fetched, and
      everything called lies below what is left. */
  lemma {:induction false} CalledSoFar(run: seq<State>, c: nat, i: nat, j: nat)
    requires Run(run) && i <= j < |run| && forall t | i <= t < j :: !Fetches(run[t], run[t + 1], c)
    ensures Ascending(Called(run, c, i, j))
    ensures forall op: nat :: Bit(c, op) in run[i].local <==> op in Called(run, c, i, j) || Bit(c, op) in run[j].local
    ensures forall op: nat, d | Bit(c, op) in run[j].local && d in Called(run, c, i, j) :: d < op
    decreases j - i
  {
    hide Next, Fetches, Takes, TakesAny, Ascending;
    if i == j {
      NoneAscending();
    } else {
      var pre, s, t := Called(run, c, i, j - 1), run[j - 1], run[j];
      CalledSoFar(run, c, i, j - 1);
      NothingFetched(s, t, c);
      if TakesAny(s, t, c) {
        var op := Taken(s, t, c)[0];
        assert Called(run, c, i, j) == pre + [op];
        TakesLowest(s, t, c, op);
        OneMoreCalled(run[i].local, s.local, t.local, c, pre, op);
      } else {
        assert Called(run, c, i, j) == pre;
        NothingTaken(s, t, c);
      }
    }
  }

  lemma NoneAscending()
    ensures Ascending([])
  {}

  lemma NothingTaken(s: State, t: State, c: nat)
    requires !TakesAny(s, t, c)
    ensures forall op: nat | Bit(c, op) in s.local :: Bit(c, op) in t.local
  {
    forall op: nat | Bit(c, op) in s.local
      ensures Bit(c, op) in t.local
    {
      assert !Takes(s, t, c, op);
    }
  }

  lemma NothingFetched(s: State, t: State, c: nat)
    requires !Fetches(s, t, c)
    ensures forall op: nat | Bit(c, op) in t.local :: Bit(c, op) in s.local
  {}

  lemma OneMoreCalled(first: set<Bit>, before: set<Bit>, after: set<Bit>, c: nat, pre: seq<nat>, op: nat)
    requires Ascending(pre) && Bit(c, op) in before && forall x: nat | Bit(c, x) in before :: op <= x
    requires forall x: nat :: Bit(c, x) in after <==> Bit(c, x) in before && x != op
    requires forall x: nat :: Bit(c, x) in first <==> x in pre || Bit(c, x) in before
    requires forall x: nat, d | Bit(c, x) in before && d in pre :: d < x
    ensures Ascending(pre + [op])
    ensures forall x: nat :: Bit(c, x) in first <==> x in pre + [op] || Bit(c, x) in after
    ensures forall x: nat, d | Bit(c, x) in after && d in pre + [op] :: d < x
  {
    var more := pre + [op];
    forall x: nat
      ensures x in more <==> x in pre || x == op
    {
      if x in pre || x == op { assert more[|pre|] == op; }
    }
    forall j, k | 0 <= j < k < |more|
      ensures more[j] < more[k]
    {
      assert more[j] in pre && (k < |pre| || more[k] == op);
    }
  }

  /** An ascending list is determined by its elements. */
  lemma {:induction false} AscendingUnique(s: seq<nat>, t: seq<nat>)
    requires Ascending(s) && Ascending(t) && forall x: nat :: x in s <==> x in t
    ensures s == t
    decreases |s|
  {
    if s == [] {
      NoElements(t);
    } else {
      LastIsGreatest(s, t);
      LastIsGreatest(t, s);
      var s', t' := s[..|s| - 1], t[..|t| - 1];
      forall x: nat
        ensures x in s' <==> x in t'
      {
        InitOfAscending(s, x);
        InitOfAscending(t, x);
      }
      AscendingUnique(s', t');
      assert s == s' + [s[|s| - 1]] && t == t' + [t[|t| - 1]];
    }
  }

  lemma NoElements(t: seq<nat>)
    ensures t == [] || exists x: nat :: x in t
  {
    if t != [] { assert t[0] in t; }
  }

  lemma LastIsGreatest(s: seq<nat>, t: seq<nat>)
    requires s != [] && Ascending(s) && Ascending(t) && forall x: nat :: x in s ==> x in t
    ensures t != [] && s[|s| - 1] <= t[|t| - 1]
  {
    var x := s[|s| - 1];
    assert x in s;
    assert x in t;
    var k :| 0 <= k < |t| && t[k] == x;
    assert k < |t| - 1 ==> t[k] < t[|t| - 1];
  }

  lemma InitOfAscending(s: seq<nat>, x: nat)
    requires s != [] && Ascending(s)
    ensures x in s[..|s| - 1] <==> x in s && x != s[|s| - 1]
  {
    if x in s[..|s| - 1] {
      var k :| 0 <= k < |s| - 1 && s[k] == x;
      assert s[k] < s[|s| - 1];
    }
    if x in s && x != s[|s| - 1] {
      var k :| 0 <= k < |s| && s[k] == x;
      assert s[..|s| - 1][k] == x;
    }
  }

  /** The handler's loop over a fetched word and the dispatch steps are the same thing: once a
      CPU's fetched bits, those of `word`, are used up, its dispatches went through exactly what
      DrainWord returns for that word, in that order. */
  lemma DispatchesDrainWord(run: seq<State>, c: nat, i: nat, j: nat, word: nat, drained: seq<nat>)
    requires Run(run) && i <= j < |run| && forall t | i <= t < j :: !Fetches(run[t], run[t + 1], c)
    requires forall op: nat :: HasBit(word, op) <==> Bit(c, op) in run[i].local
    requires NoLocal(run[j], c)
    requires Ascending(drained) && forall op: nat :: op in drained <==> HasBit(word, op)
    ensures Called(run, c, i, j) == drained
  {
    hide Run, HasBit, Called, Fetches;
    CalledSoFar(run, c, i, j);
    assert forall op: nat :: Bit(c, op) !in run[j].local by {
      forall op: nat ensures Bit(c, op) !in run[j].local { assert Bit(c, op).cpu == c; }
    }
    AscendingUnique(Called(run, c, i, j), drained);
  }
}
