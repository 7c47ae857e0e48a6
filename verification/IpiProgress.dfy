/** Interprocessor interrupts come to rest: with no new send_ipi_message call every schedule
    of the steps ends, and where it ends every message has been handled. */
module IpiProgress {
  import opened Ipi

  datatype Pair = Pair(id: nat, cpu: nat)

  ghost function ToSet(s: State): set<Pair> {
    set id, c | id in s.senders && c in s.senders[id].toSet :: Pair(id, c)
  }

  ghost function ToRing(s: State): set<Pair> {
    set id, c | id in s.senders && c in s.senders[id].toRing :: Pair(id, c)
  }

  /** An upper bound on the steps that are left. */
  ghost function Work(s: State): nat {
    3 * |ToSet(s)| + 3 * |ToRing(s)| + 2 * |s.bits| + |s.local| + 2 * |s.pending| + |s.active|
  }

  /** A step other than the start of a call. */
  ghost predicate Inner(s: State, t: State) {
    || (exists id, c :: SetBit(s, t, id, c))
    || (exists id, c :: Ring(s, t, id, c))
    || (exists c :: EnterHandler(s, t, c))
    || (exists c :: Xchg(s, t, c))
    || (exists b :: Dispatch(s, t, b))
  }

  lemma SubsetSize<T>(x: set<T>, y: set<T>)
    requires x <= y
    ensures |x| <= |y| && |y - x| == |y| - |x|
  {
    assert y == x + (y - x);
  }

  lemma SetBitShrinks(s: State, t: State, id: nat, c: nat)
    requires SetBit(s, t, id, c)
    ensures Work(t) < Work(s)
  {
    assert Pair(id, c) in ToSet(s) && ToSet(t) == ToSet(s) - {Pair(id, c)};
    assert ToRing(t) == ToRing(s);
  }

  lemma RingShrinks(s: State, t: State, id: nat, c: nat)
    requires Ring(s, t, id, c)
    ensures Work(t) < Work(s)
  {
    assert Pair(id, c) in ToRing(s) && ToRing(t) == ToRing(s) - {Pair(id, c)};
    assert ToSet(t) == ToSet(s);
  }

  lemma XchgShrinks(s: State, t: State, c: nat)
    requires Xchg(s, t, c)
    ensures Work(t) < Work(s)
  {
    hide NoLocal, MsgsOf;
    assert ToSet(t) == ToSet(s) && ToRing(t) == ToRing(s) by { SameOwed(s, t); }
    WordMoves(s.bits, s.local, BitsOf(s.bits, c));
    if BitsOf(s.bits, c) == {} { assert |t.active| < |s.active|; }
  }

  lemma SameOwed(s: State, t: State)
    requires s.senders == t.senders
    ensures ToSet(t) == ToSet(s) && ToRing(t) == ToRing(s)
  {}

  lemma WordMoves(bits: set<Bit>, local: set<Bit>, word: set<Bit>)
    requires word <= bits
    ensures 2 * |bits - word| + |local + word| <= 2 * |bits| + |local| - |word|
    ensures word != {} ==> |word| > 0
  {
    SubsetSize(word, bits);
    assert |local + word| == |local| + |word| - |local * word|;
  }

  /** Every inner step brings the end nearer, whichever CPU or sender takes it. */
  lemma InnerShrinks(s: State, t: State)
    requires Inner(s, t)
    ensures Work(t) < Work(s)
  {
    hide Work;
    if id, c :| SetBit(s, t, id, c) {
      SetBitShrinks(s, t, id, c);
    } else if id, c :| Ring(s, t, id, c) {
      RingShrinks(s, t, id, c);
    } else if c :| EnterHandler(s, t, c) {
      EnterShrinks(s, t, c);
    } else if c :| Xchg(s, t, c) {
      XchgShrinks(s, t, c);
    } else if b :| Dispatch(s, t, b) {
      DispatchShrinks(s, t, b);
    }
  }

  lemma EnterShrinks(s: State, t: State, c: nat)
    requires EnterHandler(s, t, c)
    ensures Work(t) < Work(s)
  {
    assert ToSet(t) == ToSet(s) && ToRing(t) == ToRing(s);
  }

  lemma DispatchShrinks(s: State, t: State, b: Bit)
    requires Dispatch(s, t, b)
    ensures Work(t) < Work(s)
  {
    assert ToSet(t) == ToSet(s) && ToRing(t) == ToRing(s);
  }

  lemma InnerIsNext(s: State, t: State)
    requires Inner(s, t)
    ensures Next(s, t)
  {
    hide SetBit, Ring, EnterHandler, Xchg, Dispatch, StartSend;
  }

  // --- Something can always happen ------------------------------------------------------

  lemma {:induction false} LowestBit(bits: set<Bit>, c: nat) returns (b: Bit)
    requires exists x :: x in bits && x.cpu == c
    ensures b in bits && b.cpu == c && forall x | x in bits && x.cpu == c :: b.op <= x.op
    decreases bits
  {
    b :| b in bits && b.cpu == c;
    if x :| x in bits && x.cpu == c && x.op < b.op {
      b := LowestBit(bits - {b}, c);
    }
  }

  /** Inside a handler the loop can take its next step. */
  lemma HandlerCanStep(s: State, c: nat) returns (t: State)
    requires Inv(s) && c in s.active
    ensures Inner(s, t)
  {
    if NoLocal(s, c) {
      t := if BitsOf(s.bits, c) == {} then s.(active := s.active - {c})
           else s.(bits := s.bits - BitsOf(s.bits, c), local := s.local + BitsOf(s.bits, c),
                   waiting := s.waiting - MsgsOf(s.waiting, c), fetched := s.fetched + MsgsOf(s.waiting, c));
      assert Xchg(s, t, c);
    } else {
      var b := LowestBit(s.local, c);
      var done := set m | m in s.fetched && m.bit == b;
      t := s.(local := s.local - {b}, fetched := s.fetched - done, handled := s.handled + done);
      assert Dispatch(s, t, b);
    }
  }

  lemma SenderCanStep(s: State, id: nat) returns (t: State)
    requires Inv(s) && id in s.senders && (s.senders[id].toSet != {} || s.senders[id].toRing != {})
    ensures Inner(s, t)
  {
    var snd := s.senders[id];
    if snd.toSet != {} {
      var c :| c in snd.toSet;
      t := s.(bits := s.bits + {Bit(c, snd.op)}, waiting := s.waiting + {Msg(id, Bit(c, snd.op))},
              senders := s.senders[id := snd.(toSet := snd.toSet - {c})]);
      assert SetBit(s, t, id, c);
    } else {
      var c :| c in snd.toRing;
      t := s.(pending := s.pending + {c}, senders := s.senders[id := snd.(toRing := snd.toRing - {c})]);
      assert Ring(s, t, id, c);
    }
  }

  /** No deadlock: unless everything is at rest, some inner step can be taken. */
  lemma CanStep(s: State) returns (t: State)
    requires Inv(s) && !Quiescent(s)
    ensures Inner(s, t)
  {
    hide Inv;
    if c :| c in s.active {
      t := HandlerCanStep(s, c);
    } else if c :| c in s.pending {
      t := s.(pending := s.pending - {c}, active := s.active + {c});
      assert EnterHandler(s, t, c);
    } else {
      var id :| id in s.senders && (s.senders[id].toSet != {} || s.senders[id].toRing != {});
      t := SenderCanStep(s, id);
    }
  }

  /** No inner step can be taken. */
  ghost predicate Stuck(s: State) {
    forall t :: !Inner(s, t)
  }

  lemma AtRestNoStep(s: State)
    requires Quiescent(s)
    ensures Stuck(s)
  {}

  // --- Every schedule ends ----------------------------------------------------------------

  /** States that follow one another by inner steps. */
  ghost predicate Schedule(path: seq<State>) {
    |path| > 0 && forall i | 0 <= i < |path| - 1 :: Inner(path[i], path[i + 1])
  }

  lemma {:induction false} ScheduleShrinks(path: seq<State>, i: nat)
    requires Schedule(path) && Inv(path[0]) && i < |path|
    ensures Inv(path[i]) && Work(path[i]) + i <= Work(path[0])
  {
    hide Inv, Work, Inner;
    if i == 0 {
    } else {
      ScheduleShrinks(path, i - 1);
      InnerShrinks(path[i - 1], path[i]);
      InnerIsNext(path[i - 1], path[i]);
      NextKeepsInv(path[i - 1], path[i]);
    }
  }

  /** No schedule from a reachable state is longer than Work, and one that cannot be continued
      ends with everything at rest. */
  lemma EveryScheduleEnds(run: seq<State>, i: nat, path: seq<State>)
    requires Run(run) && i < |run| && Schedule(path) && path[0] == run[i]
    ensures |path| <= Work(run[i]) + 1
    ensures Quiescent(path[|path| - 1]) <==> Stuck(path[|path| - 1])
  {
    hide Inv, Work, Inner, Quiescent;
    RunKeepsInv(run, i);
    ScheduleShrinks(path, |path| - 1);
    var last := path[|path| - 1];
    if Quiescent(last) {
      AtRestNoStep(last);
    } else {
      var t := CanStep(last);
    }
  }

  /** And a call can start in every state, with any targets and any message but the stop. */
  lemma CallCanStart(s: State, id: nat, op: nat, whom: set<nat>) returns (t: State)
    requires id !in s.used && op != 3
    ensures Next(s, t) && id in t.senders && t.senders[id] == Sender(op, whom, whom, whom)
  {
    t := s.(senders := s.senders[id := Sender(op, whom, whom, whom)], used := s.used + {id});
    assert StartSend(s, t, id, op, whom);
  }

  lemma {:induction false} RestReachable(s: State) returns (path: seq<State>)
    requires Inv(s)
    ensures Schedule(path) && path[0] == s && Quiescent(path[|path| - 1])
    decreases Work(s)
  {
    hide Inv, Work, Inner, Quiescent;
    if Quiescent(s) {
      path := [s];
    } else {
      var t := CanStep(s);
      InnerShrinks(s, t);
      InnerIsNext(s, t);
      NextKeepsInv(s, t);
      var rest := RestReachable(t);
      path := [s] + rest;
    }
  }

  /** Every reachable state can come to rest without a further call, and there every message
      of every call has been handled. */
  lemma EveryMessageCanBeHandled(run: seq<State>, i: nat) returns (path: seq<State>)
    requires Run(run) && i < |run|
    ensures Schedule(path) && path[0] == run[i] && Quiescent(path[|path| - 1])
    ensures var s, e := run[i], path[|path| - 1];
            forall id, c | id in s.senders && c in s.senders[id].whom ::
              Msg(id, Bit(c, s.senders[id].op)) in e.handled
  {
    hide Inv, Inner, Quiescent, Next, Work;
    RunKeepsInv(run, i);
    path := RestReachable(run[i]);
    var e := path[|path| - 1];
    ScheduleShrinks(path, |path| - 1);
    SendersStay(path, |path| - 1);
    RestMeansHandled(e);
    forall id, c | id in run[i].senders && c in run[i].senders[id].whom
      ensures Msg(id, Bit(c, run[i].senders[id].op)) in e.handled
    {
      assert SameCall(run[i], e, id);
    }
  }

  lemma RestMeansHandled(s: State)
    requires Inv(s) && Quiescent(s)
    ensures forall id, c | id in s.senders && c in s.senders[id].whom ::
              Msg(id, Bit(c, s.senders[id].op)) in s.handled
  {
    assert forall m | m in s.waiting :: WillBeSeen(s, m);
    assert s.waiting == {};
    forall id, c | id in s.senders && c in s.senders[id].whom
      ensures Msg(id, Bit(c, s.senders[id].op)) in s.handled
    {
      assert SenderOk(s, id);
    }
  }

  ghost predicate SameCall(s: State, t: State, id: nat) {
    id in s.senders ==>
      id in t.senders && t.senders[id].op == s.senders[id].op && t.senders[id].whom == s.senders[id].whom
  }

  lemma {:induction false} SendersStay(path: seq<State>, i: nat)
    requires Schedule(path) && i < |path|
    ensures forall id :: SameCall(path[0], path[i], id)
  {
    if i == 0 {
    } else {
      SendersStay(path, i - 1);
      assert Inner(path[i - 1], path[i]);
      forall id
        ensures SameCall(path[0], path[i], id)
      {
        assert SameCall(path[0], path[i - 1], id);
      }
    }
  }
}
