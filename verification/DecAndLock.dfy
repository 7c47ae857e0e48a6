/** atomic_dec_and_lock over any number of threads: the load-locked/store-conditional fast
    path, the locked slow path, and concurrent increments and lock users. */
module DecAndLock {

  /** Where a thread stands in the call. */
  datatype Pc =
    | Outside
    | Entry                          // before ldl_l
    | Loaded(value: int, intact: bool) // after ldl_l; stl_c can succeed only while intact
    | WantLock                       // slow path, before spin_lock
    | Locked                         // before atomic_dec_and_test
    | Unlocking                      // the test said no; before spin_unlock
    | Returned(result: bool)

  /** A thread: its place, and how often and to what its current call has decremented. */
  datatype Thread = Thread(pc: Pc, decrements: nat, reachedZero: bool)

  datatype Holder = Nobody | HeldBy(t: nat) | Other

  /** The counter, the lock, the threads, and a count of all increments and decrements. */
  datatype State = State(counter: int, holder: Holder, threads: map<nat, Thread>, start: int, incs: nat, decs: nat)

  /** 32-bit two's complement. */
  function Wrap32(x: int): int {
    (x + 0x8000_0000) % 0x1_0000_0000 - 0x8000_0000
  }

  /** A store to the counter breaks every reservation on it. */
  ghost function Broken(threads: map<nat, Thread>): map<nat, Thread> {
    map t | t in threads ::
      if threads[t].pc.Loaded? then threads[t].(pc := Loaded(threads[t].pc.value, false)) else threads[t]
  }

  ghost predicate At(s: State, t: nat, pc: Pc) {
    t in s.threads && s.threads[t].pc == pc
  }

  // --- Steps -----------------------------------------------------------------------------

  ghost predicate Init(s: State) {
    s.counter == Wrap32(s.start) && s.incs == 0 && s.decs == 0 &&
    s.holder == Nobody && forall t | t in s.threads :: s.threads[t] == Thread(Outside, 0, false)
  }

  ghost predicate Call(s: State, s': State, t: nat) {
    At(s, t, Outside) && s' == s.(threads := s.threads[t := Thread(Entry, 0, false)])
  }

  ghost predicate LoadLocked(s: State, s': State, t: nat) {
    At(s, t, Entry) && s' == s.(threads := s.threads[t := s.threads[t].(pc := Loaded(s.counter, true))])
  }

  /** `beq`: the decremented value would be zero, so take the slow path without storing. */
  ghost predicate GoSlow(s: State, s': State, t: nat) {
    t in s.threads && s.threads[t].pc.Loaded? && Wrap32(s.threads[t].pc.value - 1) == 0 &&
    s' == s.(threads := s.threads[t := s.threads[t].(pc := WantLock)])
  }

  /** A store-conditional that succeeds; the call is over. */
  ghost predicate StoreOk(s: State, s': State, t: nat) {
    t in s.threads && s.threads[t].pc.Loaded? && s.threads[t].pc.intact &&
    Wrap32(s.threads[t].pc.value - 1) != 0 &&
    var v := Wrap32(s.threads[t].pc.value - 1);
    s' == s.(counter := v, decs := s.decs + 1,
             threads := Broken(s.threads)[t := Thread(Returned(false), s.threads[t].decrements + 1, v == 0)])
  }

  /** A store-conditional may fail for any reason; start over. */
  ghost predicate StoreFails(s: State, s': State, t: nat) {
    t in s.threads && s.threads[t].pc.Loaded? && Wrap32(s.threads[t].pc.value - 1) != 0 &&
    s' == s.(threads := s.threads[t := s.threads[t].(pc := Entry)])
  }

  ghost predicate TakeLock(s: State, s': State, t: nat) {
    At(s, t, WantLock) && s.holder == Nobody &&
    s' == s.(holder := HeldBy(t), threads := s.threads[t := s.threads[t].(pc := Locked)])
  }

  ghost predicate DecAndTest(s: State, s': State, t: nat) {
    At(s, t, Locked) &&
    var v := Wrap32(s.counter - 1);
    s' == s.(counter := v, decs := s.decs + 1,
             threads := Broken(s.threads)[t := Thread(if v == 0 then Returned(true) else Unlocking,
                                                      s.threads[t].decrements + 1, v == 0)])
  }

  ghost predicate Unlock(s: State, s': State, t: nat) {
    At(s, t, Unlocking) &&
    s' == s.(holder := Nobody, threads := s.threads[t := s.threads[t].(pc := Returned(false))])
  }

  /** The caller goes on; after a true result it releases the lock when it is done. */
  ghost predicate Leave(s: State, s': State, t: nat) {
    t in s.threads && s.threads[t].pc.Returned? &&
    s' == s.(holder := if s.threads[t].pc.result then Nobody else s.holder,
             threads := s.threads[t := Thread(Outside, 0, false)])
  }

  /** atomic_inc by anyone, and other users of the lock. */
  ghost predicate Increment(s: State, s': State) {
    s' == s.(counter := Wrap32(s.counter + 1), incs := s.incs + 1, threads := Broken(s.threads))
  }

  ghost predicate OtherLocks(s: State, s': State) {
    (s.holder == Nobody && s' == s.(holder := Other)) || (s.holder == Other && s' == s.(holder := Nobody))
  }

  ghost predicate ThreadStep(s: State, s': State, t: nat) {
    Call(s, s', t) || LoadLocked(s, s', t) || GoSlow(s, s', t) || StoreOk(s, s', t) || StoreFails(s, s', t) ||
    TakeLock(s, s', t) || DecAndTest(s, s', t) || Unlock(s, s', t) || Leave(s, s', t)
  }

  ghost predicate Next(s: State, s': State) {
    (exists t :: ThreadStep(s, s', t)) || Increment(s, s') || OtherLocks(s, s')
  }

  ghost predicate Run(run: seq<State>) {
    |run| > 0 && Init(run[0]) && forall i | 0 <= i < |run| - 1 :: Next(run[i], run[i + 1])
  }

  // --- Invariant -------------------------------------------------------------------------

  ghost predicate HoldsLock(pc: Pc) {
    pc == Locked || pc == Unlocking || pc == Returned(true)
  }

  ghost predicate ThreadOk(s: State, t: nat)
    requires t in s.threads
  {
    var th := s.threads[t];
    (s.holder == HeldBy(t) <==> HoldsLock(th.pc)) &&
    (th.pc.Loaded? && th.pc.intact ==> th.pc.value == s.counter) &&
    (match th.pc
     case Returned(r) => th.decrements == 1 && th.reachedZero == r
     case Unlocking => th.decrements == 1 && !th.reachedZero
     case _ => th.decrements == 0 && !th.reachedZero)
  }

  ghost predicate Inv(s: State) {
    && -0x8000_0000 <= s.counter < 0x8000_0000
    && s.counter == Wrap32(s.start + s.incs - s.decs)
    && (s.holder.HeldBy? ==> s.holder.t in s.threads)
    && forall t | t in s.threads :: ThreadOk(s, t)
  }

  /** Steps that leave the counter alone. */
  lemma QuietStepKeepsInv(s: State, s': State, t: nat)
    requires Inv(s) && (Call(s, s', t) || LoadLocked(s, s', t) || GoSlow(s, s', t) || StoreFails(s, s', t))
    ensures Inv(s')
  {
    hide Wrap32;
    forall u | u in s'.threads
      ensures ThreadOk(s', u)
    {
      assert ThreadOk(s, u);
    }
  }

  lemma LockStepKeepsInv(s: State, s': State, t: nat)
    requires Inv(s) && (TakeLock(s, s', t) || Unlock(s, s', t) || Leave(s, s', t))
    ensures Inv(s')
  {
    hide Wrap32;
    assert ThreadOk(s, t);
    forall u | u in s'.threads
      ensures ThreadOk(s', u)
    {
      assert ThreadOk(s, u);
    }
  }

  lemma StoreStepKeepsInv(s: State, s': State, t: nat)
    requires Inv(s) && (StoreOk(s, s', t) || DecAndTest(s, s', t))
    ensures Inv(s')
  {
    hide Wrap32;
    Wrapping(s);
    assert ThreadOk(s, t);
    forall u | u in s'.threads
      ensures ThreadOk(s', u)
    {
      assert ThreadOk(s, u);
    }
  }

  lemma OtherStepKeepsInv(s: State, s': State)
    requires Inv(s) && (Increment(s, s') || OtherLocks(s, s'))
    ensures Inv(s')
  {
    hide Wrap32;
    Wrapping(s);
    forall u | u in s'.threads
      ensures ThreadOk(s', u)
    {
      assert ThreadOk(s, u);
    }
  }

  lemma NextKeepsInv(s: State, s': State)
    requires Inv(s) && Next(s, s')
    ensures Inv(s')
  {
    hide Inv, Call, LoadLocked, GoSlow, StoreFails, TakeLock, Unlock, Leave, StoreOk, DecAndTest, Increment, OtherLocks;
    if t :| ThreadStep(s, s', t) {
      if StoreOk(s, s', t) || DecAndTest(s, s', t) {
        StoreStepKeepsInv(s, s', t);
      } else if TakeLock(s, s', t) || Unlock(s, s', t) || Leave(s, s', t) {
        LockStepKeepsInv(s, s', t);
      } else {
        QuietStepKeepsInv(s, s', t);
      }
    } else {
      OtherStepKeepsInv(s, s');
    }
  }

  lemma Wrapping(s: State)
    requires Inv(s)
    ensures Wrap32(s.counter - 1) == Wrap32(s.start + s.incs - (s.decs + 1))
    ensures Wrap32(s.counter + 1) == Wrap32(s.start + (s.incs + 1) - s.decs)
    ensures forall x :: -0x8000_0000 <= Wrap32(x) < 0x8000_0000
  {}

  lemma {:induction false} RunKeepsInv(run: seq<State>, i: nat)
    requires Run(run) && i < |run|
    ensures Inv(run[i])
  {
    if i > 0 {
      RunKeepsInv(run, i - 1);
      NextKeepsInv(run[i - 1], run[i]);
    } else {
      hide Wrap32;
    }
  }

  // --- Guarantees --------------------------------------------------------------------------

  /** The counter goes from 1 to 0 only by a decrement of a thread that holds the lock before
      and after, and whose call then returns 1. */
  lemma ZeroOnlyUnderLock(run: seq<State>, i: nat)
    requires Run(run) && i + 1 < |run| && run[i].counter == 1 && run[i + 1].counter == 0
    ensures exists t :: DecAndTest(run[i], run[i + 1], t) && run[i].holder == run[i + 1].holder == HeldBy(t) &&
                        At(run[i + 1], t, Returned(true))
  {
    RunKeepsInv(run, i);
    RunKeepsInv(run, i + 1);
    var s, s' := run[i], run[i + 1];
    assert Next(s, s');
    if t :| ThreadStep(s, s', t) {
      assert ThreadOk(s, t) && ThreadOk(s', t);
      assert DecAndTest(s, s', t);
    }
  }

  /** A call returns 1 exactly if its own single decrement reached zero; then it holds the
      lock, and otherwise it does not.  No two threads hold it. */
  lemma ResultMeansLock(run: seq<State>, i: nat, t: nat)
    requires Run(run) && i < |run| && t in run[i].threads && run[i].threads[t].pc.Returned?
    ensures var s := run[i];
            s.threads[t].decrements == 1 &&
            (s.threads[t].pc.result <==> s.threads[t].reachedZero) &&
            (s.threads[t].pc.result <==> s.holder == HeldBy(t)) &&
            (s.threads[t].pc.result ==>
               forall u | u in s.threads && u != t :: !HoldsLock(s.threads[u].pc))
  {
    RunKeepsInv(run, i);
    var s := run[i];
    assert ThreadOk(s, t);
    forall u | u in s.threads && u != t && s.threads[t].pc.result
      ensures !HoldsLock(s.threads[u].pc)
    {
      assert ThreadOk(s, u);
    }
  }

  /** The counter is always the start value plus the increments minus the decrements. */
  lemma CounterConserved(run: seq<State>, i: nat)
    requires Run(run) && i < |run|
    ensures run[i].counter == Wrap32(run[i].start + run[i].incs - run[i].decs)
  {
    RunKeepsInv(run, i);
  }

  // --- Nobody waits for ever ---------------------------------------------------------------

  /** Steps of thread t and of nobody else. */
  ghost predicate Alone(path: seq<State>, t: nat) {
    |path| > 0 && forall i | 0 <= i < |path| - 1 :: ThreadStep(path[i], path[i + 1], t)
  }

  /** Thread t is in the middle of a call, and the lock is free or its own. */
  ghost predicate MayGoOn(s: State, t: nat) {
    t in s.threads && !s.threads[t].pc.Outside? && (s.holder == Nobody || s.holder == HeldBy(t))
  }

  /** How many steps of its own a call is from its end, at most. */
  ghost function StepsLeft(pc: Pc): nat {
    match pc
    case Outside => 0
    case Returned(_) => 0
    case Unlocking => 1
    case Locked => 2
    case WantLock => 3
    case Loaded(_, intact) => if intact then 4 else 6
    case Entry => 5
  }

  lemma OneMoreStep(s: State, t: nat) returns (s': State)
    requires Inv(s) && MayGoOn(s, t) && !s.threads[t].pc.Returned?
    ensures ThreadStep(s, s', t) && MayGoOn(s', t) && StepsLeft(s'.threads[t].pc) < StepsLeft(s.threads[t].pc)
  {
    hide Wrap32;
    assert ThreadOk(s, t);
    var th := s.threads[t];
    match th.pc
    case Entry => s' := s.(threads := s.threads[t := th.(pc := Loaded(s.counter, true))]);
    case Loaded(value, intact) =>
      var v := Wrap32(value - 1);
      s' := if v == 0 then s.(threads := s.threads[t := th.(pc := WantLock)])
            else if intact then
              s.(counter := v, decs := s.decs + 1,
                 threads := Broken(s.threads)[t := Thread(Returned(false), th.decrements + 1, v == 0)])
            else s.(threads := s.threads[t := th.(pc := Entry)]);
    case WantLock => s' := s.(holder := HeldBy(t), threads := s.threads[t := th.(pc := Locked)]);
    case Locked =>
      var v := Wrap32(s.counter - 1);
      s' := s.(counter := v, decs := s.decs + 1,
               threads := Broken(s.threads)[t := Thread(if v == 0 then Returned(true) else Unlocking,
                                                        th.decrements + 1, v == 0)]);
    case Unlocking => s' := s.(holder := Nobody, threads := s.threads[t := th.(pc := Returned(false))]);
  }

  lemma {:induction false} FinishesFrom(s: State, t: nat) returns (path: seq<State>)
    requires Inv(s) && MayGoOn(s, t)
    ensures Alone(path, t) && path[0] == s && |path| <= StepsLeft(s.threads[t].pc) + 1
    ensures var e := path[|path| - 1]; Inv(e) && MayGoOn(e, t) && e.threads[t].pc.Returned?
    decreases StepsLeft(s.threads[t].pc)
  {
    hide Inv, ThreadStep;
    if s.threads[t].pc.Returned? {
      path := [s];
    } else {
      var s' := OneMoreStep(s, t);
      assert Next(s, s');
      NextKeepsInv(s, s');
      var rest := FinishesFrom(s', t);
      path := [s] + rest;
    }
  }

  /** In every reachable state, a call that nobody keeps from the lock can finish by at most six
      steps of its own, and then its result is right. */
  lemma CallCanFinish(run: seq<State>, i: nat, t: nat) returns (path: seq<State>)
    requires Run(run) && i < |run| && MayGoOn(run[i], t)
    ensures Alone(path, t) && path[0] == run[i] && |path| <= 7
    ensures var e := path[|path| - 1];
            t in e.threads && e.threads[t].pc.Returned? && e.threads[t].decrements == 1 &&
            (e.threads[t].pc.result <==> e.threads[t].reachedZero) &&
            (e.threads[t].pc.result <==> e.holder == HeldBy(t))
  {
    RunKeepsInv(run, i);
    path := FinishesFrom(run[i], t);
    assert ThreadOk(path[|path| - 1], t);
  }

  /** A whole call by itself: one decrement, and the lock kept exactly if it reached zero. */
  lemma CallAlone(s: State, t: nat) returns (path: seq<State>)
    requires Inv(s) && At(s, t, Outside) && s.holder == Nobody
    ensures Alone(path, t) && path[0] == s && |path| > 1 && Call(s, path[1], t)
    ensures var e := path[|path| - 1];
            e.counter == Wrap32(s.counter - 1) && At(e, t, Returned(s.counter == 1)) &&
            e.holder == if s.counter == 1 then HeldBy(t) else Nobody
  {
    hide Inv, Wrap32;
    var v := Wrap32(s.counter - 1);
    OneIsLast(s);
    var s1 := s.(threads := s.threads[t := Thread(Entry, 0, false)]);
    var s2 := s1.(threads := s1.threads[t := Thread(Loaded(s.counter, true), 0, false)]);
    assert Call(s, s1, t) && LoadLocked(s1, s2, t);
    if v != 0 {
      var s3 := s2.(counter := v, decs := s2.decs + 1,
                    threads := Broken(s2.threads)[t := Thread(Returned(false), 1, false)]);
      assert StoreOk(s2, s3, t);
      path := [s, s1, s2, s3];
    } else {
      var s3 := s2.(threads := s2.threads[t := Thread(WantLock, 0, false)]);
      var s4 := s3.(holder := HeldBy(t), threads := s3.threads[t := Thread(Locked, 0, false)]);
      var s5 := s4.(counter := v, decs := s4.decs + 1,
                    threads := Broken(s4.threads)[t := Thread(Returned(true), 1, true)]);
      assert GoSlow(s2, s3, t) && TakeLock(s3, s4, t) && DecAndTest(s4, s5, t);
      path := [s, s1, s2, s3, s4, s5];
    }
  }

  /** Unless the counter is 1, a call needs no lock: whoever holds it, two steps finish the call. */
  lemma FastPathNeedsNoLock(s: State, t: nat) returns (loaded: State, e: State)
    requires Inv(s) && At(s, t, Entry) && s.counter != 1
    ensures LoadLocked(s, loaded, t) && StoreOk(loaded, e, t)
    ensures e.counter == Wrap32(s.counter - 1) && At(e, t, Returned(false)) && e.holder == s.holder
  {
    hide Inv, Wrap32;
    OneIsLast(s);
    var v := Wrap32(s.counter - 1);
    loaded := s.(threads := s.threads[t := s.threads[t].(pc := Loaded(s.counter, true))]);
    e := loaded.(counter := v, decs := loaded.decs + 1,
                 threads := Broken(loaded.threads)[t := Thread(Returned(false), s.threads[t].decrements + 1, v == 0)]);
  }

  lemma OneIsLast(s: State)
    requires Inv(s)
    ensures Wrap32(s.counter - 1) == 0 <==> s.counter == 1
  {}

  /** No deadlock among the calls: while one is under way, some call can take a step, unless
      another user has the lock. */
  lemma SomeoneCanStep(run: seq<State>, i: nat, t: nat) returns (u: nat, s': State)
    requires Run(run) && i < |run| && t in run[i].threads && !run[i].threads[t].pc.Outside?
    requires run[i].holder != Other
    ensures ThreadStep(run[i], s', u)
  {
    RunKeepsInv(run, i);
    var s := run[i];
    u := if s.holder.HeldBy? then s.holder.t else t;
    assert ThreadOk(s, u);
    if s.threads[u].pc.Returned? {
      s' := s.(holder := if s.threads[u].pc.result then Nobody else s.holder,
               threads := s.threads[u := Thread(Outside, 0, false)]);
      assert Leave(s, s', u);
    } else {
      s' := OneMoreStep(s, u);
    }
  }
}
