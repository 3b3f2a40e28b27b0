/**
 The hybrid spin-then-block mutex of ww/base/wmutex.h as a state machine: one step per atomic
 operation, any number of threads, sequentially consistent interleaving. A run is a sequence of
 actions; `Exec` replays it.
 */
module HybridMutex {
  import opened Totals

  /** The spin budget kYieldProcessorTries. */
  const SPINS: nat := 1000

  /** Where a thread stands in lock, try-lock or unlock. */
  datatype Pc =
    | Idle            // outside the mutex
    | FirstExchange   // lock: about to exchange the flag
    | LoopExchange    // slow path: about to exchange again
    | Spin(left: nat) // about to load the flag with `left` tries in the budget
    | Register        // about to increment nwait
    | CheckFlag       // registered, about to load the flag
    | Asleep          // registered, in the semaphore wait
    | Unregister      // registered, about to decrement nwait
    | Holds           // owns the mutex
    | ReadWaiters     // unlock: flag cleared, about to load nwait
    | Post            // unlock: saw a waiter, about to post the semaphore

  datatype State = State(flag: bool, nwait: int, tokens: nat, pcs: map<nat, Pc>)

  datatype Action =
    | CallLock(t: nat)
    | CallTryLock(t: nat)
    | CallUnlock(t: nat)
    | Continue(t: nat)  // the thread's next atomic operation

  const Initial: State := State(false, 0, 0, map[])

  function PcOf(s: State, t: nat): Pc {
    if t in s.pcs then s.pcs[t] else Idle
  }

  function Move(s: State, t: nat, pc: Pc): State {
    s.(pcs := s.pcs[t := pc])
  }

  predicate Enabled(s: State, a: Action) {
    match a
    case CallLock(t) => PcOf(s, t) == Idle
    case CallTryLock(t) => PcOf(s, t) == Idle
    case CallUnlock(t) => PcOf(s, t) == Holds
    case Continue(t) =>
      match PcOf(s, t)
      case Idle => false
      case Holds => false
      case Asleep => s.tokens > 0
      case _ => true
  }

  /** Exchange the flag with true; the old value decides who holds the mutex. */
  function Exchange(s: State, t: nat, busy: Pc): State {
    if s.flag then Move(s, t, busy) else Move(s, t, Holds).(flag := true)
  }

  function Do(s: State, a: Action): State
    requires Enabled(s, a)
  {
    match a
    case CallLock(t) => Move(s, t, FirstExchange)
    case CallTryLock(t) => Exchange(s, t, Idle)
    case CallUnlock(t) => Move(s, t, ReadWaiters).(flag := false)
    case Continue(t) => Advance(s, t)
  }

  function Advance(s: State, t: nat): State
    requires Enabled(s, Continue(t))
  {
    match PcOf(s, t)
    case FirstExchange => Exchange(s, t, LoopExchange)
    case LoopExchange => Exchange(s, t, Spin(SPINS))
    case Spin(left) =>
      if !s.flag then Move(s, t, LoopExchange)
      else if left <= 1 then Move(s, t, Register)
      else Move(s, t, Spin(left - 1))
    case Register => Move(s, t, CheckFlag).(nwait := s.nwait + 1)
    case CheckFlag => Move(s, t, if s.flag then Asleep else Unregister)
    case Asleep => Move(s, t, CheckFlag).(tokens := s.tokens - 1)
    case Unregister => Move(s, t, LoopExchange).(nwait := s.nwait - 1)
    case ReadWaiters => Move(s, t, if s.nwait != 0 then Post else Idle)
    case Post => Move(s, t, Idle).(tokens := s.tokens + 1)
  }

  datatype Outcome = Stuck | Reached(state: State)

  /** Replays a run; `Stuck` when some action is not enabled where it is taken. */
  function Exec(s: State, acts: seq<Action>): Outcome
    decreases |acts|
  {
    if acts == [] then Reached(s)
    else if Enabled(s, acts[0]) then Exec(Do(s, acts[0]), acts[1..])
    else Stuck
  }

  // -------------------------------------------------------------------------
  // the inductive invariant

  function Holding(pc: Pc): nat { if pc == Holds then 1 else 0 }

  function Registered(pc: Pc): nat { if pc in {CheckFlag, Asleep, Unregister} then 1 else 0 }

  /** On its way to an exchange without needing anybody's help. */
  predicate AwakeContender(pc: Pc) {
    pc in {FirstExchange, LoopExchange, Register, CheckFlag, Unregister} || pc.Spin?
  }

  predicate Unlocking(pc: Pc) { pc in {ReadWaiters, Post} }

  /** Somebody is going to look at the clear flag, or to wake somebody who will. */
  ghost predicate WakeupOnItsWay(s: State) {
    || s.tokens > 0
    || exists t :: t in s.pcs && (Unlocking(s.pcs[t]) || AwakeContender(s.pcs[t]))
  }

  ghost predicate SomeoneAsleep(s: State) {
    exists t :: t in s.pcs && s.pcs[t] == Asleep
  }

  ghost predicate Inv(s: State) {
    && Total(s.pcs, Holding) == (if s.flag then 1 else 0)
    && s.nwait == Total(s.pcs, Registered)
    && (SomeoneAsleep(s) && !s.flag ==> WakeupOnItsWay(s))
  }

  lemma CountsStep(s: State, a: Action)
    requires Inv(s) && Enabled(s, a)
    ensures Total(Do(s, a).pcs, Holding) == (if Do(s, a).flag then 1 else 0)
    ensures Do(s, a).nwait == Total(Do(s, a).pcs, Registered)
  {
    var s' := Do(s, a);
    var t := a.t;
    assert s'.pcs == s.pcs[t := s'.pcs[t]];
    TotalUpdate(s.pcs, Holding, t, s'.pcs[t]);
    TotalUpdate(s.pcs, Registered, t, s'.pcs[t]);
    if t in s.pcs {
      TotalAtLeast(s.pcs, Holding, t);
    }
  }

  lemma WakeupStep(s: State, a: Action)
    requires Inv(s) && Enabled(s, a)
    ensures var s' := Do(s, a); SomeoneAsleep(s') && !s'.flag ==> WakeupOnItsWay(s')
  {
    var s' := Do(s, a);
    var t := a.t;
    if SomeoneAsleep(s') && !s'.flag {
      var z :| z in s'.pcs && s'.pcs[z] == Asleep;
      assert z != t;
      assert s.pcs[z] == Asleep;
      TotalAtLeast(s.pcs, Registered, z);
      assert s.nwait > 0;
      assert t in s'.pcs && (s'.tokens > 0 || Unlocking(s'.pcs[t]) || AwakeContender(s'.pcs[t]));
    }
  }

  lemma {:induction false} InvHolds(s: State, acts: seq<Action>)
    requires Inv(s) && Exec(s, acts).Reached?
    ensures Inv(Exec(s, acts).state)
    decreases |acts|
  {
    if acts != [] {
      CountsStep(s, acts[0]);
      WakeupStep(s, acts[0]);
      InvHolds(Do(s, acts[0]), acts[1..]);
    }
  }

  // -------------------------------------------------------------------------
  // what every run keeps

  /** Never two holders, and a set flag always has one. */
  lemma MutualExclusion(acts: seq<Action>)
    requires Exec(Initial, acts).Reached?
    ensures var s := Exec(Initial, acts).state;
      && (forall t, u :: PcOf(s, t) == Holds && PcOf(s, u) == Holds ==> t == u)
      && (s.flag <==> exists t :: PcOf(s, t) == Holds)
  {
    InvHolds(Initial, acts);
    var s := Exec(Initial, acts).state;
    forall t, u | PcOf(s, t) == Holds && PcOf(s, u) == Holds
      ensures t == u
    {
      if t != u {
        TotalAtLeastPair(s.pcs, Holding, t, u);
      }
    }
    if s.flag {
      TotalPositive(s.pcs, Holding);
      var t :| t in s.pcs && Holding(s.pcs[t]) > 0;
      assert PcOf(s, t) == Holds;
    }
    forall t | PcOf(s, t) == Holds ensures s.flag {
      TotalAtLeast(s.pcs, Holding, t);
    }
  }

  /** nwait counts exactly the registered threads, so it never goes negative. */
  lemma WaiterCountExact(acts: seq<Action>)
    requires Exec(Initial, acts).Reached?
    ensures Exec(Initial, acts).state.nwait == Total(Exec(Initial, acts).state.pcs, Registered)
  {
    InvHolds(Initial, acts);
  }

  /** No lost wakeup: with the flag clear, a sleeper always has somebody acting for it. */
  lemma NoLostWakeup(acts: seq<Action>)
    requires Exec(Initial, acts).Reached?
    ensures var s := Exec(Initial, acts).state;
      SomeoneAsleep(s) && !s.flag ==> WakeupOnItsWay(s)
  {
    InvHolds(Initial, acts);
  }

  // -------------------------------------------------------------------------
  // the wakeup really arrives: a way out of every state with the flag clear

  /** Chains one enabled action in front of a run. */
  lemma ExecFront(s: State, a: Action, rest: seq<Action>)
    requires Enabled(s, a)
    ensures Exec(s, [a] + rest) == Exec(Do(s, a), rest)
  {
    assert ([a] + rest)[1..] == rest;
  }

  ghost predicate AcquiredBy(s: State, acts: seq<Action>, bound: nat) {
    && |acts| <= bound
    && (forall i :: 0 <= i < |acts| ==> acts[i].Continue?)
    && Exec(s, acts).Reached? && Exec(s, acts).state.flag
  }

  /** How many of its own steps a contender needs to take a clear flag. */
  function StepsToFlag(pc: Pc): nat {
    match pc
    case FirstExchange => 1
    case LoopExchange => 1
    case Spin(_) => 2
    case Unregister => 2
    case CheckFlag => 3
    case _ => 4
  }

  /** An awake contender takes a clear flag by itself within four of its own steps. */
  lemma ContenderAcquires(s: State, t: nat) returns (acts: seq<Action>)
    requires !s.flag && AwakeContender(PcOf(s, t))
    ensures AcquiredBy(s, acts, StepsToFlag(PcOf(s, t)))
    decreases StepsToFlag(PcOf(s, t))
  {
    var a := Continue(t);
    if PcOf(s, t) in {FirstExchange, LoopExchange} {
      ExecFront(s, a, []);
      acts := [a];
      assert acts == [a] + [];
    } else {
      var rest := ContenderAcquires(Do(s, a), t);
      ExecFront(s, a, rest);
      acts := [a] + rest;
    }
  }

  /** A posted token wakes a sleeper, which then takes the clear flag. */
  lemma TokenAcquires(s: State, t: nat) returns (acts: seq<Action>)
    requires !s.flag && PcOf(s, t) == Asleep && s.tokens > 0
    ensures AcquiredBy(s, acts, 4)
  {
    var rest := ContenderAcquires(Do(s, Continue(t)), t);
    ExecFront(s, Continue(t), rest);
    acts := [Continue(t)] + rest;
  }

  /**
   In every reachable state with the flag clear and a thread asleep, at most six steps of threads
   already inside lock or unlock, with no new call, put the mutex into some locker's hands.
   */
  lemma SleeperNeverStranded(run: seq<Action>) returns (acts: seq<Action>)
    requires Exec(Initial, run).Reached?
    requires SomeoneAsleep(Exec(Initial, run).state) && !Exec(Initial, run).state.flag
    ensures AcquiredBy(Exec(Initial, run).state, acts, 6)
  {
    InvHolds(Initial, run);
    var s := Exec(Initial, run).state;
    var z :| z in s.pcs && s.pcs[z] == Asleep;
    if s.tokens > 0 {
      acts := TokenAcquires(s, z);
    } else {
      var w :| w in s.pcs && (Unlocking(s.pcs[w]) || AwakeContender(s.pcs[w]));
      if AwakeContender(s.pcs[w]) {
        acts := ContenderAcquires(s, w);
      } else {
        TotalAtLeast(s.pcs, Registered, z);
        var s1 := Do(s, Continue(w));
        if s.pcs[w] == Post {
          var rest := TokenAcquires(s1, z);
          ExecFront(s, Continue(w), rest);
          acts := [Continue(w)] + rest;
        } else {
          var rest := TokenAcquires(Do(s1, Continue(w)), z);
          ExecFront(s1, Continue(w), rest);
          ExecFront(s, Continue(w), [Continue(w)] + rest);
          acts := [Continue(w)] + ([Continue(w)] + rest);
        }
      }
    }
  }


  // -------------------------------------------------------------------------
  // what each call achieves when nobody interferes

  /** A try-lock takes a clear flag and leaves a set one, and everything else, alone. */
  lemma TryLockExact(s: State, t: nat)
    requires PcOf(s, t) == Idle
    ensures var e := Do(s, CallTryLock(t));
      && (PcOf(e, t) == Holds <==> !s.flag) && (s.flag ==> PcOf(e, t) == Idle)
      && e.flag && e.nwait == s.nwait && e.tokens == s.tokens
      && forall u :: u != t ==> PcOf(e, u) == PcOf(s, u)
  {
  }

  /** A lock on a clear flag takes it with its first exchange. */
  lemma LockTakesClearFlag(s: State, t: nat)
    requires PcOf(s, t) == Idle && !s.flag
    ensures var out := Exec(s, [CallLock(t), Continue(t)]);
      out.Reached? && out.state.flag && PcOf(out.state, t) == Holds
      && out.state.nwait == s.nwait && out.state.tokens == s.tokens
  {
    var s1 := Do(s, CallLock(t));
    ExecFront(s1, Continue(t), []);
    ExecFront(s, CallLock(t), [Continue(t)] + []);
    assert [CallLock(t), Continue(t)] == [CallLock(t)] + ([Continue(t)] + []);
  }

  /** Spinning on a flag that stays set uses the budget up. */
  lemma {:induction false} SpinsOut(s: State, t: nat, left: nat) returns (acts: seq<Action>)
    requires s.flag && PcOf(s, t) == Spin(left) && left > 0
    ensures |acts| == left && Exec(s, acts) == Reached(Move(s, t, Register))
    decreases left
  {
    var s1 := Do(s, Continue(t));
    if left == 1 {
      ExecFront(s, Continue(t), []);
      acts := [Continue(t)] + [];
    } else {
      var rest := SpinsOut(s1, t, left - 1);
      ExecFront(s, Continue(t), rest);
      acts := [Continue(t)] + rest;
      assert Move(s1, t, Register).pcs == Move(s, t, Register).pcs;
    }
  }

  /** A lock on a flag that stays set spins its budget out and then sleeps as one more waiter. */
  lemma LockSleepsOnSetFlag(s: State, t: nat) returns (acts: seq<Action>)
    requires s.flag && PcOf(s, t) == LoopExchange
    ensures |acts| == SPINS + 3
    ensures Exec(s, acts) == Reached(Move(s, t, Asleep).(nwait := s.nwait + 1))
  {
    var s1 := Do(s, Continue(t));
    var spins := SpinsOut(s1, t, SPINS);
    var s2 := Move(s1, t, Register);
    var s3 := Do(s2, Continue(t));
    var s4 := Do(s3, Continue(t));
    ExecFront(s3, Continue(t), []);
    ExecFront(s2, Continue(t), [Continue(t)] + []);
    var last := [Continue(t)] + ([Continue(t)] + []);
    ExecConcat(s1, spins, last);
    ExecFront(s, Continue(t), spins + last);
    acts := [Continue(t)] + (spins + last);
    assert s4.pcs == Move(s, t, Asleep).pcs;
  }

  lemma {:induction false} ExecConcat(s: State, p: seq<Action>, q: seq<Action>)
    requires Exec(s, p).Reached?
    ensures Exec(s, p + q) == Exec(Exec(s, p).state, q)
    decreases |p|
  {
    if p == [] {
      assert p + q == q;
    } else {
      assert (p + q)[0] == p[0] && (p + q)[1..] == p[1..] + q;
      ExecConcat(Do(s, p[0]), p[1..], q);
    }
  }

  /** An unlock clears the flag at once, posts one token exactly if a waiter is registered, and returns. */
  lemma UnlockRun(s: State, t: nat) returns (acts: seq<Action>)
    requires PcOf(s, t) == Holds
    ensures var first := Do(s, CallUnlock(t)); !first.flag && PcOf(first, t) != Holds
    ensures |acts| > 0 && acts[0] == CallUnlock(t) && forall i :: 1 <= i < |acts| ==> acts[i] == Continue(t)
    ensures Exec(s, acts)
      == Reached(Move(s, t, Idle).(flag := false, tokens := s.tokens + (if s.nwait != 0 then 1 else 0)))
  {
    var s1 := Do(s, CallUnlock(t));
    var s2 := Do(s1, Continue(t));
    if s.nwait != 0 {
      ExecFront(s2, Continue(t), []);
      ExecFront(s1, Continue(t), [Continue(t)] + []);
      ExecFront(s, CallUnlock(t), [Continue(t)] + ([Continue(t)] + []));
      acts := [CallUnlock(t)] + ([Continue(t)] + ([Continue(t)] + []));
      assert Do(s2, Continue(t)).pcs == Move(s, t, Idle).pcs;
    } else {
      ExecFront(s1, Continue(t), []);
      ExecFront(s, CallUnlock(t), [Continue(t)] + []);
      acts := [CallUnlock(t)] + ([Continue(t)] + []);
      assert s2.pcs == Move(s, t, Idle).pcs;
    }
  }
}
