/**
 The lightweight semaphore of ww/base/wlsem.c as a state machine: one step per atomic operation
 on `count` or on the kernel semaphore, any number of waiting and signalling threads.
 */
module LightSemaphore {
  import opened Totals

  /** LSEMA_MAX_SPINS. */
  const SPINS: nat := 10000

  /** Which entry point a thread is in; a try-wait stops where the other two start to spin. */
  datatype Entry = TryWait | Wait | TimedWait

  datatype Pc =
    | Idle
    | TryLoad(entry: Entry)                            // about to load count
    | TryCas(entry: Entry, seen: int)                  // about to exchange seen -> seen - 1
    | SpinLoad(entry: Entry, left: nat)                // spinning, about to load count
    | SpinCas(entry: Entry, left: nat, seen: int)      // spinning, about to exchange
    | Subtract(entry: Entry)                           // about to fetch-subtract one
    | Blocked(entry: Entry)                            // counted as a waiter, in the kernel wait
    | RollbackLoad(entry: Entry)                       // gave up waiting, about to load count
    | RollbackCheck(entry: Entry, seen: int)           // about to try-wait or to add one back
    | Posting(left: nat)                               // signal: kernel posts still to make

  /** `signalled` and `acquired` record history: tokens released so far and waits that returned true. */
  datatype State = State(count: int, kernel: nat, pcs: map<nat, Pc>, signalled: nat, acquired: nat)

  datatype Action =
    | CallWait(t: nat, entry: Entry)
    | CallSignal(t: nat, tokens: nat)
    | Continue(t: nat)        // the thread's next atomic operation
    | CasSpuriousFail(t: nat) // the weak exchange of try-wait fails and reloads
    | WaitFails(t: nat)       // the kernel wait times out or returns an error

  /** Initialisation seeds both the count and the kernel semaphore with the same number. */
  function Initial(initcount: nat): State {
    State(initcount, initcount, map[], 0, 0)
  }

  function PcOf(s: State, t: nat): Pc {
    if t in s.pcs then s.pcs[t] else Idle
  }

  function Move(s: State, t: nat, pc: Pc): State {
    s.(pcs := s.pcs[t := pc])
  }

  /** The wait returns true. */
  function Acquire(s: State, t: nat): State {
    Move(s, t, Idle).(acquired := s.acquired + 1)
  }

  predicate Enabled(s: State, a: Action) {
    match a
    case CallWait(t, _) => PcOf(s, t) == Idle
    case CallSignal(t, tokens) => PcOf(s, t) == Idle && tokens > 0
    case CasSpuriousFail(t) => PcOf(s, t).TryCas?
    case WaitFails(t) => PcOf(s, t).Blocked?
    case Continue(t) => !PcOf(s, t).Idle? && (PcOf(s, t).Blocked? ==> s.kernel > 0)
  }

  function Do(s: State, a: Action): State
    requires Enabled(s, a)
  {
    match a
    case CallWait(t, entry) => Move(s, t, TryLoad(entry))
    case CallSignal(t, tokens) =>
      var release := if -s.count < tokens then -s.count else tokens;
      Move(s, t, if release > 0 then Posting(release) else Idle)
        .(count := s.count + tokens, signalled := s.signalled + tokens)
    case CasSpuriousFail(t) => AfterTryLoad(s, t, PcOf(s, t).entry)
    case WaitFails(t) => Move(s, t, RollbackLoad(PcOf(s, t).entry))
    case Continue(t) => Advance(s, t)
  }

  /** Try-wait looks at the value it has: positive means exchange, otherwise it has failed. */
  function AfterTryLoad(s: State, t: nat, entry: Entry): State {
    if s.count > 0 then Move(s, t, TryCas(entry, s.count))
    else if entry == TryWait then Move(s, t, Idle)
    else Move(s, t, SpinLoad(entry, SPINS))
  }

  function AfterSpin(s: State, t: nat, entry: Entry, left: nat): State {
    Move(s, t, if left <= 1 then Subtract(entry) else SpinLoad(entry, left - 1))
  }

  function Advance(s: State, t: nat): State
    requires Enabled(s, Continue(t))
  {
    match PcOf(s, t)
    case TryLoad(entry) => AfterTryLoad(s, t, entry)
    case TryCas(entry, seen) =>
      if s.count == seen then Acquire(s, t).(count := seen - 1) else AfterTryLoad(s, t, entry)
    case SpinLoad(entry, left) =>
      if s.count > 0 then Move(s, t, SpinCas(entry, left, s.count)) else AfterSpin(s, t, entry, left)
    case SpinCas(entry, left, seen) =>
      if s.count == seen then Acquire(s, t).(count := seen - 1) else AfterSpin(s, t, entry, left)
    case Subtract(entry) =>
      if s.count > 0 then Acquire(s, t).(count := s.count - 1)
      else Move(s, t, Blocked(entry)).(count := s.count - 1)
    case Blocked(_) => Acquire(s, t).(kernel := s.kernel - 1)
    case RollbackLoad(entry) => Move(s, t, RollbackCheck(entry, s.count))
    case RollbackCheck(entry, seen) =>
      if seen >= 0 then
        if s.kernel > 0 then Acquire(s, t).(kernel := s.kernel - 1) else Move(s, t, RollbackLoad(entry))
      else if s.count == seen then Move(s, t, Idle).(count := seen + 1)
      else Move(s, t, RollbackLoad(entry))
    case Posting(left) =>
      Move(s, t, if left <= 1 then Idle else Posting(left - 1)).(kernel := s.kernel + 1)
  }

  datatype Outcome = Stuck | Reached(state: State)

  function Exec(s: State, acts: seq<Action>): Outcome
    decreases |acts|
  {
    if acts == [] then Reached(s)
    else if Enabled(s, acts[0]) then Exec(Do(s, acts[0]), acts[1..])
    else Stuck
  }

  // -------------------------------------------------------------------------
  // the inductive invariant

  /** Threads whose decrement of count is still standing. */
  function Registered(pc: Pc): nat {
    if pc.Blocked? || pc.RollbackLoad? || pc.RollbackCheck? then 1 else 0
  }

  /** Kernel posts a signaller has decided on and not made yet. */
  function InFlight(pc: Pc): nat {
    if pc.Posting? then pc.left else 0
  }

  function Positive(x: int): nat { if x > 0 then x else 0 }

  /** A remembered count that is about to be exchanged was positive. */
  ghost predicate LocalsValid(s: State) {
    forall t :: t in s.pcs ==>
      match s.pcs[t]
      case TryCas(_, seen) => seen > 0
      case SpinCas(_, _, seen) => seen > 0
      case Posting(left) => left > 0
      case _ => true
  }

  ghost predicate Inv(s: State) {
    && LocalsValid(s)
    && s.kernel + Total(s.pcs, InFlight) + Positive(-s.count) == Total(s.pcs, Registered)
    && s.count == s.signalled - s.acquired - Total(s.pcs, Registered)
  }

  /** The two balances follow from what one thread's move changes. */
  lemma BalanceStep(s: State, s': State, t: nat, pc: Pc)
    requires Inv(s) && s'.pcs == s.pcs[t := pc]
    requires s'.kernel + InFlight(pc) + Positive(-s'.count) + Registered(PcOf(s, t))
          == s.kernel + InFlight(PcOf(s, t)) + Positive(-s.count) + Registered(pc)
    requires s'.count - s'.signalled + s'.acquired + Registered(pc)
          == s.count - s.signalled + s.acquired + Registered(PcOf(s, t))
    requires LocalsValid(s')
    ensures Inv(s')
  {
    TotalUpdate(s.pcs, Registered, t, pc);
    TotalUpdate(s.pcs, InFlight, t, pc);
  }

  lemma LocalsStep(s: State, a: Action)
    requires LocalsValid(s) && Enabled(s, a)
    ensures LocalsValid(Do(s, a))
  {
    var s' := Do(s, a);
    forall u | u in s'.pcs && u != a.t ensures u in s.pcs && s'.pcs[u] == s.pcs[u] {
    }
  }

  /** Each action moves one thread and shifts the two balances by as much as that thread's share. */
  ghost predicate Balanced(s: State, s': State, t: nat) {
    && t in s'.pcs && s'.pcs == s.pcs[t := s'.pcs[t]]
    && s'.kernel + InFlight(s'.pcs[t]) + Positive(-s'.count) + Registered(PcOf(s, t))
       == s.kernel + InFlight(PcOf(s, t)) + Positive(-s.count) + Registered(s'.pcs[t])
    && s'.count - s'.signalled + s'.acquired + Registered(s'.pcs[t])
       == s.count - s.signalled + s.acquired + Registered(PcOf(s, t))
  }

  lemma AdvanceBalanced(s: State, t: nat)
    requires LocalsValid(s) && Enabled(s, Continue(t))
    ensures Balanced(s, Advance(s, t), t)
  {
    match PcOf(s, t)
    case TryLoad(_) =>
    case TryCas(_, seen) =>
    case SpinLoad(_, _) =>
    case SpinCas(_, _, seen) =>
    case Subtract(_) =>
    case Blocked(_) =>
    case RollbackLoad(_) =>
    case RollbackCheck(_, _) =>
    case Posting(_) =>
  }

  lemma InvStep(s: State, a: Action)
    requires Inv(s) && Enabled(s, a)
    ensures Inv(Do(s, a))
  {
    var s' := Do(s, a);
    LocalsStep(s, a);
    if a.Continue? {
      AdvanceBalanced(s, a.t);
    }
    assert Balanced(s, s', a.t);
    BalanceStep(s, s', a.t, s'.pcs[a.t]);
  }

  lemma {:induction false} InvHolds(s: State, acts: seq<Action>)
    requires Inv(s) && Exec(s, acts).Reached?
    ensures Inv(Exec(s, acts).state)
    decreases |acts|
  {
    if acts != [] {
      InvStep(s, acts[0]);
      InvHolds(Do(s, acts[0]), acts[1..]);
    }
  }

  // -------------------------------------------------------------------------
  // what every run from an empty semaphore keeps

  /** Kernel tokens plus posts in flight equal registered waiters minus max(0, -count). */
  lemma KernelBalance(acts: seq<Action>)
    requires Exec(Initial(0), acts).Reached?
    ensures var s := Exec(Initial(0), acts).state;
      s.kernel + Total(s.pcs, InFlight) == Total(s.pcs, Registered) - Positive(-s.count)
  {
    InvHolds(Initial(0), acts);
  }

  /** Every signalled token is acquired, available in count, in the kernel, or being posted. */
  lemma TokenConservation(acts: seq<Action>)
    requires Exec(Initial(0), acts).Reached?
    ensures var s := Exec(Initial(0), acts).state;
      s.signalled == s.acquired + Positive(s.count) + s.kernel + Total(s.pcs, InFlight)
  {
    InvHolds(Initial(0), acts);
  }

  /**
   A registered waiter is never left behind by an outstanding token: as long as one exists, the
   kernel semaphore holds a token or is about to be posted one.
   */
  lemma OutstandingTokenWakes(acts: seq<Action>, t: nat)
    requires Exec(Initial(0), acts).Reached?
    requires var s := Exec(Initial(0), acts).state;
      s.signalled > s.acquired && Registered(PcOf(s, t)) == 1
    ensures var s := Exec(Initial(0), acts).state; s.kernel + Total(s.pcs, InFlight) > 0
  {
    InvHolds(Initial(0), acts);
    TotalAtLeast(Exec(Initial(0), acts).state.pcs, Registered, t);
  }

  // -------------------------------------------------------------------------
  // acquisitions never exceed tokens, exactly when the semaphore starts at zero

  /** Waits that returned true never outnumber the initial tokens plus the signalled ones. */
  ghost predicate NeverOverAcquires(initcount: nat) {
    forall acts :: Exec(Initial(initcount), acts).Reached? ==>
      Exec(Initial(initcount), acts).state.acquired <= initcount + Exec(Initial(initcount), acts).state.signalled
  }

  lemma {:induction false} ExecAppend(s: State, p: seq<Action>, q: seq<Action>)
    requires Exec(s, p).Reached?
    ensures Exec(s, p + q) == Exec(Exec(s, p).state, q)
    decreases |p|
  {
    if p == [] {
      assert p + q == q;
    } else {
      assert (p + q)[0] == p[0] && (p + q)[1..] == p[1..] + q;
      ExecAppend(Do(s, p[0]), p[1..], q);
    }
  }

  lemma ExecFront(s: State, a: Action, rest: seq<Action>)
    requires Enabled(s, a)
    ensures Exec(s, [a] + rest) == Exec(Do(s, a), rest)
  {
    assert ([a] + rest)[1..] == rest;
  }

  /** Thread 0 can empty the count with fast try-waits, leaving the kernel semaphore untouched. */
  lemma {:induction false} DrainCount(s: State) returns (acts: seq<Action>)
    requires s.count >= 0 && PcOf(s, 0) == Idle
    ensures Exec(s, acts).Reached?
    ensures var e := Exec(s, acts).state;
      && e.count == 0 && e.kernel == s.kernel && PcOf(e, 0) == Idle
      && e.acquired == s.acquired + s.count && e.signalled == s.signalled
    decreases s.count
  {
    if s.count == 0 {
      acts := [];
    } else {
      var s1 := Do(s, CallWait(0, TryWait));
      var s2 := Do(s1, Continue(0));
      var s3 := Do(s2, Continue(0));
      var rest := DrainCount(s3);
      ExecFront(s2, Continue(0), rest);
      ExecFront(s1, Continue(0), [Continue(0)] + rest);
      ExecFront(s, CallWait(0, TryWait), [Continue(0)] + ([Continue(0)] + rest));
      acts := [CallWait(0, TryWait)] + ([Continue(0)] + ([Continue(0)] + rest));
    }
  }

  /** Spinning on an exhausted count reaches the blocking decrement. */
  lemma {:induction false} SpinOut(s: State, left: nat) returns (acts: seq<Action>)
    requires s.count == 0 && PcOf(s, 0) == SpinLoad(Wait, left)
    ensures Exec(s, acts) == Reached(Move(s, 0, Subtract(Wait)))
    decreases left
  {
    var s1 := Do(s, Continue(0));
    if left <= 1 {
      ExecFront(s, Continue(0), []);
      acts := [Continue(0)];
      assert acts == [Continue(0)] + [];
    } else {
      var rest := SpinOut(s1, left - 1);
      ExecFront(s, Continue(0), rest);
      acts := [Continue(0)] + rest;
      assert s1.pcs[0 := Subtract(Wait)] == s.pcs[0 := Subtract(Wait)];
    }
  }

  /** The seeded kernel token is handed out a second time by a blocking wait. */
  lemma SeededTokenAgain(s: State) returns (acts: seq<Action>)
    requires s.count == 0 && s.kernel > 0 && PcOf(s, 0) == Idle
    ensures Exec(s, acts).Reached?
    ensures var e := Exec(s, acts).state; e.acquired == s.acquired + 1 && e.signalled == s.signalled
  {
    var s1 := Do(s, CallWait(0, Wait));
    var s2 := Do(s1, Continue(0));
    var spins := SpinOut(s2, SPINS);
    var s3 := Move(s2, 0, Subtract(Wait));
    var s4 := Do(s3, Continue(0));
    var s5 := Do(s4, Continue(0));
    var tail := [Continue(0)] + ([Continue(0)] + []);
    ExecFront(s4, Continue(0), []);
    ExecFront(s3, Continue(0), [Continue(0)] + []);
    ExecAppend(s2, spins, tail);
    ExecFront(s1, Continue(0), spins + tail);
    ExecFront(s, CallWait(0, Wait), [Continue(0)] + (spins + tail));
    acts := [CallWait(0, Wait)] + ([Continue(0)] + (spins + tail));
  }

  /** The header promises an initial token count; the code keeps it only for zero. */
  lemma NeverOverAcquiresIffZero(initcount: nat)
    ensures NeverOverAcquires(initcount) <==> initcount == 0
  {
    if initcount == 0 {
      forall acts | Exec(Initial(0), acts).Reached?
        ensures Exec(Initial(0), acts).state.acquired <= Exec(Initial(0), acts).state.signalled
      {
        TokenConservation(acts);
      }
    } else {
      var drain := DrainCount(Initial(initcount));
      var again := SeededTokenAgain(Exec(Initial(initcount), drain).state);
      ExecAppend(Initial(initcount), drain, again);
    }
  }


  // -------------------------------------------------------------------------
  // what each call achieves when nobody interferes

  /** A try-wait takes a token exactly if the count is positive, and otherwise changes nothing. */
  lemma TryWaitExact(s: State, t: nat) returns (acts: seq<Action>)
    requires PcOf(s, t) == Idle
    ensures Exec(s, acts).Reached?
    ensures var e := Exec(s, acts).state;
      && PcOf(e, t) == Idle && e.kernel == s.kernel && e.signalled == s.signalled
      && e.count == s.count - (if s.count > 0 then 1 else 0)
      && e.acquired == s.acquired + (if s.count > 0 then 1 else 0)
  {
    var s1 := Do(s, CallWait(t, TryWait));
    var s2 := Do(s1, Continue(t));
    if s.count > 0 {
      ExecFront(s2, Continue(t), []);
      ExecFront(s1, Continue(t), [Continue(t)] + []);
      ExecFront(s, CallWait(t, TryWait), [Continue(t)] + ([Continue(t)] + []));
      acts := [CallWait(t, TryWait)] + ([Continue(t)] + ([Continue(t)] + []));
    } else {
      ExecFront(s1, Continue(t), []);
      ExecFront(s, CallWait(t, TryWait), [Continue(t)] + []);
      acts := [CallWait(t, TryWait)] + ([Continue(t)] + []);
    }
  }

  /** The posts a signal has decided on are made one by one. */
  lemma {:induction false} PostsMade(s: State, t: nat, left: nat) returns (acts: seq<Action>)
    requires PcOf(s, t) == Posting(left) && left > 0
    ensures |acts| == left && Exec(s, acts) == Reached(Move(s, t, Idle).(kernel := s.kernel + left))
    decreases left
  {
    var s1 := Do(s, Continue(t));
    if left == 1 {
      ExecFront(s, Continue(t), []);
      acts := [Continue(t)] + [];
    } else {
      var rest := PostsMade(s1, t, left - 1);
      ExecFront(s, Continue(t), rest);
      acts := [Continue(t)] + rest;
      assert Move(s1, t, Idle).pcs == Move(s, t, Idle).pcs;
    }
  }

  /** A signal adds its tokens to the count and wakes as many waiters as there are, but no more than tokens. */
  lemma SignalExact(s: State, t: nat, tokens: nat) returns (acts: seq<Action>)
    requires PcOf(s, t) == Idle && tokens > 0
    ensures Exec(s, acts).Reached?
    ensures var e := Exec(s, acts).state;
      && PcOf(e, t) == Idle && e.count == s.count + tokens && e.signalled == s.signalled + tokens
      && e.acquired == s.acquired
      && e.kernel == s.kernel + (if Positive(-s.count) < tokens then Positive(-s.count) else tokens)
  {
    var s1 := Do(s, CallSignal(t, tokens));
    if s.count < 0 {
      var posts := PostsMade(s1, t, PcOf(s1, t).left);
      ExecFront(s, CallSignal(t, tokens), posts);
      acts := [CallSignal(t, tokens)] + posts;
    } else {
      ExecFront(s, CallSignal(t, tokens), []);
      acts := [CallSignal(t, tokens)] + [];
    }
  }

  /** A wait that gives up puts its decrement back, or takes the token that was posted for it meanwhile. */
  lemma GivingUp(s: State, t: nat)
    requires PcOf(s, t).Blocked? && (s.count < 0 || s.kernel > 0)
    ensures var out := Exec(s, [WaitFails(t), Continue(t), Continue(t)]);
      && out.Reached? && PcOf(out.state, t) == Idle && out.state.signalled == s.signalled
      && (s.count < 0 ==>
            out.state.count == s.count + 1 && out.state.kernel == s.kernel && out.state.acquired == s.acquired)
      && (s.count >= 0 ==>
            out.state.count == s.count && out.state.kernel == s.kernel - 1 && out.state.acquired == s.acquired + 1)
  {
    var s1 := Do(s, WaitFails(t));
    var s2 := Do(s1, Continue(t));
    ExecFront(s2, Continue(t), []);
    ExecFront(s1, Continue(t), [Continue(t)] + []);
    ExecFront(s, WaitFails(t), [Continue(t)] + ([Continue(t)] + []));
    assert [WaitFails(t), Continue(t), Continue(t)] == [WaitFails(t)] + ([Continue(t)] + ([Continue(t)] + []));
  }

  /** A blocked wait takes a posted token and returns true. */
  lemma TokenEndsWait(s: State, t: nat)
    requires PcOf(s, t).Blocked? && s.kernel > 0
    ensures var e := Do(s, Continue(t));
      PcOf(e, t) == Idle && e.acquired == s.acquired + 1 && e.kernel == s.kernel - 1 && e.count == s.count
  {
  }
}
