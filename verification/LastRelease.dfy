/**
 The last reference to the shared idle table out, with the unlock taken apart. Posted messages and the
 destroy itself each lock the hybrid mutex inside the table, take themselves off (a message its count, the
 destroy by requesting it) and unlock; whoever leaves neither a message nor a destroy to come frees the
 table (idletableReleaseMessageRef and idletableDestroy of ww/base/widle_table.c). The unlock of
 ww/base/wmutex.h clears the flag first and reads the waiter count after, so its second half is a step of
 its own.
 */
module LastRelease {
  import opened Totals

  datatype Pc =
    | Waiting              // about to take the flag
    | Holding              // has the flag, about to take its reference off
    | Clearing(last: bool) // about to clear the flag
    | Tail(last: bool)     // has cleared it, about to read the waiter count: its last access
    | Freeing              // unlock has returned to the holder of the last reference
    | Done

  datatype State = State(refs: nat, flag: bool, freed: bool, pcs: map<nat, Pc>)

  function AllWaiting(n: nat): (pcs: map<nat, Pc>)
    ensures forall t: nat :: t in pcs <==> t < n
    ensures forall t :: t in pcs ==> pcs[t] == Waiting
  {
    if n == 0 then map[] else AllWaiting(n - 1)[n - 1 := Waiting]
  }

  function Initial(n: nat): State { State(n, false, false, AllWaiting(n)) }

  predicate Enabled(s: State, t: nat) {
    t in s.pcs && s.pcs[t] != Done && (s.pcs[t] == Waiting ==> !s.flag)
  }

  function At(s: State, t: nat, pc: Pc): State { s.(pcs := s.pcs[t := pc]) }

  function Do(s: State, t: nat): State
    requires Enabled(s, t)
  {
    match s.pcs[t]
    case Waiting => At(s, t, Holding).(flag := true)
    case Holding =>
      var left := if s.refs > 0 then s.refs - 1 else 0;
      At(s, t, Clearing(left == 0)).(refs := left)
    case Clearing(last) => At(s, t, Tail(last)).(flag := false)
    case Tail(last) => At(s, t, if last then Freeing else Done)
    case Freeing => At(s, t, Done).(freed := true)
    case Done => s
  }

  datatype Outcome = Stuck | Reached(state: State)

  /** A run is the sequence of the threads that step. */
  function Exec(s: State, threads: seq<nat>): Outcome
    decreases |threads|
  {
    if threads == [] then Reached(s)
    else if Enabled(s, threads[0]) then Exec(Do(s, threads[0]), threads[1..])
    else Stuck
  }

  // -------------------------------------------------------------------------
  // the inductive invariant

  function HasRef(pc: Pc): nat { if pc == Waiting || pc == Holding then 1 else 0 }
  function InSection(pc: Pc): nat { if pc == Holding || pc.Clearing? then 1 else 0 }
  function IsLast(pc: Pc): nat { if pc == Clearing(true) || pc == Tail(true) || pc == Freeing then 1 else 0 }
  function PastFlag(pc: Pc): nat { if pc == Tail(true) || pc == Freeing then 1 else 0 }

  ghost predicate Inv(s: State) {
    && s.refs == Total(s.pcs, HasRef)
    && Total(s.pcs, InSection) == (if s.flag then 1 else 0)
    && Total(s.pcs, IsLast) + (if s.freed then 1 else 0) <= (if s.refs == 0 then 1 else 0)
    && (s.flag ==> Total(s.pcs, PastFlag) == 0 && !s.freed)
  }

  lemma InvStep(s: State, t: nat)
    requires Inv(s) && Enabled(s, t)
    ensures Inv(Do(s, t))
  {
    var pc := Do(s, t).pcs[t];
    TotalUpdate(s.pcs, HasRef, t, pc);
    TotalUpdate(s.pcs, InSection, t, pc);
    TotalUpdate(s.pcs, IsLast, t, pc);
    TotalUpdate(s.pcs, PastFlag, t, pc);
    TotalAtLeast(s.pcs, HasRef, t);
    TotalAtLeast(s.pcs, InSection, t);
    TotalAtLeast(s.pcs, IsLast, t);
    TotalAtLeast(s.pcs, PastFlag, t);
    PastIsLast(s.pcs);
  }

  lemma {:induction false} PastIsLast(pcs: map<nat, Pc>)
    ensures Total(pcs, PastFlag) <= Total(pcs, IsLast)
    decreases |pcs|
  {
    if pcs != map[] {
      var t :| t in pcs;
      TotalSplit(pcs, PastFlag, t);
      TotalSplit(pcs, IsLast, t);
      PastIsLast(pcs - {t});
    }
  }

  lemma {:induction false} InvHolds(s: State, threads: seq<nat>)
    requires Inv(s) && Exec(s, threads).Reached?
    ensures Inv(Exec(s, threads).state)
    decreases |threads|
  {
    if threads != [] {
      InvStep(s, threads[0]);
      InvHolds(Do(s, threads[0]), threads[1..]);
    }
  }

  lemma {:induction false} WaitingTotal(n: nat, weight: Pc -> nat)
    requires weight(Waiting) <= 1
    ensures Total(AllWaiting(n), weight) == if weight(Waiting) == 1 then n else 0
  {
    if n > 0 {
      WaitingTotal(n - 1, weight);
      TotalUpdate(AllWaiting(n - 1), weight, n - 1, Waiting);
    }
  }

  lemma InitialInv(n: nat)
    ensures Inv(Initial(n))
  {
    WaitingTotal(n, HasRef);
    WaitingTotal(n, InSection);
    WaitingTotal(n, IsLast);
    WaitingTotal(n, PastFlag);
  }

  // -------------------------------------------------------------------------
  // who can still touch the object once it is freed

  /**
   In every run, once the object is freed, a releaser is either done or in the second half of the
   unlock of a reference that was not the last. Nothing else can reach the object any more.
   */
  lemma OnlyTailsAfterFree(n: nat, threads: seq<nat>, t: nat)
    requires Exec(Initial(n), threads).Reached? && Exec(Initial(n), threads).state.freed
    requires t in Exec(Initial(n), threads).state.pcs
    ensures Exec(Initial(n), threads).state.pcs[t] in {Done, Tail(false)}
  {
    InitialInv(n);
    InvHolds(Initial(n), threads);
    var s := Exec(Initial(n), threads).state;
    TotalAtLeast(s.pcs, HasRef, t);
    TotalAtLeast(s.pcs, InSection, t);
    TotalAtLeast(s.pcs, IsLast, t);
  }

  /** In every run, whoever has a step to take on the object finds it allocated. */
  ghost predicate NeverLate(n: nat) {
    forall threads :: Exec(Initial(n), threads).Reached? ==> Settled(Exec(Initial(n), threads).state)
  }

  predicate Settled(s: State) { s.freed ==> forall t :: t in s.pcs ==> s.pcs[t] == Done }

  // -------------------------------------------------------------------------
  // exactly one holder

  ghost predicate Alone(s: State) {
    && (forall t :: t in s.pcs ==> t == 0 && s.pcs[t] !in {Clearing(false), Tail(false)})
    && (0 in s.pcs && s.pcs[0] == Holding ==> s.refs == 1) && (0 in s.pcs && s.pcs[0] == Waiting ==> s.refs == 1)
    && (s.freed ==> 0 in s.pcs && s.pcs[0] == Done)
  }

  lemma {:induction false} AloneHolds(s: State, threads: seq<nat>)
    requires Alone(s) && Exec(s, threads).Reached?
    ensures Alone(Exec(s, threads).state)
    decreases |threads|
  {
    if threads != [] {
      AloneHolds(Do(s, threads[0]), threads[1..]);
    }
  }

  // -------------------------------------------------------------------------
  // two or more: the first releaser pauses in its unlock while the others come and go

  lemma {:induction false} ExecConcat(s: State, p: seq<nat>, q: seq<nat>)
    requires Exec(s, p).Reached?
    ensures Exec(s, p + q) == Exec(Exec(s, p).state, q)
    decreases |p|
  {
    if p == [] {
      assert p + q == q;
    } else {
      assert (p + q)[1..] == p[1..] + q;
      ExecConcat(Do(s, p[0]), p[1..], q);
    }
  }

  lemma ExecFront(s: State, t: nat, rest: seq<nat>)
    requires Enabled(s, t)
    ensures Exec(s, [t] + rest) == Exec(Do(s, t), rest)
  {
    assert ([t] + rest)[1..] == rest;
  }

  /** Thread t takes the flag, drops its reference and clears the flag again. */
  lemma ThreeSteps(s: State, t: nat)
    requires t in s.pcs && s.pcs[t] == Waiting && !s.flag && s.refs > 0
    ensures Exec(s, [t, t, t]) == Reached(At(s, t, Tail(s.refs == 1)).(refs := s.refs - 1))
  {
    var s1 := Do(s, t);
    var s2 := Do(s1, t);
    var s3 := Do(s2, t);
    ExecFront(s2, t, []);
    ExecFront(s1, t, [t] + []);
    ExecFront(s, t, [t] + ([t] + []));
    assert [t, t, t] == [t] + ([t] + ([t] + []));
    assert s3.pcs == s.pcs[t := Tail(s.refs == 1)];
  }

  /** Threads k.. are still to come, thread 0 is in its tail. */
  ghost predicate Paused(s: State, k: nat, n: nat) {
    && 1 <= k < n && s.refs == n - k && !s.flag && !s.freed
    && 0 in s.pcs && s.pcs[0] == Tail(false)
    && forall t :: k <= t < n ==> t in s.pcs && s.pcs[t] == Waiting
  }

  lemma {:induction false} OthersFinish(s: State, k: nat, n: nat) returns (threads: seq<nat>)
    requires Paused(s, k, n)
    ensures Exec(s, threads).Reached? && !Settled(Exec(s, threads).state)
    decreases n - k
  {
    ThreeSteps(s, k);
    var s3 := Exec(s, [k, k, k]).state;
    if k == n - 1 {
      var s4 := Do(s3, k);
      ExecFront(s4, k, []);
      ExecFront(s3, k, [k] + []);
      ExecConcat(s, [k, k, k], [k] + ([k] + []));
      threads := [k, k, k] + ([k] + ([k] + []));
      assert Do(s4, k).pcs[0] == Tail(false);
    } else {
      var rest := OthersFinish(s3, k + 1, n);
      ExecConcat(s, [k, k, k], rest);
      threads := [k, k, k] + rest;
    }
  }

  /** Freeing by the last one out is safe against the unlocks still under way exactly for a sole holder. */
  lemma SafeIffSole(n: nat)
    ensures NeverLate(n) <==> n <= 1
  {
    if n <= 1 {
      forall threads | Exec(Initial(n), threads).Reached? ensures Settled(Exec(Initial(n), threads).state) {
        AloneHolds(Initial(n), threads);
      }
    } else {
      ThreeSteps(Initial(n), 0);
      var s := Exec(Initial(n), [0, 0, 0]).state;
      var rest := OthersFinish(s, 1, n);
      ExecConcat(Initial(n), [0, 0, 0], rest);
    }
  }
}
