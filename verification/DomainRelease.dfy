/**
 The lifetime of a dispatch domain with the unlock taken apart (ww/api/dispatcher.c, ww/base/wmutex.h).
 A domain holds the mutex under which the references of its jobs are dropped. The releaser that takes a
 job's last reference drops the job's reference to the domain, but only after its own unlock has
 returned; destroying the domain does the same for the creator's reference. Whoever drops the last
 reference to the domain frees it. The unlock clears the flag first and reads the waiter count after.
 */
module DomainRelease {
  import opened Totals

  datatype Pc =
    | Waiting              // about to take the flag
    | Holding              // has the flag, about to take its reference off
    | Clearing(last: bool) // about to clear the flag
    | Tail(last: bool)     // has cleared it, about to read the waiter count
    | Dropping             // about to drop a reference to the domain
    | Done

  datatype Releaser = Releaser(job: nat, pc: Pc)

  /** `refs` counts each job's references, `domainRefs` the domain's. */
  datatype State = State(flag: bool, freed: bool, domainRefs: nat, refs: map<nat, nat>, threads: map<nat, Releaser>)

  /** Thread 0 is the domain's creator, with a job number of its own; it destroys the domain. */
  const CREATOR: nat := 0

  /** Which job each releaser holds a reference of; the creator shares its number with nobody. */
  ghost predicate ValidPlan(plan: map<nat, nat>) {
    CREATOR in plan && plan[CREATOR] == CREATOR && forall t :: t in plan && plan[t] == CREATOR ==> t == CREATOR
  }

  /** A thread takes the flag when it is clear; destroy demands that no job holds anything any more. */
  predicate Enabled(s: State, t: nat) {
    && t in s.threads && s.threads[t].pc != Done && s.threads[t].job in s.refs
    && (s.threads[t].pc == Waiting ==> !s.flag)
    && (s.threads[t].pc == Waiting && t == CREATOR ==> JobsGone(s))
  }

  predicate JobsGone(s: State) { forall j :: j in s.refs && j != CREATOR ==> s.refs[j] == 0 }

  function At(s: State, t: nat, pc: Pc): State
    requires t in s.threads
  {
    s.(threads := s.threads[t := s.threads[t].(pc := pc)])
  }

  function Do(s: State, t: nat): State
    requires Enabled(s, t)
  {
    var job := s.threads[t].job;
    match s.threads[t].pc
    case Waiting => At(s, t, Holding).(flag := true)
    case Holding =>
      var left := if s.refs[job] > 0 then s.refs[job] - 1 else 0;
      At(s, t, Clearing(left == 0)).(refs := s.refs[job := left])
    case Clearing(last) => At(s, t, Tail(last)).(flag := false)
    case Tail(last) => At(s, t, if last then Dropping else Done)
    case Dropping =>
      var left := if s.domainRefs > 0 then s.domainRefs - 1 else 0;
      At(s, t, Done).(domainRefs := left, freed := left == 0)
    case Done => s
  }

  datatype Outcome = Stuck | Reached(state: State)

  function Exec(s: State, run: seq<nat>): Outcome
    decreases |run|
  {
    if run == [] then Reached(s)
    else if Enabled(s, run[0]) then Exec(Do(s, run[0]), run[1..])
    else Stuck
  }

  // -------------------------------------------------------------------------
  // where references are

  function RefWeight(r: Releaser, job: nat): nat {
    if r.job == job && (r.pc == Waiting || r.pc == Holding) then 1 else 0
  }

  ghost function RefOn(job: nat): Releaser -> nat { r => RefWeight(r, job) }

  function InSection(r: Releaser): nat { if r.pc == Holding || r.pc.Clearing? then 1 else 0 }
  function Owing(r: Releaser): nat { if r.pc == Clearing(true) || r.pc == Tail(true) || r.pc == Dropping then 1 else 0 }
  function Alive(refs: nat): nat { if refs > 0 then 1 else 0 }

  ghost predicate ThreadOk(s: State, t: nat)
    requires t in s.threads
  {
    && s.threads[t].job in s.refs
    && (s.threads[t].pc == Clearing(false) ==> s.refs[s.threads[t].job] > 0)
  }

  /** A job's count is the number of its releasers that have not dropped theirs. */
  ghost predicate RefsOk(s: State, j: nat)
    requires j in s.refs
  {
    s.refs[j] == Total(s.threads, RefOn(j))
  }

  ghost predicate DomainOk(s: State) {
    && s.domainRefs == Total(s.refs, Alive) + Total(s.threads, Owing)
    && (s.freed <==> s.domainRefs == 0)
  }

  ghost predicate SectionOk(s: State) { Total(s.threads, InSection) == (if s.flag then 1 else 0) }

  ghost predicate Inv(s: State) {
    && SectionOk(s) && DomainOk(s)
    && (forall j :: j in s.refs ==> RefsOk(s, j))
    && (forall t :: t in s.threads ==> ThreadOk(s, t))
  }

  /** The references of every job after thread t has moved. */
  lemma RefsStep(s: State, t: nat, j: nat)
    requires Enabled(s, t) && j in s.refs && RefsOk(s, j)
    ensures j in Do(s, t).refs && RefsOk(Do(s, t), j)
  {
    var s' := Do(s, t);
    TotalUpdate(s.threads, RefOn(j), t, s'.threads[t]);
    TotalAtLeast(s.threads, RefOn(j), t);
    assert RefOn(j)(s.threads[t]) == RefWeight(s.threads[t], j);
    assert RefOn(j)(s'.threads[t]) == RefWeight(s'.threads[t], j);
  }

  /** Taking a reference off its job keeps the domain's account: the job's share becomes the taker's debt. */
  lemma TakenStep(s: State, t: nat)
    requires Enabled(s, t) && DomainOk(s) && RefsOk(s, s.threads[t].job) && s.threads[t].pc == Holding
    ensures DomainOk(Do(s, t))
  {
    var s' := Do(s, t);
    var job := s.threads[t].job;
    TotalAtLeast(s.threads, RefOn(job), t);
    assert RefOn(job)(s.threads[t]) == 1;
    TotalUpdate(s.threads, Owing, t, s'.threads[t]);
    TotalUpdate(s.refs, Alive, job, s'.refs[job]);
  }

  lemma DomainStep(s: State, t: nat)
    requires Enabled(s, t) && DomainOk(s) && RefsOk(s, s.threads[t].job)
    ensures DomainOk(Do(s, t))
  {
    if s.threads[t].pc == Holding {
      TakenStep(s, t);
    } else {
      TotalUpdate(s.threads, Owing, t, Do(s, t).threads[t]);
      TotalAtLeast(s.threads, Owing, t);
    }
  }

  lemma SectionStep(s: State, t: nat)
    requires Enabled(s, t) && SectionOk(s)
    ensures SectionOk(Do(s, t))
  {
    TotalUpdate(s.threads, InSection, t, Do(s, t).threads[t]);
    TotalAtLeast(s.threads, InSection, t);
  }

  /** Only the thread in the section is there, so nobody else is about to clear the flag. */
  lemma ThreadsStep(s: State, t: nat, u: nat)
    requires Enabled(s, t) && u in s.threads && SectionOk(s) && ThreadOk(s, u)
    ensures u in Do(s, t).threads && ThreadOk(Do(s, t), u)
  {
    if u != t && InSection(s.threads[t]) == 1 {
      TotalAtLeastPair(s.threads, InSection, t, u);
    }
  }

  lemma InvStep(s: State, t: nat)
    requires Inv(s) && Enabled(s, t)
    ensures Inv(Do(s, t))
  {
    var s' := Do(s, t);
    forall j | j in s'.refs ensures RefsOk(s', j) {
      RefsStep(s, t, j);
    }
    forall u | u in s'.threads ensures ThreadOk(s', u) {
      ThreadsStep(s, t, u);
    }
    DomainStep(s, t);
    SectionStep(s, t);
  }

  lemma {:induction false} InvHolds(s: State, run: seq<nat>)
    requires Inv(s) && Exec(s, run).Reached?
    ensures Inv(Exec(s, run).state)
    decreases |run|
  {
    if run != [] {
      InvStep(s, run[0]);
      InvHolds(Do(s, run[0]), run[1..]);
    }
  }

  // -------------------------------------------------------------------------
  // the beginning

  /** All releasers of the plan are about to start, and every count is what they hold. */
  ghost predicate Fresh(s: State, plan: map<nat, nat>) {
    && !s.flag && !s.freed && s.threads.Keys == plan.Keys
    && (forall t :: t in plan ==> s.threads[t] == Releaser(plan[t], Waiting))
    && (forall j :: j in s.refs <==> exists t :: t in plan && plan[t] == j)
    && (forall j :: j in s.refs ==> RefsOk(s, j))
    && s.domainRefs == Total(s.refs, Alive)
  }

  /** The creator holds a reference, so the domain is not free to begin with. */
  lemma FreshDomain(s: State, plan: map<nat, nat>)
    requires ValidPlan(plan) && Fresh(s, plan)
    ensures DomainOk(s)
  {
    TotalZero(s.threads, Owing);
    assert plan[CREATOR] in s.refs && RefsOk(s, CREATOR);
    HoldsOne(s, CREATOR);
    TotalAtLeast(s.refs, Alive, CREATOR);
  }

  lemma FreshInv(s: State, plan: map<nat, nat>)
    requires ValidPlan(plan) && Fresh(s, plan)
    ensures Inv(s)
  {
    FreshDomain(s, plan);
    TotalZero(s.threads, InSection);
    forall t | t in s.threads ensures ThreadOk(s, t) {
      assert t in plan && plan[t] in s.refs;
    }
  }

  // -------------------------------------------------------------------------
  // who can still touch the domain once it is freed

  /** In every run, once the domain is freed, a releaser is done or in the tail of an unlock not its job's last. */
  lemma OnlyTailsAfterFree(plan: map<nat, nat>, s0: State, run: seq<nat>, t: nat)
    requires ValidPlan(plan) && Fresh(s0, plan) && Exec(s0, run).Reached?
    requires Exec(s0, run).state.freed && t in Exec(s0, run).state.threads
    ensures Exec(s0, run).state.threads[t].pc in {Done, Tail(false)}
  {
    FreshInv(s0, plan);
    InvHolds(s0, run);
    var s := Exec(s0, run).state;
    FreedIsOver(s, t);
  }

  lemma FreedIsOver(s: State, t: nat)
    requires Inv(s) && s.freed && t in s.threads
    ensures s.threads[t].pc in {Done, Tail(false)}
  {
    assert ThreadOk(s, t);
    var job := s.threads[t].job;
    assert RefsOk(s, job);
    TotalAtLeast(s.refs, Alive, job);
    TotalAtLeast(s.threads, RefOn(job), t);
    TotalAtLeast(s.threads, Owing, t);
    assert RefOn(job)(s.threads[t]) == RefWeight(s.threads[t], job);
  }

  predicate Settled(s: State) { s.freed ==> forall t :: t in s.threads ==> s.threads[t].pc == Done }

  /** In every run of the plan, nobody has a step left on a freed domain. */
  ghost predicate NeverLate(plan: map<nat, nat>) {
    forall s0, run :: Fresh(s0, plan) && Exec(s0, run).Reached? ==> Settled(Exec(s0, run).state)
  }

  /** No job has two releasers. */
  ghost predicate SoleReleasers(plan: map<nat, nat>) {
    forall t, u :: t in plan && u in plan && plan[t] == plan[u] ==> t == u
  }

  // -------------------------------------------------------------------------
  // one releaser for each job: every release is its job's last

  ghost predicate Sole(s: State) {
    && (forall t, u :: t in s.threads && u in s.threads && s.threads[t].job == s.threads[u].job ==> t == u)
    && (forall t :: t in s.threads ==> s.threads[t].pc !in {Clearing(false), Tail(false)})
  }

  lemma LastOfItsJob(s: State, t: nat)
    requires Sole(s) && t in s.threads && s.threads[t].pc == Holding
    requires s.threads[t].job in s.refs && RefsOk(s, s.threads[t].job)
    ensures s.refs[s.threads[t].job] == 1
  {
    var job := s.threads[t].job;
    TotalSplit(s.threads, RefOn(job), t);
    TotalZero(s.threads - {t}, RefOn(job));
    assert RefOn(job)(s.threads[t]) == 1;
  }

  lemma SoleStep(s: State, t: nat)
    requires Sole(s) && Enabled(s, t) && RefsOk(s, s.threads[t].job)
    ensures Sole(Do(s, t))
  {
    if s.threads[t].pc == Holding {
      LastOfItsJob(s, t);
    }
  }

  lemma {:induction false} SoleHolds(s: State, run: seq<nat>)
    requires Inv(s) && Sole(s) && Exec(s, run).Reached?
    ensures Sole(Exec(s, run).state)
    decreases |run|
  {
    if run != [] {
      SoleStep(s, run[0]);
      InvStep(s, run[0]);
      SoleHolds(Do(s, run[0]), run[1..]);
    }
  }

  lemma SoleIsSafe(plan: map<nat, nat>, s0: State, run: seq<nat>)
    requires ValidPlan(plan) && SoleReleasers(plan) && Fresh(s0, plan) && Exec(s0, run).Reached?
    ensures Settled(Exec(s0, run).state)
  {
    FreshInv(s0, plan);
    assert Sole(s0);
    InvHolds(s0, run);
    SoleHolds(s0, run);
    var s := Exec(s0, run).state;
    if s.freed {
      forall t | t in s.threads ensures s.threads[t].pc == Done {
        FreedIsOver(s, t);
      }
    }
  }

  // -------------------------------------------------------------------------
  // two releasers of one job: the first pauses in its unlock while everybody else comes and goes

  lemma {:induction false} ExecConcat(s: State, p: seq<nat>, q: seq<nat>)
    requires Exec(s, p).Reached?
    ensures Exec(s, p + q) == Exec(Exec(s, p).state, q)
    decreases |p|
  {
    if p == [] {
      assert p + q == q;
    } else {
      assert (p + q)[1..] == p[1..] + q;
      ExecConcat(Do(s, p[0]), p[1..], q);
    }
  }

  lemma ExecFront(s: State, t: nat, rest: seq<nat>)
    requires Enabled(s, t)
    ensures Exec(s, [t] + rest) == Exec(Do(s, t), rest)
  {
    assert ([t] + rest)[1..] == rest;
  }

  /** Nobody is in the section, and nobody owes the domain a reference. */
  ghost predicate Idle(s: State) {
    !s.flag && forall t :: t in s.threads ==> s.threads[t].pc in {Waiting, Done, Tail(false)}
  }

  /** Thread v has dropped its reference and cleared the flag again. */
  function InTail(s: State, v: nat): State
    requires v in s.threads && s.threads[v].job in s.refs && s.refs[s.threads[v].job] > 0
  {
    var job := s.threads[v].job;
    At(s, v, Tail(s.refs[job] == 1)).(flag := false, refs := s.refs[job := s.refs[job] - 1])
  }

  lemma ToTailRun(s: State, v: nat)
    requires Enabled(s, v) && s.threads[v].pc == Waiting && s.refs[s.threads[v].job] > 0
    ensures Exec(s, [v, v, v]) == Reached(InTail(s, v))
  {
    var s1 := Do(s, v);
    var s2 := Do(s1, v);
    var s3 := Do(s2, v);
    ExecFront(s2, v, []);
    ExecFront(s1, v, [v] + []);
    ExecFront(s, v, [v] + ([v] + []));
    assert [v, v, v] == [v] + ([v] + ([v] + []));
    assert s3.threads == InTail(s, v).threads;
  }

  lemma HoldsOne(s: State, v: nat)
    requires v in s.threads && s.threads[v].pc == Waiting && s.threads[v].job in s.refs && RefsOk(s, s.threads[v].job)
    ensures s.refs[s.threads[v].job] > 0
  {
    var job := s.threads[v].job;
    TotalAtLeast(s.threads, RefOn(job), v);
    assert RefOn(job)(s.threads[v]) == 1;
  }

  /** The run of a release from its tail on: one step, or two for the last of a job. */
  function Finish(v: nat, last: bool): seq<nat> { if last then [v] + ([v] + []) else [v] + [] }

  lemma FromTailRun(s: State, v: nat)
    requires v in s.threads && s.threads[v].pc.Tail? && s.threads[v].job in s.refs
    ensures var out := Exec(s, Finish(v, s.threads[v].pc.last));
      && out.Reached? && out.state.flag == s.flag && out.state.refs == s.refs
      && out.state.threads == s.threads[v := Releaser(s.threads[v].job, Done)]
  {
    var s1 := Do(s, v);
    if s.threads[v].pc.last {
      ExecFront(s1, v, []);
      ExecFront(s, v, [v] + []);
    } else {
      ExecFront(s, v, []);
    }
  }

  /** The run of a whole release. */
  function Release(v: nat, last: bool): seq<nat> { [v, v, v] + Finish(v, last) }

  lemma ReleaseRun(s: State, v: nat)
    requires Enabled(s, v) && s.threads[v].pc == Waiting && s.refs[s.threads[v].job] > 0
    ensures var out := Exec(s, Release(v, s.refs[s.threads[v].job] == 1));
      out.Reached? && !out.state.flag && out.state.threads == s.threads[v := Releaser(s.threads[v].job, Done)]
  {
    ToTailRun(s, v);
    FromTailRun(InTail(s, v), v);
    ExecConcat(s, [v, v, v], Finish(v, s.refs[s.threads[v].job] == 1));
  }

  /** A waiting thread does its whole release. */
  lemma WholeRelease(s: State, v: nat) returns (run: seq<nat>, e: State)
    requires Inv(s) && Idle(s) && Enabled(s, v) && s.threads[v].pc == Waiting
    ensures Exec(s, run) == Reached(e) && Idle(e) && Inv(e)
    ensures e.threads == s.threads[v := Releaser(s.threads[v].job, Done)]
  {
    assert RefsOk(s, s.threads[v].job);
    HoldsOne(s, v);
    ReleaseRun(s, v);
    run := Release(v, s.refs[s.threads[v].job] == 1);
    e := Exec(s, run).state;
    InvHolds(s, run);
  }

  ghost function WaitingSet(s: State): set<nat> { set v | v in s.threads && s.threads[v].pc == Waiting }

  /** The creator works under its own number. */
  ghost predicate CreatorApart(s: State) { CREATOR in s.threads && s.threads[CREATOR].job == CREATOR }

  /** Without waiting releasers nobody holds a reference of the job. */
  lemma NothingHeld(s: State, j: nat)
    requires Inv(s) && Idle(s) && j in s.refs
    requires forall v :: v in s.threads && s.threads[v].pc == Waiting ==> s.threads[v].job != j
    ensures s.refs[j] == 0
  {
    assert RefsOk(s, j);
    TotalZero(s.threads, RefOn(j));
  }

  /** As long as releasers are waiting one of them can start; the creator once it is the only one. */
  lemma SomeoneCanStart(s: State) returns (v: nat)
    requires Inv(s) && Idle(s) && CreatorApart(s) && WaitingSet(s) != {}
    ensures v in WaitingSet(s) && Enabled(s, v)
  {
    v :| v in WaitingSet(s);
    if w :| w in WaitingSet(s) && w != CREATOR {
      v := w;
    } else {
      forall j | j in s.refs && j != CREATOR ensures s.refs[j] == 0 {
        assert forall u :: u in s.threads && s.threads[u].pc == Waiting ==> u in WaitingSet(s);
        NothingHeld(s, j);
      }
    }
    assert ThreadOk(s, v);
  }

  /** Thread t is in the tail of a release that was not its job's last. */
  predicate Paused(s: State, t: nat) { t in s.threads && s.threads[t].pc == Tail(false) }

  lemma OneFewer(s: State, e: State, v: nat, t: nat)
    requires v in WaitingSet(s) && Paused(s, t) && CreatorApart(s)
    requires e.threads == s.threads[v := Releaser(s.threads[v].job, Done)]
    ensures |WaitingSet(e)| < |WaitingSet(s)| && Paused(e, t) && CreatorApart(e)
  {
    assert WaitingSet(e) == WaitingSet(s) - {v};
  }

  /** One more waiting releaser comes and goes. */
  lemma NextFinishes(s: State, t: nat) returns (run: seq<nat>, e: State)
    requires Inv(s) && Idle(s) && CreatorApart(s) && WaitingSet(s) != {} && Paused(s, t)
    ensures Exec(s, run) == Reached(e) && Inv(e) && Idle(e) && CreatorApart(e)
    ensures Paused(e, t) && |WaitingSet(e)| < |WaitingSet(s)|
  {
    var v := SomeoneCanStart(s);
    run, e := WholeRelease(s, v);
    OneFewer(s, e, v, t);
  }

  /** Everybody who is waiting comes and goes; t stays in its tail. */
  lemma {:induction false} AllFinish(s: State, t: nat) returns (run: seq<nat>, e: State)
    requires Inv(s) && Idle(s) && CreatorApart(s) && Paused(s, t)
    ensures Exec(s, run) == Reached(e) && Inv(e) && Idle(e) && WaitingSet(e) == {} && Paused(e, t)
    decreases |WaitingSet(s)|
  {
    if WaitingSet(s) == {} {
      run, e := [], s;
    } else {
      var first, mid := NextFinishes(s, t);
      var rest;
      rest, e := AllFinish(mid, t);
      ExecConcat(s, first, rest);
      run := first + rest;
    }
  }

  /** With nobody left waiting, the domain has been freed. */
  lemma AllGoneIsFreed(s: State)
    requires Inv(s) && Idle(s) && WaitingSet(s) == {}
    ensures s.freed
  {
    forall j | j in s.refs ensures s.refs[j] == 0 {
      assert forall v :: v in s.threads ==> v !in WaitingSet(s);
      NothingHeld(s, j);
    }
    TotalZero(s.refs, Alive);
    TotalZero(s.threads, Owing);
  }

  ghost function Start(plan: map<nat, nat>): State {
    var threads := map t | t in plan :: Releaser(plan[t], Waiting);
    var refs := map j | j in plan.Values :: Total(threads, RefOn(j));
    State(false, false, Total(refs, Alive), refs, threads)
  }

  lemma StartIsFresh(plan: map<nat, nat>)
    ensures Fresh(Start(plan), plan)
  {
  }

  lemma TwoHeld(plan: map<nat, nat>, s: State, t: nat, u: nat)
    requires Fresh(s, plan) && t in plan && u in plan && t != u && plan[t] == plan[u]
    ensures plan[t] in s.refs && s.refs[plan[t]] >= 2
  {
    var job := plan[t];
    assert job in s.refs && RefsOk(s, job);
    TotalAtLeastPair(s.threads, RefOn(job), t, u);
    assert RefOn(job)(s.threads[t]) == 1 && RefOn(job)(s.threads[u]) == 1;
  }

  /** After the first of two releasers of a job has got to its tail. */
  lemma TailState(plan: map<nat, nat>, s: State, t: nat)
    requires ValidPlan(plan) && Fresh(s, plan) && t in plan && plan[t] in s.refs && s.refs[plan[t]] >= 2
    ensures Idle(InTail(s, t)) && CreatorApart(InTail(s, t)) && Paused(InTail(s, t), t)
  {
  }

  lemma FirstPauses(plan: map<nat, nat>, s0: State, t: nat, u: nat)
    requires ValidPlan(plan) && Fresh(s0, plan) && t in plan && u in plan && t != u && plan[t] == plan[u]
    ensures plan[t] in s0.refs && s0.refs[plan[t]] >= 2
    ensures Exec(s0, [t, t, t]) == Reached(InTail(s0, t)) && Inv(InTail(s0, t))
  {
    TwoHeld(plan, s0, t, u);
    assert t != CREATOR;
    ToTailRun(s0, t);
    FreshInv(s0, plan);
    InvHolds(s0, [t, t, t]);
  }

  lemma LateRun(plan: map<nat, nat>, s0: State, run: seq<nat>, e: State, t: nat)
    requires Fresh(s0, plan) && Exec(s0, run) == Reached(e) && e.freed && Paused(e, t)
    ensures !NeverLate(plan)
  {
    assert !Settled(Exec(s0, run).state);
  }

  lemma PairIsLate(plan: map<nat, nat>, t: nat, u: nat)
    requires ValidPlan(plan) && t in plan && u in plan && t != u && plan[t] == plan[u]
    ensures !NeverLate(plan)
  {
    var s0 := Start(plan);
    StartIsFresh(plan);
    FirstPauses(plan, s0, t, u);
    TailState(plan, s0, t);
    var rest, e := AllFinish(InTail(s0, t), t);
    AllGoneIsFreed(e);
    ExecConcat(s0, [t, t, t], rest);
    LateRun(plan, s0, [t, t, t] + rest, e, t);
  }

  /**
   No unlock is still under way when the domain is freed, in every run, exactly if no job has two
   releasers: then each releaser's own reference keeps the domain until its unlock has returned.
   */
  lemma SafeIffSoleReleasers(plan: map<nat, nat>)
    requires ValidPlan(plan)
    ensures NeverLate(plan) <==> SoleReleasers(plan)
  {
    if SoleReleasers(plan) {
      forall s0, run | Fresh(s0, plan) && Exec(s0, run).Reached? ensures Settled(Exec(s0, run).state) {
        SoleIsSafe(plan, s0, run);
      }
    } else {
      var t, u :| t in plan && u in plan && plan[t] == plan[u] && t != u;
      PairIsLate(plan, t, u);
    }
  }
}
