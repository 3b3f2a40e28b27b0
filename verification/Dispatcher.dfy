/**
 The API dispatcher of ww/api/dispatcher.c: one accounting domain, its jobs, and their journey
 through the worker queues. Every critical section, queue hand-over and atomic decrement is one
 step. A posted message runs exactly one of its callback and its cleanup.
 */
module Dispatcher {
  import opened Collections
  import opened Totals

  const SIZE_MAX: nat := 0xFFFF_FFFF_FFFF_FFFF

  // -------------------------------------------------------------------------
  // the critical sections

  datatype Domain = Domain(memoryLimit: nat, jobLimit: nat, bytes: nat, jobs: nat, closed: bool, references: nat)

  /** The subtraction is size_t's, which wraps. */
  predicate Room(d: Domain, bytes: nat) { bytes <= (d.memoryLimit - d.bytes) % (SIZE_MAX + 1) }

  /** nodeApiDomainTryReserve */
  predicate MayReserve(d: Domain, bytes: nat) { !d.closed && Room(d, bytes) }

  /** The admission test of nodeApiJobCreate. */
  predicate MayCreate(d: Domain, charge: nat, admission: bool) {
    admission && !d.closed && d.jobs < d.jobLimit && Room(d, charge)
  }

  function Admitted(d: Domain, charge: nat): Domain {
    d.(jobs := d.jobs + 1, bytes := d.bytes + charge, references := d.references + 1)
  }

  /** The last reference of a job leaves: its accounting goes, its reference to the domain stays. */
  function Discharged(d: Domain, charge: nat): Domain {
    d.(jobs := if d.jobs > 0 then d.jobs - 1 else 0, bytes := if d.bytes >= charge then d.bytes - charge else 0)
  }

  function Dropped(d: Domain): Domain {
    d.(references := if d.references > 0 then d.references - 1 else 0)
  }

  /** The chain of checkedAdd calls: None as soon as one sum leaves size_t. */
  function Charge(base: nat, parts: seq<nat>): Option<nat>
    decreases |parts|
  {
    if parts == [] then Some(base)
    else if parts[0] > SIZE_MAX - base then None
    else Charge(base + parts[0], parts[1..])
  }

  function Sum(parts: seq<nat>): nat {
    if parts == [] then 0 else parts[0] + Sum(parts[1..])
  }

  /** The charge is the exact sum, and is refused exactly when that sum does not fit. */
  lemma {:induction false} ChargeIsExact(base: nat, parts: seq<nat>)
    requires base <= SIZE_MAX
    ensures Charge(base, parts) == if base + Sum(parts) <= SIZE_MAX then Some(base + Sum(parts)) else None
    decreases |parts|
  {
    if parts != [] && parts[0] <= SIZE_MAX - base {
      ChargeIsExact(base + parts[0], parts[1..]);
    }
  }

  // -------------------------------------------------------------------------
  // jobs and steps

  /** Where the execution reference of a job is. */
  datatype Token =
    | NotSubmitted
    | Posting        // submit took the reference and is about to post the execution message
    | Queued         // execution message in the target worker's queue
    | Starting       // execution callback, about to look for abandonment
    | Handling       // about to run the handler or set a failure status
    | Handled        // about to look for abandonment again
    | Returning      // about to post the completion message
    | Returned       // completion message in the owner worker's queue
    | Completing     // completion callback on the owner worker, about to look for abandonment
    | Firing         // found neither abandoned nor closed, about to call the completion
    | Releasing      // about to give the reference up
    | Settled

  datatype Phase = Live | Cleaning | Gone

  datatype Job = Job(owner: nat, charge: nat, references: nat, ownerHeld: bool, abandoned: bool,
                     token: Token, phase: Phase, runs: nat, completions: nat, settlements: nat)

  /** `handle` is the creator's own reference, `reserved` what callers hold beside jobs. */
  datatype State = State(domain: Domain, jobs: map<nat, Job>, reserved: nat, handle: bool)

  datatype Action =
    | Reserve(bytes: nat)
    | Unreserve(bytes: nat)
    | CloseDomain
    | DestroyDomain
    | Create(job: nat, owner: nat, base: nat, parts: seq<nat>, admission: bool)
    | Abandon(job: nat)
    | OwnerRelease(job: nat)
    | Submit(job: nat, admission: bool)
    | Post(job: nat, accepted: bool)     // the queue takes the message, or runs its cleanup at once
    | Cancel(job: nat)                   // a queued message runs its cleanup
    | Run(job: nat, admission: bool, handled: bool) // the token's next step inside a callback
    | TokenRelease(job: nat)
    | Cleanup(job: nat)                  // free the job, then drop its reference to the domain

  function Initial(memoryLimit: nat, jobLimit: nat): State {
    State(Domain(memoryLimit, jobLimit, 0, 0, false, 1), map[], 0, true)
  }

  predicate IsLive(s: State, j: nat) { j in s.jobs && s.jobs[j].phase == Live }

  /** A worker inside a completion callback runs nothing else until it has fired. */
  predicate Busy(s: State, w: nat) {
    exists k :: k in s.jobs && s.jobs[k].owner == w && s.jobs[k].token in {Completing, Firing}
  }

  /** The steps of a job's execution reference, as against those of owners and of the domain's users. */
  predicate OfToken(a: Action) { a.Post? || a.Cancel? || a.Run? || a.TokenRelease? }

  predicate TokenEnabled(s: State, a: Action)
    requires OfToken(a)
  {
    IsLive(s, a.job) &&
    match a
    case Post(j, _) => s.jobs[j].token in {Posting, Returning}
    case Cancel(j) => s.jobs[j].token in {Queued, Returned}
    case Run(j, _, _) =>
      && s.jobs[j].token in {Queued, Starting, Handling, Handled, Returned, Completing, Firing}
      && (s.jobs[j].token == Returned ==> !Busy(s, s.jobs[j].owner))
    case TokenRelease(j) => s.jobs[j].token == Releasing
  }

  /** The job's owner may use it: it holds its reference and is not inside a completion callback. */
  predicate OwnerMay(s: State, j: nat) { IsLive(s, j) && s.jobs[j].ownerHeld && !Busy(s, s.jobs[j].owner) }

  predicate UserEnabled(s: State, a: Action)
    requires !OfToken(a)
  {
    match a
    case Reserve(_) => s.handle
    case Unreserve(bytes) => s.handle && bytes <= s.reserved
    case CloseDomain => s.handle
    case DestroyDomain => s.handle && s.domain.jobs == 0 && s.domain.bytes == 0
    case Create(j, owner, base, _, _) => s.handle && j !in s.jobs && !Busy(s, owner) && base <= SIZE_MAX
    case Abandon(j) => OwnerMay(s, j)
    case OwnerRelease(j) => OwnerMay(s, j)
    case Submit(j, _) => OwnerMay(s, j) && s.jobs[j].token == NotSubmitted
    case Cleanup(j) => j in s.jobs && s.jobs[j].phase == Cleaning
  }

  predicate Enabled(s: State, a: Action) { if OfToken(a) then TokenEnabled(s, a) else UserEnabled(s, a) }

  function With(s: State, j: nat, job: Job): State { s.(jobs := s.jobs[j := job]) }

  /** nodeApiJobRelease: the section, and whether this was the last reference. */
  function Release(s: State, j: nat, job: Job): State {
    var left := if job.references > 0 then job.references - 1 else 0;
    if left == 0 then
      With(s, j, job.(references := 0, phase := Cleaning)).(domain := Discharged(s.domain, job.charge))
    else With(s, j, job.(references := left))
  }

  /** The token's next step: the callback body of executeJob or completeJob. */
  function NextToken(s: State, job: Job, admission: bool): Token {
    var dropped := job.abandoned || s.domain.closed;
    match job.token
    case Queued => Starting
    case Starting => if dropped then Releasing else Handling
    case Handling => Handled
    case Handled => if dropped then Releasing else Returning
    case Returned => Completing
    case Completing => if !dropped && admission then Firing else Releasing
    case Firing => Releasing
    case other => other
  }

  function Advance(s: State, j: nat, admission: bool, handled: bool): State
    requires j in s.jobs
  {
    var job := s.jobs[j];
    With(s, j, job.(
      token := NextToken(s, job, admission),
      runs := job.runs + (if job.token == Handling && handled then 1 else 0),
      completions := job.completions + (if job.token == Firing then 1 else 0)))
  }

  function TokenDo(s: State, a: Action): State
    requires OfToken(a) && TokenEnabled(s, a)
  {
    match a
    case Post(j, accepted) =>
      var next := if s.jobs[j].token == Posting then Queued else Returned;
      With(s, j, s.jobs[j].(token := if accepted then next else Releasing))
    case Cancel(j) => With(s, j, s.jobs[j].(token := Releasing))
    case Run(j, admission, handled) => Advance(s, j, admission, handled)
    case TokenRelease(j) =>
      Release(s, j, s.jobs[j].(token := Settled, settlements := s.jobs[j].settlements + 1))
  }

  function Created(s: State, a: Action): State
    requires a.Create?
  {
    match Charge(a.base, a.parts)
    case None => s
    case Some(charge) =>
      if MayCreate(s.domain, charge, a.admission)
      then
        With(s, a.job, Job(a.owner, charge, 1, true, false, NotSubmitted, Live, 0, 0, 0))
          .(domain := Admitted(s.domain, charge))
      else s
  }

  function UserDo(s: State, a: Action): State
    requires !OfToken(a) && UserEnabled(s, a)
  {
    match a
    case Reserve(bytes) =>
      if MayReserve(s.domain, bytes)
      then s.(domain := s.domain.(bytes := s.domain.bytes + bytes), reserved := s.reserved + bytes)
      else s
    case Unreserve(bytes) =>
      var left := if s.domain.bytes >= bytes then s.domain.bytes - bytes else 0;
      s.(domain := s.domain.(bytes := left), reserved := s.reserved - bytes)
    case CloseDomain => s.(domain := s.domain.(closed := true))
    case DestroyDomain => s.(domain := Dropped(s.domain.(closed := true)), handle := false)
    case Create(_, _, _, _, _) => Created(s, a)
    case Abandon(j) => With(s, j, s.jobs[j].(abandoned := true))
    case OwnerRelease(j) => Release(s, j, s.jobs[j].(ownerHeld := false))
    case Submit(j, admission) =>
      With(s, j, s.jobs[j].(references := s.jobs[j].references + 1,
                            token := if s.domain.closed || !admission then Releasing else Posting))
    case Cleanup(j) => With(s, j, s.jobs[j].(phase := Gone)).(domain := Dropped(s.domain))
  }

  function Do(s: State, a: Action): State
    requires Enabled(s, a)
  {
    if OfToken(a) then TokenDo(s, a) else UserDo(s, a)
  }

  datatype Outcome = Stuck | Reached(state: State)

  function Exec(s: State, acts: seq<Action>): Outcome
    decreases |acts|
  {
    if acts == [] then Reached(s)
    else if Enabled(s, acts[0]) then Exec(Do(s, acts[0]), acts[1..])
    else Stuck
  }

  // -------------------------------------------------------------------------
  // the inductive invariant

  function LiveCharge(job: Job): nat { if job.phase == Live then job.charge else 0 }
  function LiveCount(job: Job): nat { if job.phase == Live then 1 else 0 }
  function DomainHold(job: Job): nat { if job.phase != Gone then 1 else 0 }

  predicate Unsettled(t: Token) { t != NotSubmitted && t != Settled }

  /** One job's references are its owner's and its token's; it lives exactly while it has one. */
  ghost predicate JobOk(job: Job) {
    && (job.phase == Live <==> job.references > 0)
    && job.references == (if job.ownerHeld then 1 else 0) + (if Unsettled(job.token) then 1 else 0)
    && job.settlements == (if job.token == Settled then 1 else 0)
    && job.completions <= 1 && (job.completions == 1 ==> job.token in {Releasing, Settled})
    && job.runs <= 1 && (job.runs == 1 ==> job.token !in {NotSubmitted, Posting, Queued, Starting, Handling})
    && (job.token == Firing ==> !job.abandoned)
  }

  ghost predicate AccountOk(s: State) {
    && s.domain.bytes == s.reserved + Total(s.jobs, LiveCharge) <= s.domain.memoryLimit
    && s.domain.jobs == Total(s.jobs, LiveCount) <= s.domain.jobLimit
    && s.domain.references == (if s.handle then 1 else 0) + Total(s.jobs, DomainHold)
    && (!s.handle ==> s.reserved == 0)
  }

  ghost predicate Inv(s: State) {
    && AccountOk(s)
    && forall j :: j in s.jobs ==> JobOk(s.jobs[j])
  }

  /** A step rewrites at most the job it names. */
  lemma OthersStay(s: State, a: Action, j: nat)
    requires Enabled(s, a) && j in s.jobs
    requires a.Reserve? || a.Unreserve? || a.CloseDomain? || a.DestroyDomain? || a.job != j
    ensures j in Do(s, a).jobs && Do(s, a).jobs[j] == s.jobs[j]
  {
  }

  lemma TokenJobStep(s: State, a: Action)
    requires OfToken(a) && TokenEnabled(s, a) && JobOk(s.jobs[a.job])
    ensures JobOk(TokenDo(s, a).jobs[a.job])
  {
    if a.Run? {
      AdvanceOk(s, s.jobs[a.job], a.admission, a.handled);
    }
  }

  /** Nobody abandons a job whose completion is being called. */
  lemma AbandonsNoFiring(s: State, j: nat)
    requires OwnerMay(s, j)
    ensures s.jobs[j].token != Firing
  {
  }

  lemma UserJobStep(s: State, a: Action)
    requires !OfToken(a) && UserEnabled(s, a)
    requires a.Create? || a.Abandon? || a.OwnerRelease? || a.Submit? || a.Cleanup?
    requires a.job in s.jobs ==> JobOk(s.jobs[a.job])
    ensures a.job in UserDo(s, a).jobs ==> JobOk(UserDo(s, a).jobs[a.job])
  {
    if a.Abandon? {
      AbandonsNoFiring(s, a.job);
    }
  }

  lemma JobsStep(s: State, a: Action)
    requires Inv(s) && Enabled(s, a)
    ensures forall j :: j in Do(s, a).jobs ==> JobOk(Do(s, a).jobs[j])
  {
    var named := !(a.Reserve? || a.Unreserve? || a.CloseDomain? || a.DestroyDomain?);
    if OfToken(a) {
      TokenJobStep(s, a);
    } else if named {
      UserJobStep(s, a);
    }
    forall j | j in Do(s, a).jobs && !(named && a.job == j) ensures JobOk(Do(s, a).jobs[j]) {
      KnownBefore(s, a, j);
      OthersStay(s, a, j);
    }
  }

  lemma KnownBefore(s: State, a: Action, j: nat)
    requires Enabled(s, a) && j in Do(s, a).jobs && (a.Create? ==> a.job != j)
    ensures j in s.jobs
  {
  }

  /** A callback step keeps the references and walks the token forward. */
  lemma AdvanceOk(s: State, job: Job, admission: bool, handled: bool)
    requires JobOk(job) && job.token in {Queued, Starting, Handling, Handled, Returned, Completing, Firing}
    ensures JobOk(job.(
      token := NextToken(s, job, admission),
      runs := job.runs + (if job.token == Handling && handled then 1 else 0),
      completions := job.completions + (if job.token == Firing then 1 else 0)))
  {
  }

  /** The account follows from what one job's change does to its shares. */
  lemma AccountOneJob(s: State, s': State, j: nat, job: Job)
    requires AccountOk(s) && s'.jobs == s.jobs[j := job] && s'.reserved == s.reserved && s'.handle == s.handle
    requires s'.domain.memoryLimit == s.domain.memoryLimit && s'.domain.jobLimit == s.domain.jobLimit
    requires var was := if j in s.jobs then s.jobs[j] else job.(phase := Gone);
      && s'.domain.bytes + LiveCharge(was) == s.domain.bytes + LiveCharge(job)
      && s'.domain.jobs + LiveCount(was) == s.domain.jobs + LiveCount(job)
      && s'.domain.references + DomainHold(was) == s.domain.references + DomainHold(job)
    requires s'.domain.bytes <= s'.domain.memoryLimit && s'.domain.jobs <= s'.domain.jobLimit
    ensures AccountOk(s')
  {
    TotalUpdate(s.jobs, LiveCharge, j, job);
    TotalUpdate(s.jobs, LiveCount, j, job);
    TotalUpdate(s.jobs, DomainHold, j, job);
  }

  /** Giving up one reference, the last one included. */
  lemma ReleaseAccount(s: State, j: nat, job: Job)
    requires Inv(s) && IsLive(s, j) && job.phase == Live
    requires job.charge == s.jobs[j].charge && job.references == s.jobs[j].references
    ensures AccountOk(Release(s, j, job))
  {
    TotalAtLeast(s.jobs, LiveCharge, j);
    TotalAtLeast(s.jobs, LiveCount, j);
    var s' := Release(s, j, job);
    AccountOneJob(s, s', j, s'.jobs[j]);
  }

  lemma TokenAccount(s: State, a: Action)
    requires Inv(s) && OfToken(a) && TokenEnabled(s, a)
    ensures AccountOk(TokenDo(s, a))
  {
    if a.TokenRelease? {
      ReleaseAccount(s, a.job, s.jobs[a.job].(token := Settled, settlements := s.jobs[a.job].settlements + 1));
    } else {
      AccountOneJob(s, TokenDo(s, a), a.job, TokenDo(s, a).jobs[a.job]);
    }
  }

  lemma CreateAccount(s: State, a: Action)
    requires AccountOk(s) && a.Create? && a.job !in s.jobs
    ensures AccountOk(Created(s, a))
  {
    var s' := Created(s, a);
    if s' != s {
      AccountOneJob(s, s', a.job, s'.jobs[a.job]);
    }
  }

  lemma CleanupAccount(s: State, j: nat)
    requires AccountOk(s) && j in s.jobs && s.jobs[j].phase == Cleaning
    ensures AccountOk(With(s, j, s.jobs[j].(phase := Gone)).(domain := Dropped(s.domain)))
  {
    TotalAtLeast(s.jobs, DomainHold, j);
    AccountOneJob(s, With(s, j, s.jobs[j].(phase := Gone)).(domain := Dropped(s.domain)), j, s.jobs[j].(phase := Gone));
  }

  lemma UserAccount(s: State, a: Action)
    requires Inv(s) && !OfToken(a) && UserEnabled(s, a)
    ensures AccountOk(UserDo(s, a))
  {
    match a
    case Create(_, _, _, _, _) => CreateAccount(s, a);
    case OwnerRelease(j) => ReleaseAccount(s, j, s.jobs[j].(ownerHeld := false));
    case Cleanup(j) => CleanupAccount(s, j);
    case Abandon(j) => AccountOneJob(s, UserDo(s, a), j, UserDo(s, a).jobs[j]);
    case Submit(j, _) => AccountOneJob(s, UserDo(s, a), j, UserDo(s, a).jobs[j]);
    case _ =>
  }

  lemma InvStep(s: State, a: Action)
    requires Inv(s) && Enabled(s, a)
    ensures Inv(Do(s, a))
  {
    JobsStep(s, a);
    if OfToken(a) {
      TokenAccount(s, a);
    } else {
      UserAccount(s, a);
    }
  }

  lemma {:induction false} InvHolds(s: State, acts: seq<Action>)
    requires Inv(s) && Exec(s, acts).Reached?
    ensures Inv(Exec(s, acts).state)
    decreases |acts|
  {
    if acts != [] {
      InvStep(s, acts[0]);
      InvHolds(Do(s, acts[0]), acts[1..]);
    }
  }

  // -------------------------------------------------------------------------
  // what every run keeps

  /** Bytes are the live jobs' charges plus the reservations, and both budgets hold. */
  lemma BudgetsHold(memoryLimit: nat, jobLimit: nat, acts: seq<Action>)
    requires Exec(Initial(memoryLimit, jobLimit), acts).Reached?
    ensures var s := Exec(Initial(memoryLimit, jobLimit), acts).state;
      && s.domain.bytes == s.reserved + Total(s.jobs, LiveCharge) <= s.domain.memoryLimit
      && s.domain.jobs == Total(s.jobs, LiveCount) <= s.domain.jobLimit
  {
    InvHolds(Initial(memoryLimit, jobLimit), acts);
  }

  /**
   A job's references are exactly its owner's and its unsettled execution reference; that one
   settles at most once, the handler runs at most once, and the completion fires at most once.
   */
  lemma EachJobSettlesOnce(memoryLimit: nat, jobLimit: nat, acts: seq<Action>, j: nat)
    requires Exec(Initial(memoryLimit, jobLimit), acts).Reached?
    requires j in Exec(Initial(memoryLimit, jobLimit), acts).state.jobs
    ensures var job := Exec(Initial(memoryLimit, jobLimit), acts).state.jobs[j];
      && job.references == (if job.ownerHeld then 1 else 0) + (if Unsettled(job.token) then 1 else 0)
      && job.settlements == (if job.token == Settled then 1 else 0)
      && job.runs <= 1 && job.completions <= 1
      && (job.phase == Live <==> job.references > 0)
  {
    InvHolds(Initial(memoryLimit, jobLimit), acts);
    assert JobOk(Exec(Initial(memoryLimit, jobLimit), acts).state.jobs[j]);
  }

  /** While a job exists in any form, also during its cleanup, the domain does. */
  lemma DomainOutlivesJobs(memoryLimit: nat, jobLimit: nat, acts: seq<Action>, j: nat)
    requires Exec(Initial(memoryLimit, jobLimit), acts).Reached?
    requires var s := Exec(Initial(memoryLimit, jobLimit), acts).state;
      s.handle || (j in s.jobs && s.jobs[j].phase != Gone)
    ensures Exec(Initial(memoryLimit, jobLimit), acts).state.domain.references > 0
  {
    InvHolds(Initial(memoryLimit, jobLimit), acts);
    var s := Exec(Initial(memoryLimit, jobLimit), acts).state;
    if j in s.jobs {
      TotalAtLeast(s.jobs, DomainHold, j);
    }
  }

  /** Whatever can still step on the domain finds it alive. */
  lemma NoStepOnFreedDomain(memoryLimit: nat, jobLimit: nat, acts: seq<Action>, a: Action)
    requires Exec(Initial(memoryLimit, jobLimit), acts).Reached?
    requires Enabled(Exec(Initial(memoryLimit, jobLimit), acts).state, a)
    ensures Exec(Initial(memoryLimit, jobLimit), acts).state.domain.references > 0
  {
    var s := Exec(Initial(memoryLimit, jobLimit), acts).state;
    var j := if a.Reserve? || a.Unreserve? || a.CloseDomain? || a.DestroyDomain? then 0 else a.job;
    DomainOutlivesJobs(memoryLimit, jobLimit, acts, j);
  }

  /** A live job has a reference, is counted and is paid for. */
  lemma ChargeIsHeld(s: State, j: nat)
    requires Inv(s) && IsLive(s, j)
    ensures s.jobs[j].references > 0 && s.domain.jobs > 0 && s.domain.bytes >= s.jobs[j].charge
  {
    assert JobOk(s.jobs[j]);
    TotalAtLeast(s.jobs, LiveCharge, j);
    TotalAtLeast(s.jobs, LiveCount, j);
  }

  /** The underflow aborts of release are never reached. */
  lemma DischargeNeverUnderflows(memoryLimit: nat, jobLimit: nat, acts: seq<Action>, j: nat)
    requires Exec(Initial(memoryLimit, jobLimit), acts).Reached?
    requires IsLive(Exec(Initial(memoryLimit, jobLimit), acts).state, j)
    ensures var s := Exec(Initial(memoryLimit, jobLimit), acts).state;
      s.domain.jobs > 0 && s.domain.bytes >= s.jobs[j].charge && s.jobs[j].references > 0
  {
    InvHolds(Initial(memoryLimit, jobLimit), acts);
    ChargeIsHeld(Exec(Initial(memoryLimit, jobLimit), acts).state, j);
  }

  ghost predicate KeepsAbandoned(s: State, e: State, j: nat) {
    j in s.jobs && s.jobs[j].abandoned ==>
      j in e.jobs && e.jobs[j].abandoned && e.jobs[j].completions == s.jobs[j].completions
  }

  lemma AbandonedStep(s: State, a: Action, j: nat)
    requires Inv(s) && Enabled(s, a)
    ensures KeepsAbandoned(s, Do(s, a), j)
  {
    if j in s.jobs {
      assert JobOk(s.jobs[j]);
    }
  }

  lemma {:induction false} AbandonedStays(s: State, acts: seq<Action>, j: nat)
    requires Inv(s) && Exec(s, acts).Reached?
    ensures KeepsAbandoned(s, Exec(s, acts).state, j)
    decreases |acts|
  {
    if acts != [] {
      InvStep(s, acts[0]);
      AbandonedStep(s, acts[0], j);
      AbandonedStays(Do(s, acts[0]), acts[1..], j);
    }
  }

  /** A job its owner worker has abandoned never completes afterwards. */
  lemma AbandonedNeverCompletes(memoryLimit: nat, jobLimit: nat, before: seq<Action>, after: seq<Action>, j: nat)
    requires Exec(Initial(memoryLimit, jobLimit), before).Reached?
    requires var s := Exec(Initial(memoryLimit, jobLimit), before).state;
      j in s.jobs && s.jobs[j].abandoned && Exec(s, after).Reached?
    ensures var s := Exec(Initial(memoryLimit, jobLimit), before).state;
      var e := Exec(s, after).state;
      j in e.jobs && e.jobs[j].completions == s.jobs[j].completions
  {
    InvHolds(Initial(memoryLimit, jobLimit), before);
    AbandonedStays(Exec(Initial(memoryLimit, jobLimit), before).state, after, j);
  }

  /** From the moment of the abandonment on. */
  lemma AbandonStopsCompletion(memoryLimit: nat, jobLimit: nat, before: seq<Action>, after: seq<Action>, j: nat)
    requires Exec(Initial(memoryLimit, jobLimit), before).Reached?
    requires var s := Exec(Initial(memoryLimit, jobLimit), before).state;
      Enabled(s, Abandon(j)) && Exec(Do(s, Abandon(j)), after).Reached?
    ensures var s := Exec(Initial(memoryLimit, jobLimit), before).state;
      var e := Exec(Do(s, Abandon(j)), after).state;
      j in e.jobs && e.jobs[j].completions == s.jobs[j].completions
  {
    var s := Exec(Initial(memoryLimit, jobLimit), before).state;
    InvHolds(Initial(memoryLimit, jobLimit), before);
    InvStep(s, Abandon(j));
    AbandonedStays(Do(s, Abandon(j)), after, j);
  }

  // -------------------------------------------------------------------------
  // a closed domain

  /** The step starts no new work: no bytes, no job, and completions only where one is being called. */
  ghost predicate Winding(s: State, e: State, j: nat) {
    && e.domain.closed && e.domain.bytes <= s.domain.bytes && e.domain.jobs <= s.domain.jobs
    && (j in e.jobs ==> j in s.jobs)
    && (j in s.jobs ==>
          && j in e.jobs
          && e.jobs[j].completions <= s.jobs[j].completions + (if s.jobs[j].token == Firing then 1 else 0)
          && (e.jobs[j].token == Firing ==>
                s.jobs[j].token == Firing && e.jobs[j].completions == s.jobs[j].completions))
  }

  lemma ClosedToken(s: State, a: Action, j: nat)
    requires OfToken(a) && TokenEnabled(s, a) && s.domain.closed
    ensures Winding(s, TokenDo(s, a), j)
  {
  }

  lemma ClosedUser(s: State, a: Action, j: nat)
    requires !OfToken(a) && UserEnabled(s, a) && s.domain.closed
    ensures Winding(s, UserDo(s, a), j)
  {
  }

  lemma {:induction false} ClosedStays(s: State, acts: seq<Action>, j: nat)
    requires s.domain.closed && Exec(s, acts).Reached?
    ensures Winding(s, Exec(s, acts).state, j)
    decreases |acts|
  {
    if acts != [] {
      var s1 := Do(s, acts[0]);
      if OfToken(acts[0]) {
        ClosedToken(s, acts[0], j);
      } else {
        ClosedUser(s, acts[0], j);
      }
      ClosedStays(s1, acts[1..], j);
      WindingTransitive(s, s1, Exec(s1, acts[1..]).state, j);
    }
  }

  lemma WindingTransitive(s: State, m: State, e: State, j: nat)
    requires Winding(s, m, j) && Winding(m, e, j)
    ensures Winding(s, e, j)
  {
  }

  /**
   After a close, in every continuation: the accounts never grow, no job is created, and a job
   completes only if its completion was already being called.
   */
  lemma ClosedDomainWindsDown(memoryLimit: nat, jobLimit: nat, before: seq<Action>, after: seq<Action>, j: nat)
    requires Exec(Initial(memoryLimit, jobLimit), before).Reached?
    requires var s := Exec(Initial(memoryLimit, jobLimit), before).state;
      s.handle && Exec(Do(s, CloseDomain), after).Reached?
    ensures var s := Exec(Initial(memoryLimit, jobLimit), before).state;
      var e := Exec(Do(s, CloseDomain), after).state;
      && e.domain.bytes <= s.domain.bytes && e.domain.jobs <= s.domain.jobs && (j in e.jobs ==> j in s.jobs)
      && (j in s.jobs && s.jobs[j].token != Firing ==> j in e.jobs && e.jobs[j].completions <= s.jobs[j].completions)
  {
    var s := Exec(Initial(memoryLimit, jobLimit), before).state;
    ClosedStays(Do(s, CloseDomain), after, j);
  }

  // -------------------------------------------------------------------------
  // the execution reference comes to rest

  /** How many more steps the execution reference can take. */
  function Rank(t: Token): nat {
    match t
    case NotSubmitted => 11
    case Posting => 10
    case Queued => 9
    case Starting => 8
    case Handling => 7
    case Handled => 6
    case Returning => 5
    case Returned => 4
    case Completing => 3
    case Firing => 2
    case Releasing => 1
    case Settled => 0
  }

  /** The steps of j's execution reference in a run. */
  function OwnSteps(acts: seq<Action>, j: nat): nat {
    if acts == [] then 0 else (if OfToken(acts[0]) && acts[0].job == j then 1 else 0) + OwnSteps(acts[1..], j)
  }

  lemma RankStep(s: State, a: Action, j: nat)
    requires Enabled(s, a) && j in s.jobs
    ensures j in Do(s, a).jobs
    ensures Rank(Do(s, a).jobs[j].token) + (if OfToken(a) && a.job == j then 1 else 0) <= Rank(s.jobs[j].token)
  {
    if OfToken(a) && a.job == j {
      TokenRank(s, a);
    } else if OfToken(a) {
      OthersStay(s, a, j);
    } else {
      UserRank(s, a, j);
    }
  }

  lemma TokenRank(s: State, a: Action)
    requires OfToken(a) && TokenEnabled(s, a)
    ensures Rank(TokenDo(s, a).jobs[a.job].token) < Rank(s.jobs[a.job].token)
  {
  }

  lemma UserRank(s: State, a: Action, j: nat)
    requires !OfToken(a) && UserEnabled(s, a) && j in s.jobs
    ensures j in UserDo(s, a).jobs && Rank(UserDo(s, a).jobs[j].token) <= Rank(s.jobs[j].token)
  {
  }

  /** However a run goes on, a job's execution reference takes at most ten more steps. */
  lemma {:induction false} OwnStepsBounded(s: State, acts: seq<Action>, j: nat)
    requires j in s.jobs && Exec(s, acts).Reached?
    ensures j in Exec(s, acts).state.jobs
    ensures OwnSteps(acts, j) + Rank(Exec(s, acts).state.jobs[j].token) <= Rank(s.jobs[j].token)
    decreases |acts|
  {
    if acts != [] {
      RankStep(s, acts[0], j);
      OwnStepsBounded(Do(s, acts[0]), acts[1..], j);
    }
  }

  /** And as long as it is not settled it has a step to take, so it settles, exactly once. */
  lemma UnsettledCanStep(memoryLimit: nat, jobLimit: nat, acts: seq<Action>, j: nat) returns (a: Action)
    requires Exec(Initial(memoryLimit, jobLimit), acts).Reached?
    requires j in Exec(Initial(memoryLimit, jobLimit), acts).state.jobs
    requires Unsettled(Exec(Initial(memoryLimit, jobLimit), acts).state.jobs[j].token)
    ensures OfToken(a) && a.job == j && Enabled(Exec(Initial(memoryLimit, jobLimit), acts).state, a)
  {
    InvHolds(Initial(memoryLimit, jobLimit), acts);
    var job := Exec(Initial(memoryLimit, jobLimit), acts).state.jobs[j];
    assert JobOk(job);
    a := match job.token
      case Posting => Post(j, true)
      case Returning => Post(j, true)
      case Returned => Cancel(j)
      case Releasing => TokenRelease(j)
      case _ => Run(j, true, true);
  }

  // -------------------------------------------------------------------------
  // what a callback may rely on between its own steps

  /** A step of somebody else than the thread that carries j's execution reference. */
  predicate Foreign(a: Action, j: nat) { !(OfToken(a) && a.job == j) && !(a.Cleanup? && a.job == j) }

  /** While others run, the job stays alive with its token; abandonment and closing only go one way. */
  predicate Rely(s: State, e: State, j: nat) {
    && IsLive(s, j) && IsLive(e, j)
    && e.jobs[j].token == s.jobs[j].token && e.jobs[j].owner == s.jobs[j].owner
    && e.jobs[j].runs == s.jobs[j].runs && e.jobs[j].completions == s.jobs[j].completions
    && e.jobs[j].settlements == s.jobs[j].settlements
    && (s.jobs[j].abandoned ==> e.jobs[j].abandoned) && (s.domain.closed ==> e.domain.closed)
  }

  lemma RelyStep(s: State, a: Action, j: nat)
    requires Inv(s) && Enabled(s, a) && Foreign(a, j) && IsLive(s, j) && Unsettled(s.jobs[j].token)
    ensures Rely(s, Do(s, a), j)
  {
    assert JobOk(s.jobs[j]);
    if OfToken(a) {
      OthersStay(s, a, j);
    } else {
      UserRely(s, a, j);
    }
  }

  lemma UserRely(s: State, a: Action, j: nat)
    requires !OfToken(a) && UserEnabled(s, a) && Foreign(a, j) && IsLive(s, j)
    requires Unsettled(s.jobs[j].token) && JobOk(s.jobs[j])
    ensures Rely(s, UserDo(s, a), j)
  {
  }

  /** Any run of others' steps is covered by the rely condition. */
  lemma {:induction false} RelyCoversRuns(s: State, acts: seq<Action>, j: nat)
    requires Inv(s) && IsLive(s, j) && Unsettled(s.jobs[j].token)
    requires Exec(s, acts).Reached? && forall i :: 0 <= i < |acts| ==> Foreign(acts[i], j)
    ensures Rely(s, Exec(s, acts).state, j)
    decreases |acts|
  {
    if acts != [] {
      RelyStep(s, acts[0], j);
      InvStep(s, acts[0]);
      RelyCoversRuns(Do(s, acts[0]), acts[1..], j);
    }
  }


  // -------------------------------------------------------------------------
  // the course of a job that nobody drops

  lemma ExecFront(s: State, a: Action, rest: seq<Action>)
    requires Enabled(s, a)
    ensures Exec(s, [a] + rest) == Exec(Do(s, a), rest)
  {
    assert ([a] + rest)[1..] == rest;
  }

  /** From the target worker's queue: the handler runs, and the completion goes into the owner's queue. */
  lemma ExecutionCourse(s: State, j: nat)
    requires IsLive(s, j) && s.jobs[j].token == Queued && !s.jobs[j].abandoned && !s.domain.closed
    ensures var r := [Run(j, true, true)];
      Exec(s, r + (r + (r + (r + ([Post(j, true)] + [])))))
      == Reached(With(s, j, s.jobs[j].(token := Returned, runs := s.jobs[j].runs + 1)))
  {
    var a := Run(j, true, true);
    var s1 := Do(s, a);
    var s2 := Do(s1, a);
    var s3 := Do(s2, a);
    var s4 := Do(s3, a);
    ExecFront(s4, Post(j, true), []);
    ExecFront(s3, a, [Post(j, true)] + []);
    ExecFront(s2, a, [a] + ([Post(j, true)] + []));
    ExecFront(s1, a, [a] + ([a] + ([Post(j, true)] + [])));
    ExecFront(s, a, [a] + ([a] + ([a] + ([Post(j, true)] + []))));
    assert Do(s4, Post(j, true)).jobs == With(s, j, s.jobs[j].(token := Returned, runs := s.jobs[j].runs + 1)).jobs;
  }

  /** From the owner's queue: the completion fires, and the reference is about to be given up. */
  lemma CompletionCourse(s: State, j: nat)
    requires IsLive(s, j) && s.jobs[j].token == Returned && !s.jobs[j].abandoned && !s.domain.closed
    requires !Busy(s, s.jobs[j].owner)
    ensures var r := [Run(j, true, true)];
      Exec(s, r + (r + (r + [])))
      == Reached(With(s, j, s.jobs[j].(token := Releasing, completions := s.jobs[j].completions + 1)))
  {
    var a := Run(j, true, true);
    var s1 := Do(s, a);
    var s2 := Do(s1, a);
    ExecFront(s2, a, []);
    ExecFront(s1, a, [a] + []);
    ExecFront(s, a, [a] + ([a] + []));
    assert Do(s2, a).jobs == With(s, j, s.jobs[j].(token := Releasing, completions := s.jobs[j].completions + 1)).jobs;
  }
}
