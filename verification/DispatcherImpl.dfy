/**
 ww/api/dispatcher.c over a domain updated in place, with its job records kept by address. Every critical
 section advances the ghost protocol state by its step of Dispatcher; submit, execute and complete are
 sequences of such steps with other threads running in between.
 */
module DispatcherImpl {
  import opened Collections
  import opened Dispatcher
  import opened Totals

  /** A job's mutable and accounting fields. */
  datatype JobRecord = JobRecord(owner: nat, charge: nat, references: nat, abandoned: bool, submitted: bool)

  function RecordOf(job: Job): JobRecord {
    JobRecord(job.owner, job.charge, job.references, job.abandoned, job.token != NotSubmitted)
  }

  /** The chained checkedAdd calls of nodeApiJobCreate: the exact sum, or nothing when it leaves size_t. */
  method CheckedSum(base: nat, parts: seq<nat>) returns (charge: Option<nat>)
    requires base <= SIZE_MAX
    ensures charge == if base + Sum(parts) <= SIZE_MAX then Some(base + Sum(parts)) else None
    ensures charge == Charge(base, parts)
  {
    ChargeIsExact(base, parts);
    var value: nat, rest: seq<nat> := base, parts;
    while rest != []
      invariant value <= SIZE_MAX && Charge(value, rest) == Charge(base, parts)
      decreases |rest|
    {
      if rest[0] > SIZE_MAX - value {
        return None;
      }
      value, rest := value + rest[0], rest[1..];
    }
    charge := Some(value);
  }

  /** Exactly the jobs not yet freed have a record, and it agrees with them. */
  ghost predicate RecordsMatch(records: map<nat, JobRecord>, jobs: map<nat, Job>) {
    && (forall j :: j in records <==> j in jobs && jobs[j].phase != Gone)
    && (forall j :: j in records ==> records[j] == RecordOf(jobs[j]))
  }

  lemma RecordWritten(records: map<nat, JobRecord>, jobs: map<nat, Job>, j: nat, job: Job)
    requires RecordsMatch(records, jobs) && job.phase != Gone
    ensures RecordsMatch(records[j := RecordOf(job)], jobs[j := job])
  {
  }

  lemma RecordFreed(records: map<nat, JobRecord>, jobs: map<nat, Job>, j: nat, job: Job)
    requires RecordsMatch(records, jobs) && job.phase == Gone
    ensures RecordsMatch(records - {j}, jobs[j := job])
  {
  }

  /** The job without the holder that gives its reference up. */
  function Leaving(job: Job, a: Action): Job {
    if a.OwnerRelease? then job.(ownerHeld := false) else job.(token := Settled, settlements := job.settlements + 1)
  }

  lemma ReleaseIsStep(s: State, j: nat, a: Action)
    requires Enabled(s, a) && (a == OwnerRelease(j) || a == TokenRelease(j))
    ensures IsLive(s, j) && Do(s, a) == Release(s, j, Leaving(s.jobs[j], a))
    ensures RecordOf(Leaving(s.jobs[j], a)) == RecordOf(s.jobs[j])
  {
  }

  /** The wrapping subtraction leaves exactly the room there is, as long as the account is within the limit. */
  lemma RoomIsExact(limit: nat, used: nat, amount: nat)
    requires used <= limit <= SIZE_MAX
    ensures amount <= (limit - used) % (SIZE_MAX + 1) <==> used + amount <= limit
  {
  }

  class DomainRecord {
    const memoryLimit: nat
    const jobLimit: nat
    var bytes: nat
    var jobs: nat
    var closed: bool
    var references: nat
    ghost var state: State
    var records: map<nat, JobRecord>

    ghost function Account(): Domain
      reads this
    {
      Domain(memoryLimit, jobLimit, bytes, jobs, closed, references)
    }

    /** The fields are those of a protocol state that keeps the invariant of every run. */
    ghost predicate Valid()
      reads this
    {
      && Inv(state) && memoryLimit <= SIZE_MAX
      && state.domain == Account()
      && RecordsMatch(records, state.jobs)
    }

    constructor (memoryLimit: nat, jobLimit: nat)
      requires memoryLimit <= SIZE_MAX && jobLimit <= SIZE_MAX
      ensures Valid() && state == Initial(memoryLimit, jobLimit)
    {
      this.memoryLimit, this.jobLimit := memoryLimit, jobLimit;
      bytes, jobs, closed, references := 0, 0, false, 1;
      state, records := Initial(memoryLimit, jobLimit), map[];
    }

    ghost method Step(a: Action)
      requires Inv(state) && Enabled(state, a)
      modifies this`state
      ensures state == Do(old(state), a) && Inv(state)
    {
      InvStep(state, a);
      state := Do(state, a);
    }

    method TryReserve(amount: nat) returns (accepted: bool)
      requires Valid() && Enabled(state, Reserve(amount))
      modifies this
      ensures Valid() && state == Do(old(state), Reserve(amount))
      ensures accepted <==> !old(closed) && old(bytes) + amount <= memoryLimit
      ensures bytes == old(bytes) + (if accepted then amount else 0)
    {
      RoomIsExact(memoryLimit, bytes, amount);
      Step(Reserve(amount));
      accepted := !closed && amount <= (memoryLimit - bytes) % (SIZE_MAX + 1);
      if accepted {
        bytes := bytes + amount;
      }
    }

    /** nodeApiDomainRelease, whose underflow abort never runs. */
    method ReleaseBytes(amount: nat)
      requires Valid() && Enabled(state, Unreserve(amount))
      modifies this
      ensures Valid() && state == Do(old(state), Unreserve(amount))
      ensures bytes + amount == old(bytes)
    {
      Step(Unreserve(amount));
      bytes := bytes - amount;
    }

    method Close()
      requires Valid() && Enabled(state, CloseDomain)
      modifies this
      ensures Valid() && state == Do(old(state), CloseDomain) && closed
    {
      Step(CloseDomain);
      closed := true;
    }

    /** nodeApiDomainDestroy with nothing live; true means this was the last reference. */
    method Destroy() returns (last: bool)
      requires Valid() && Enabled(state, DestroyDomain)
      modifies this
      ensures Valid() && state == Do(old(state), DestroyDomain)
      ensures closed && references == old(references) - 1 && (last <==> references == 0)
    {
      Step(DestroyDomain);
      closed := true;
      references := references - 1;
      last := references == 0;
    }

    /** The admission section of nodeApiJobCreate. */
    method Admit(charge: nat, admission: bool) returns (accepted: bool)
      modifies this`jobs, this`bytes, this`references
      ensures accepted <==> MayCreate(old(Account()), charge, admission)
      ensures Account() == if accepted then Admitted(old(Account()), charge) else old(Account())
    {
      accepted := admission && !closed && jobs < jobLimit && charge <= (memoryLimit - bytes) % (SIZE_MAX + 1);
      if accepted {
        jobs, bytes, references := jobs + 1, bytes + charge, references + 1;
      }
    }

    method CreateJob(j: nat, owner: nat, base: nat, parts: seq<nat>, admission: bool) returns (created: bool)
      requires Valid() && Enabled(state, Create(j, owner, base, parts, admission))
      modifies this
      ensures Valid() && state == Do(old(state), Create(j, owner, base, parts, admission))
      ensures created <==>
        admission && !old(closed) && old(jobs) < jobLimit && old(bytes) + base + Sum(parts) <= memoryLimit
      ensures created <==> j in records
      ensures created ==> bytes == old(bytes) + base + Sum(parts) && jobs == old(jobs) + 1
      ensures !created ==> bytes == old(bytes) && jobs == old(jobs) && references == old(references)
    {
      var charge := CheckedSum(base, parts);
      RoomIsExact(memoryLimit, bytes, base + Sum(parts));
      Step(Create(j, owner, base, parts, admission));
      if charge == None {
        return false;
      }
      created := Admit(charge.value, admission);
      if created {
        RecordWritten(records, old(state).jobs, j, state.jobs[j]);
        records := records[j := JobRecord(owner, charge.value, 1, false, false)];
      }
    }

    method AbandonJob(j: nat)
      requires Valid() && Enabled(state, Abandon(j))
      modifies this
      ensures Valid() && state == Do(old(state), Abandon(j)) && j in records && records[j].abandoned
    {
      Step(Abandon(j));
      RecordWritten(records, old(state).jobs, j, state.jobs[j]);
      records := records[j := records[j].(abandoned := true)];
    }

    /** jobIsAbandoned */
    method IsAbandoned(j: nat) returns (dropped: bool)
      requires Valid() && IsLive(state, j)
      ensures dropped <==> state.jobs[j].abandoned || state.domain.closed
    {
      dropped := records[j].abandoned || closed;
    }

    lemma RecordHere(j: nat)
      requires Valid() && IsLive(state, j)
      ensures j in records && records[j] == RecordOf(state.jobs[j])
    {
    }

    method DropReference(j: nat) returns (destroy: bool)
      requires j in records && records[j].references > 0 && jobs > 0 && bytes >= records[j].charge
      modifies this`records, this`jobs, this`bytes
      ensures records == old(records)[j := old(records)[j].(references := old(records)[j].references - 1)]
      ensures destroy <==> old(records)[j].references == 1
      ensures jobs == old(jobs) - (if destroy then 1 else 0)
      ensures bytes == old(bytes) - (if destroy then old(records)[j].charge else 0)
    {
      records := records[j := records[j].(references := records[j].references - 1)];
      destroy := records[j].references == 0;
      if destroy {
        jobs, bytes := jobs - 1, bytes - records[j].charge;
      }
    }

    /** The fields after a reference is gone; `left` is the job without whoever held it. */
    method ReleaseFields(j: nat, ghost left: Job) returns (destroy: bool)
      requires Valid() && IsLive(state, j) && RecordOf(left) == RecordOf(state.jobs[j]) && left.phase == Live
      modifies this`records, this`jobs, this`bytes
      ensures RecordsMatch(records, Release(state, j, left).jobs) && Account() == Release(state, j, left).domain
      ensures destroy <==> Release(state, j, left).jobs[j].phase == Cleaning
    {
      ChargeIsHeld(state, j);
      RecordHere(j);
      RecordWritten(records, state.jobs, j, Release(state, j, left).jobs[j]);
      destroy := DropReference(j);
    }

    /** nodeApiJobRelease's section, by the owner or for the execution reference; no count underflows. */
    method ReleaseJob(j: nat, ghost a: Action) returns (destroy: bool)
      requires Valid() && Enabled(state, a) && (a == OwnerRelease(j) || a == TokenRelease(j))
      modifies this
      ensures Valid() && state == Do(old(state), a)
      ensures destroy <==> state.jobs[j].phase == Cleaning
    {
      ghost var left := Leaving(state.jobs[j], a);
      ReleaseIsStep(state, j, a);
      destroy := ReleaseFields(j, left);
      Step(a);
    }

    /** The end of nodeApiJobRelease: the job is freed, and its reference to the domain goes last. */
    method FinishCleanup(j: nat) returns (last: bool)
      requires Valid() && Enabled(state, Cleanup(j))
      modifies this
      ensures Valid() && state == Do(old(state), Cleanup(j))
      ensures references == old(references) - 1 && (last <==> references == 0)
    {
      TotalAtLeast(state.jobs, DomainHold, j);
      Step(Cleanup(j));
      RecordFreed(records, old(state).jobs, j, state.jobs[j]);
      records := records - {j};
      references := references - 1;
      last := references == 0;
    }

    method MarkSubmitted(j: nat, ghost job: Job)
      requires Valid() && IsLive(state, j) && job.phase != Gone
      requires RecordOf(job) == RecordOf(state.jobs[j]).(submitted := true, references := state.jobs[j].references + 1)
      modifies this`records
      ensures RecordsMatch(records, state.jobs[j := job])
    {
      RecordHere(j);
      RecordWritten(records, state.jobs, j, job);
      records := records[j := records[j].(submitted := true, references := records[j].references + 1)];
    }

    /** The locked part of nodeApiJobSubmit; true means the reference has to be given up at once. */
    method SubmitSection(j: nat, admission: bool) returns (shut: bool)
      requires Valid() && Enabled(state, Submit(j, admission))
      modifies this
      ensures Valid() && state == Do(old(state), Submit(j, admission))
      ensures shut <==> state.jobs[j].token == Releasing
    {
      MarkSubmitted(j, Do(state, Submit(j, admission)).jobs[j]);
      Step(Submit(j, admission));
      shut := closed || !admission;
    }

    // -----------------------------------------------------------------------
    // submit, execute and complete

    /**
     Stands for whatever other threads do between two steps of the thread that carries j's execution
     reference. A caller knows only the contract, which covers every such run
     (Dispatcher.RelyCoversRuns).
     */
    method Others(ghost j: nat)
      requires Valid() && IsLive(state, j)
      modifies this
      ensures Valid() && Rely(old(state), state, j)
    {
    }

    /** A step of the execution reference that touches no field of domain or job. */
    ghost method StepToken(a: Action)
      requires Valid() && OfToken(a) && Enabled(state, a) && !a.TokenRelease?
      modifies this`state
      ensures Valid() && IsLive(state, a.job) && Unsettled(state.jobs[a.job].token)
      ensures state.domain == old(state).domain && Moved(old(state).jobs[a.job], state.jobs[a.job])
      ensures state.jobs[a.job].token == TokenDo(old(state), a).jobs[a.job].token
      ensures state.jobs[a.job].runs == TokenDo(old(state), a).jobs[a.job].runs
      ensures state.jobs[a.job].completions == TokenDo(old(state), a).jobs[a.job].completions
    {
      TokenKeepsRecord(state, a);
      RecordWritten(records, state.jobs, a.job, TokenDo(state, a).jobs[a.job]);
      assert records[a.job := RecordOf(TokenDo(state, a).jobs[a.job])] == records;
      Step(a);
    }

    /** The rest of nodeApiJobRelease for the execution reference: it is settled, once. */
    method Settle(j: nat)
      requires Valid() && IsLive(state, j) && state.jobs[j].token == Releasing
      modifies this
      ensures Valid() && j in state.jobs && SettledFrom(old(state).jobs[j], state.jobs[j])
      ensures closed == old(closed)
    {
      var destroy := ReleaseJob(j, TokenRelease(j));
      if destroy {
        var last := FinishCleanup(j);
      }
    }

    /** nodeApiJobSubmit: the reference is queued for execution, or settled at once. */
    method SubmitJob(j: nat, admission: bool, accepted: bool) returns (queued: bool)
      requires Valid() && Enabled(state, Submit(j, admission))
      modifies this
      ensures Valid() && j in state.jobs
      ensures queued <==> !old(closed) && admission && accepted
      ensures queued <==> state.jobs[j].token == Queued
      ensures !queued ==> state.jobs[j].token == Settled
      ensures !queued ==> state.jobs[j].settlements == old(state).jobs[j].settlements + 1
      ensures state.jobs[j].runs == old(state).jobs[j].runs
      ensures state.jobs[j].completions == old(state).jobs[j].completions
    {
      var shut := SubmitSection(j, admission);
      Others(j);
      if !shut {
        StepToken(Post(j, accepted));
        if accepted {
          return true;
        }
        Others(j);
      }
      Settle(j);
      return false;
    }

    /** Steps the reference on inside a callback, with the given token step, and lets others run. */
    method Proceed(ghost a: Action)
      requires Valid() && OfToken(a) && Enabled(state, a) && !a.TokenRelease?
      modifies this
      ensures Valid() && Onward(old(state), state, a.job, TokenDo(old(state), a).jobs[a.job])
    {
      StepToken(a);
      Others(a.job);
    }

    /** jobIsAbandoned and what follows from it in the callback. */
    method Look(j: nat, admission: bool) returns (dropped: bool)
      requires Valid() && IsLive(state, j) && state.jobs[j].token in {Starting, Handled, Completing}
      modifies this
      ensures dropped <==> old(state).jobs[j].abandoned || old(closed)
      ensures Valid() && Onward(old(state), state, j, old(state).jobs[j].(token :=
        match old(state).jobs[j].token
        case Starting => if dropped then Releasing else Handling
        case Handled => if dropped then Releasing else Returning
        case _ => if dropped || !admission then Releasing else Firing))
    {
      dropped := IsAbandoned(j);
      Proceed(Run(j, admission, false));
    }

    /**
     executeJob: the handler runs unless the job was dropped or refused, and the execution reference
     ends up in the owner's queue or settled. A job dropped before does neither run nor go on.
     */
    method ExecuteJob(j: nat, admission: bool, inTime: bool, accepted: bool) returns (ran: bool, sent: bool)
      requires Valid() && IsLive(state, j) && state.jobs[j].token == Queued
      modifies this
      ensures Valid() && j in state.jobs
      ensures sent <==> state.jobs[j].token == Returned
      ensures !sent ==> state.jobs[j].token == Settled
      ensures !sent ==> state.jobs[j].settlements == old(state).jobs[j].settlements + 1
      ensures state.jobs[j].runs == old(state).jobs[j].runs + (if ran then 1 else 0)
      ensures state.jobs[j].completions == old(state).jobs[j].completions
      ensures ran ==> admission && inTime
      ensures admission && inTime && !ran ==> state.jobs[j].abandoned || closed
      ensures sent ==> accepted
      ensures accepted && !sent ==> state.jobs[j].abandoned || closed
      ensures old(state).jobs[j].abandoned || old(closed) ==> !ran && !sent
    {
      ran, sent := false, false;
      Proceed(Run(j, admission, false));
      var dropped := Look(j, admission);
      if !dropped {
        ran := admission && inTime;
        sent := FinishExecution(j, admission, ran, accepted);
        if sent {
          return;
        }
      }
      Settle(j);
    }

    /** The second half of executeJob, from the handler on. */
    method FinishExecution(j: nat, admission: bool, handled: bool, accepted: bool) returns (sent: bool)
      requires Valid() && IsLive(state, j) && state.jobs[j].token == Handling
      modifies this
      ensures Valid() && IsLive(state, j) && state.jobs[j].token == (if sent then Returned else Releasing)
      ensures state.jobs[j].runs == old(state).jobs[j].runs + (if handled then 1 else 0)
      ensures state.jobs[j].completions == old(state).jobs[j].completions
      ensures state.jobs[j].settlements == old(state).jobs[j].settlements
      ensures sent ==> accepted
      ensures accepted && !sent ==> state.jobs[j].abandoned || closed
    {
      Proceed(Run(j, admission, handled));
      var dropped := Look(j, admission);
      sent := !dropped && accepted;
      if !dropped {
        StepToken(Post(j, accepted));
        if !accepted {
          Others(j);
        }
      }
    }

    /** completeJob: settles the reference; the completion fires unless the job was dropped or admission is shut. */
    method CompleteJob(j: nat, admission: bool) returns (fired: bool)
      requires Valid() && IsLive(state, j) && state.jobs[j].token == Returned && !Busy(state, state.jobs[j].owner)
      modifies this
      ensures Valid() && j in state.jobs && state.jobs[j].token == Settled
      ensures state.jobs[j].settlements == old(state).jobs[j].settlements + 1
      ensures state.jobs[j].completions == old(state).jobs[j].completions + (if fired then 1 else 0)
      ensures state.jobs[j].runs == old(state).jobs[j].runs
      ensures old(state).jobs[j].abandoned || old(closed) || !admission ==> !fired
      ensures admission && !fired ==> state.jobs[j].abandoned || closed
    {
      Proceed(Run(j, admission, false));
      var dropped := Look(j, admission);
      fired := !dropped && admission;
      if fired {
        Proceed(Run(j, admission, false));
      }
      Settle(j);
    }
  }

  /** The job is where `expected` says, and abandonment and closing have only gone one way. */
  predicate Onward(s: State, e: State, j: nat, expected: Job) {
    && j in s.jobs && IsLive(e, j) && e.jobs[j].token == expected.token
    && e.jobs[j].runs == expected.runs && e.jobs[j].completions == expected.completions
    && e.jobs[j].settlements == s.jobs[j].settlements && e.jobs[j].owner == s.jobs[j].owner
    && (s.jobs[j].abandoned ==> e.jobs[j].abandoned) && (s.domain.closed ==> e.domain.closed)
  }

  /** A step of the reference keeps everything of the job but its token and its counters. */
  predicate Moved(was: Job, job: Job) {
    && job.owner == was.owner && job.abandoned == was.abandoned && job.settlements == was.settlements
    && RecordOf(job) == RecordOf(was)
  }

  predicate SettledFrom(was: Job, job: Job) {
    && job.token == Settled && job.settlements == was.settlements + 1
    && job.runs == was.runs && job.completions == was.completions && job.abandoned == was.abandoned
  }

  lemma TokenKeepsRecord(s: State, a: Action)
    requires OfToken(a) && TokenEnabled(s, a) && !a.TokenRelease?
    ensures TokenDo(s, a).jobs == s.jobs[a.job := TokenDo(s, a).jobs[a.job]] && TokenDo(s, a).domain == s.domain
    ensures Moved(s.jobs[a.job], TokenDo(s, a).jobs[a.job])
    ensures IsLive(TokenDo(s, a), a.job) && Unsettled(TokenDo(s, a).jobs[a.job].token)
  {
  }
}
