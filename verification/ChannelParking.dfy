/**
 Parking and waking over any number of channels and threads: which thread's semaphore a waker may
 still touch, and when. A critical section hands its caller a list of dequeued threads to signal;
 each signal is three separate steps on the target, and the target can wake up, run on and exit in
 between. Channel contents do not matter here, so messages are numbers.
 */
module ChannelParking {
  import opened Collections
  import opened Totals
  import opened ChannelSpec

  /** Leaving: `SawZero` after the exit path found no signal call in progress. */
  datatype Life = Live | SawZero | Destroyed

  /** One thread's wait record: parked or not, semaphore tokens, signal calls in progress. */
  datatype Thr = Thr(waiting: bool, tokens: nat, signals: nat, life: Life)

  /** The three steps of one signal call. */
  datatype Stage = Before | Added | Posted

  /** The threads a caller has dequeued and still has to signal; the head is in progress. */
  datatype Waker = Waker(targets: seq<nat>, stage: Stage)

  datatype State = State(chans: map<nat, Channel<nat>>, threads: map<nat, Thr>, wakers: map<nat, Waker>)

  datatype Call = Send(value: nat, block: bool) | Recv(block: bool) | Close

  datatype Action =
    | Open(chan: nat, cap: nat)
    | Enter(thread: nat, chan: nat, call: Call) // one critical section
    | Signal(thread: nat)                       // the next step of a signal call
    | Wake(thread: nat)                         // the semaphore wait returns
    | ExitCheck(thread: nat)                    // the exit path loads the signal counter and sees zero
    | Destroy(thread: nat)                      // and disposes of the semaphore

  const Initial: State := State(map[], map[], map[])

  function ThrOf(s: State, t: nat): Thr {
    if t in s.threads then s.threads[t] else Thr(false, 0, 0, Live)
  }

  function WakerOf(s: State, t: nat): Waker {
    if t in s.wakers then s.wakers[t] else Waker([], Before)
  }

  function SectionOf(c: Channel<nat>, t: nat, call: Call): Section<nat> {
    match call
    case Send(value, block) => SendSection(c, t, value, block)
    case Recv(block) => RecvSection(c, t, block)
    case Close => CloseSection(c)
  }

  /** The threads the section took off a queue. */
  function Dequeued(r: Result<nat>): seq<nat> {
    match r
    case HandedTo(receiver) => [receiver]
    case ReceivedFrom(_, sender) => [sender]
    case Cancels(receivers, senders) => receivers + senders
    case _ => []
  }

  /** A thread that is neither parked nor in the middle of waking others nor leaving. */
  predicate Ready(s: State, t: nat) {
    !ThrOf(s, t).waiting && ThrOf(s, t).life == Live && WakerOf(s, t).targets == []
  }

  predicate Enabled(s: State, a: Action) {
    match a
    case Open(chan, _) => chan !in s.chans
    case Enter(t, chan, call) => Ready(s, t) && chan in s.chans && !SectionOf(s.chans[chan], t, call).result.Aborts?
    case Signal(t) => WakerOf(s, t).targets != []
    case Wake(t) => ThrOf(s, t).waiting && ThrOf(s, t).tokens > 0
    case ExitCheck(t) => Ready(s, t) && ThrOf(s, t).signals == 0
    case Destroy(t) => ThrOf(s, t).life == SawZero
  }

  function WithThr(s: State, t: nat, r: Thr): State { s.(threads := s.threads[t := r]) }

  /** Count the call, post the semaphore, uncount the call: the last access to the target. */
  function SignalNext(s: State, t: nat): State
    requires Enabled(s, Signal(t))
  {
    var w := WakerOf(s, t);
    var u := w.targets[0];
    var r := ThrOf(s, u);
    match w.stage
    case Before => WithThr(s, u, r.(signals := r.signals + 1)).(wakers := s.wakers[t := w.(stage := Added)])
    case Added => WithThr(s, u, r.(tokens := r.tokens + 1)).(wakers := s.wakers[t := w.(stage := Posted)])
    case Posted =>
      WithThr(s, u, r.(signals := if r.signals > 0 then r.signals - 1 else 0))
        .(wakers := s.wakers[t := Waker(w.targets[1..], Before)])
  }

  function Do(s: State, a: Action): State
    requires Enabled(s, a)
  {
    match a
    case Open(chan, cap) => s.(chans := s.chans[chan := Channel(cap, [], [], [], false)])
    case Enter(t, chan, call) =>
      var section := SectionOf(s.chans[chan], t, call);
      s.(chans := s.chans[chan := section.channel],
         threads := s.threads[t := ThrOf(s, t).(waiting := section.result.Parked?)],
         wakers := s.wakers[t := Waker(Dequeued(section.result), Before)])
    case Signal(t) => SignalNext(s, t)
    case Wake(t) => WithThr(s, t, ThrOf(s, t).(waiting := false, tokens := ThrOf(s, t).tokens - 1))
    case ExitCheck(t) => WithThr(s, t, ThrOf(s, t).(life := SawZero))
    case Destroy(t) => WithThr(s, t, ThrOf(s, t).(life := Destroyed))
  }

  datatype Outcome = Stuck | Reached(state: State)

  function Exec(s: State, acts: seq<Action>): Outcome
    decreases |acts|
  {
    if acts == [] then Reached(s)
    else if Enabled(s, acts[0]) then Exec(Do(s, acts[0]), acts[1..])
    else Stuck
  }

  // -------------------------------------------------------------------------
  // where a parked thread's wakeup is

  /** How often u is linked into the queues of one channel. */
  function Occurs(c: Channel<nat>, u: nat): nat { Count(c.recvq, u) + Count(Threads(c.sendq), u) }

  /** How many of a waker's targets are u and have not been posted to yet. */
  function StillToPost(w: Waker, u: nat): nat {
    if w.targets == [] then 0 else Count(if w.stage == Posted then w.targets[1..] else w.targets, u)
  }

  /** Whether a waker is inside its signal call on u. */
  function InCall(w: Waker, u: nat): nat {
    if w.stage != Before && w.targets != [] && w.targets[0] == u then 1 else 0
  }

  ghost function OccursOf(u: nat): Channel<nat> -> nat { c => Occurs(c, u) }
  ghost function ToPostOf(u: nat): Waker -> nat { w => StillToPost(w, u) }
  ghost function InCallOf(u: nat): Waker -> nat { w => InCall(w, u) }

  ghost function Links(s: State, u: nat): nat { Total(s.chans, OccursOf(u)) }
  ghost function ToPost(s: State, u: nat): nat { Total(s.wakers, ToPostOf(u)) }
  ghost function Calls(s: State, u: nat): nat { Total(s.wakers, InCallOf(u)) }

  /**
   A parked thread's wakeup is in exactly one place: its queue link, a waker's list, or its
   semaphore; a thread that is not parked has none. The counter counts the calls in progress.
   */
  ghost predicate Accounted(s: State, u: nat) {
    && Links(s, u) + ToPost(s, u) + ThrOf(s, u).tokens == (if ThrOf(s, u).waiting then 1 else 0)
    && ThrOf(s, u).signals == Calls(s, u)
    && (ThrOf(s, u).life != Live ==> !ThrOf(s, u).waiting && ThrOf(s, u).signals == 0)
  }

  ghost predicate Inv(s: State) { forall u: nat :: Accounted(s, u) }

  lemma CountFirst(xs: seq<nat>, u: nat)
    requires xs != []
    ensures Count(xs, u) == Count(xs[..1], u) + Count(xs[1..], u)
    ensures xs[..1] == [xs[0]] && Count(xs[..1], u) == (if xs[0] == u then 1 else 0)
  {
    assert xs == xs[..1] + xs[1..];
    CountConcat(xs[..1], xs[1..], u);
  }

  lemma ThreadsFirst(offers: seq<Offer<nat>>)
    requires offers != []
    ensures Threads(offers)[..1] == [offers[0].thread] && Threads(offers)[1..] == Threads(offers[1..])
  {
  }

  lemma SendConserves(c: Channel<nat>, t: nat, value: nat, block: bool, u: nat)
    ensures Moves(c, SendSection(c, t, value, block), t, u)
  {
    if !c.closed {
      if c.recvq != [] {
        CountFirst(c.recvq, u);
      } else {
        assert Threads(c.sendq + [Offer(t, value)]) == Threads(c.sendq) + [t];
        CountConcat(Threads(c.sendq), [t], u);
      }
    }
  }

  lemma RecvConserves(c: Channel<nat>, t: nat, block: bool, u: nat)
    ensures Moves(c, RecvSection(c, t, block), t, u)
  {
    var section := RecvSection(c, t, block);
    if section.result.ReceivedFrom? {
      ThreadsFirst(c.sendq);
      CountFirst(Threads(c.sendq), u);
      assert Dequeued(section.result) == Threads(c.sendq)[..1];
      assert Threads(section.channel.sendq) == Threads(c.sendq)[1..];
    } else if section.result.Parked? {
      CountConcat(c.recvq, [t], u);
      assert section.channel.recvq == c.recvq + [t];
    } else {
      assert Dequeued(section.result) == [] && section.channel.recvq == c.recvq && section.channel.sendq == c.sendq;
    }
  }

  lemma CloseConserves(c: Channel<nat>, t: nat, u: nat)
    ensures Moves(c, CloseSection(c), t, u)
  {
    CountConcat(c.recvq, Threads(c.sendq), u);
  }

  ghost predicate Moves(c: Channel<nat>, section: Section<nat>, t: nat, u: nat) {
    Occurs(section.channel, u) + Count(Dequeued(section.result), u)
      == Occurs(c, u) + (if section.result.Parked? && u == t then 1 else 0)
  }

  /** A section moves each thread from its queues to the caller's list, or parks the caller. */
  lemma SectionConserves(c: Channel<nat>, t: nat, call: Call, u: nat)
    ensures Moves(c, SectionOf(c, t, call), t, u)
  {
    match call
    case Send(value, block) => SendConserves(c, t, value, block, u);
    case Recv(block) => RecvConserves(c, t, block, u);
    case Close => CloseConserves(c, t, u);
  }

  lemma EnterStep(s: State, a: Action, u: nat)
    requires Inv(s) && Enabled(s, a) && a.Enter?
    ensures Accounted(Do(s, a), u)
  {
    var s' := Do(s, a);
    var t := a.thread;
    assert Accounted(s, u);
    SectionConserves(s.chans[a.chan], t, a.call, u);
    TotalUpdate(s.chans, OccursOf(u), a.chan, s'.chans[a.chan]);
    TotalUpdate(s.wakers, ToPostOf(u), t, s'.wakers[t]);
    TotalUpdate(s.wakers, InCallOf(u), t, s'.wakers[t]);
  }

  /** What one step of a signal call does to the waker's own shares. */
  lemma SignalShares(w: Waker, u: nat)
    requires w.targets != []
    ensures var v := w.targets[0];
      match w.stage
      case Before => StillToPost(w.(stage := Added), u) == StillToPost(w, u) && InCall(w, u) == 0
      case Added => StillToPost(w.(stage := Posted), u) + (if u == v then 1 else 0) == StillToPost(w, u)
      case Posted =>
        var next := Waker(w.targets[1..], Before);
        StillToPost(next, u) == StillToPost(w, u) && InCall(next, u) == 0
  {
    CountFirst(w.targets, u);
  }

  lemma SignalStep(s: State, a: Action, u: nat)
    requires Inv(s) && Enabled(s, a) && a.Signal?
    ensures Accounted(Do(s, a), u)
  {
    var s' := Do(s, a);
    var t := a.thread;
    var w := s.wakers[t];
    assert Accounted(s, u);
    SignalShares(w, u);
    TotalUpdate(s.wakers, ToPostOf(u), t, s'.wakers[t]);
    TotalUpdate(s.wakers, InCallOf(u), t, s'.wakers[t]);
    TotalAtLeast(s.wakers, ToPostOf(u), t);
    TotalAtLeast(s.wakers, InCallOf(u), t);
    if w.stage == Before && w.targets[0] == u {
      CountFirst(w.targets, u);
      assert StillToPost(w, u) > 0;
    }
  }

  lemma InvStep(s: State, a: Action)
    requires Inv(s) && Enabled(s, a)
    ensures Inv(Do(s, a))
  {
    var s' := Do(s, a);
    forall u: nat ensures Accounted(s', u) {
      assert Accounted(s, u);
      match a
      case Open(chan, cap) => TotalUpdate(s.chans, OccursOf(u), chan, s'.chans[chan]);
      case Enter(_, _, _) => EnterStep(s, a, u);
      case Signal(_) => SignalStep(s, a, u);
      case Wake(_) =>
      case ExitCheck(_) =>
      case Destroy(_) =>
    }
  }

  lemma {:induction false} InvHolds(s: State, acts: seq<Action>)
    requires Inv(s) && Exec(s, acts).Reached?
    ensures Inv(Exec(s, acts).state)
    decreases |acts|
  {
    if acts != [] {
      InvStep(s, acts[0]);
      InvHolds(Do(s, acts[0]), acts[1..]);
    }
  }

  // -------------------------------------------------------------------------
  // what every run keeps

  /** A thread about to park has no leftover token, link or pending wakeup from an earlier park. */
  lemma NoStaleToken(acts: seq<Action>, t: nat)
    requires Exec(Initial, acts).Reached? && !ThrOf(Exec(Initial, acts).state, t).waiting
    ensures var s := Exec(Initial, acts).state;
      ThrOf(s, t).tokens == 0 && Links(s, t) == 0 && ToPost(s, t) == 0
  {
    InvHolds(Initial, acts);
    assert Accounted(Exec(Initial, acts).state, t);
  }

  /** A parked thread has exactly one wakeup, in exactly one place. */
  lemma ExactlyOneWakeup(acts: seq<Action>, t: nat)
    requires Exec(Initial, acts).Reached? && ThrOf(Exec(Initial, acts).state, t).waiting
    ensures var s := Exec(Initial, acts).state; Links(s, t) + ToPost(s, t) + ThrOf(s, t).tokens == 1
  {
    InvHolds(Initial, acts);
    assert Accounted(Exec(Initial, acts).state, t);
  }

  /** Every step of a signal call finds its target's semaphore alive. */
  lemma NoSignalAfterDestroy(acts: seq<Action>, t: nat)
    requires Exec(Initial, acts).Reached? && WakerOf(Exec(Initial, acts).state, t).targets != []
    ensures var s := Exec(Initial, acts).state; ThrOf(s, WakerOf(s, t).targets[0]).life == Live
  {
    InvHolds(Initial, acts);
    var s := Exec(Initial, acts).state;
    var u := s.wakers[t].targets[0];
    assert Accounted(s, u);
    TotalAtLeast(s.wakers, ToPostOf(u), t);
    TotalAtLeast(s.wakers, InCallOf(u), t);
  }

  /** The counter a waker is about to decrement is positive. */
  lemma SignalsNeverUnderflow(acts: seq<Action>, t: nat)
    requires Exec(Initial, acts).Reached? && WakerOf(Exec(Initial, acts).state, t).targets != []
    requires WakerOf(Exec(Initial, acts).state, t).stage == Posted
    ensures var s := Exec(Initial, acts).state; ThrOf(s, WakerOf(s, t).targets[0]).signals > 0
  {
    InvHolds(Initial, acts);
    var s := Exec(Initial, acts).state;
    var u := s.wakers[t].targets[0];
    assert Accounted(s, u);
    TotalAtLeast(s.wakers, InCallOf(u), t);
  }


  // -------------------------------------------------------------------------
  // the wakeup arrives

  lemma ExecFront(s: State, a: Action, rest: seq<Action>)
    requires Enabled(s, a)
    ensures Exec(s, [a] + rest) == Exec(Do(s, a), rest)
  {
    assert ([a] + rest)[1..] == rest;
  }

  /** A signal call posts exactly one token to its target, which can then leave its park and takes the token along. */
  lemma SignalledThreadWakes(s: State, t: nat)
    requires Inv(s) && WakerOf(s, t).targets != [] && WakerOf(s, t).stage == Before
    ensures var u := WakerOf(s, t).targets[0];
      var out := Exec(s, [Signal(t), Signal(t), Signal(t)]);
      && out.Reached? && WakerOf(out.state, t) == Waker(WakerOf(s, t).targets[1..], Before)
      && ThrOf(out.state, u) == ThrOf(s, u).(tokens := 1) && ThrOf(s, u).waiting && ThrOf(s, u).tokens == 0
      && Enabled(out.state, Wake(u)) && ThrOf(Do(out.state, Wake(u)), u) == ThrOf(s, u).(waiting := false)
  {
    var u := WakerOf(s, t).targets[0];
    assert Accounted(s, u);
    TotalAtLeast(s.wakers, ToPostOf(u), t);
    CountFirst(WakerOf(s, t).targets, u);
    var s1 := Do(s, Signal(t));
    var s2 := Do(s1, Signal(t));
    ExecFront(s2, Signal(t), []);
    ExecFront(s1, Signal(t), [Signal(t)] + []);
    ExecFront(s, Signal(t), [Signal(t)] + ([Signal(t)] + []));
    assert [Signal(t), Signal(t), Signal(t)] == [Signal(t)] + ([Signal(t)] + ([Signal(t)] + []));
  }
}
