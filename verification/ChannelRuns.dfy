/**
 Every run of any number of senders and receivers and a close over one channel. Each critical
 section is one step. The history records in which order sends and receives were admitted, so that
 first-in first-out is one equation; messages are stamped with their admission number, which makes
 two sends of equal values different messages.
 */
module ChannelRuns {
  import opened ChannelSpec

  datatype Stamped<T> = Stamped(number: nat, value: T)

  datatype History<T> = History(
    admitted: seq<Stamped<T>>,   // sends that were committed or parked, in the order of their sections
    committed: seq<Stamped<T>>,  // sends whose message entered the ring or reached a receiver
    delivered: seq<Stamped<T>>,  // messages handed to receivers
    takers: seq<nat>,            // receives that got a message or parked, in the order of their sections
    served: seq<nat>,            // the receiver of each delivered message
    cancelledSends: seq<Stamped<T>>,
    cancelledRecvs: seq<nat>)

  datatype State<T> = State(ch: Channel<Stamped<T>>, past: History<T>, aborted: bool)

  datatype Action<T> =
    | Send(thread: nat, value: T, block: bool)
    | Recv(thread: nat, block: bool)
    | Close

  function Initial<T>(cap: nat): State<T> {
    State(Channel(cap, [], [], [], false), History([], [], [], [], [], [], []), false)
  }

  predicate IsParked<T>(c: Channel<T>, thread: nat) {
    thread in c.recvq || exists i :: 0 <= i < |c.sendq| && c.sendq[i].thread == thread
  }

  /** A parked thread takes no step, and an abort ends the program. */
  predicate Enabled<T>(s: State<T>, a: Action<T>) {
    !s.aborted && (a.Close? || !IsParked(s.ch, a.thread))
  }

  /** The message a send carries: its value under the next admission number. */
  function MessageOf<T>(s: State<T>, a: Action<T>): Stamped<T>
    requires a.Send?
  {
    Stamped(|s.past.admitted|, a.value)
  }

  function SectionOf<T>(s: State<T>, a: Action<T>): Section<Stamped<T>> {
    match a
    case Send(thread, _, block) => SendSection(s.ch, thread, MessageOf(s, a), block)
    case Recv(thread, block) => RecvSection(s.ch, thread, block)
    case Close => CloseSection(s.ch)
  }

  /** What the step adds to the history, read off the section's result. */
  function Recorded<T>(s: State<T>, a: Action<T>): History<T> {
    var h := s.past;
    var r := SectionOf(s, a).result;
    match a
    case Send(_, _, _) =>
      var m := MessageOf(s, a);
      if r.Buffered? then h.(admitted := h.admitted + [m], committed := h.committed + [m])
      else if r.HandedTo? then
        h.(admitted := h.admitted + [m], committed := h.committed + [m],
           delivered := h.delivered + [m], served := h.served + [r.receiver])
      else if r.Parked? then h.(admitted := h.admitted + [m])
      else h
    case Recv(thread, _) =>
      if r.Received? then
        h.(delivered := h.delivered + [r.value], takers := h.takers + [thread], served := h.served + [thread])
      else if r.ReceivedFrom? then
        h.(committed := h.committed + [s.ch.sendq[0].value], delivered := h.delivered + [r.value],
           takers := h.takers + [thread], served := h.served + [thread])
      else if r.Parked? then h.(takers := h.takers + [thread])
      else h
    case Close =>
      if r.Cancels? then h.(cancelledRecvs := r.receivers, cancelledSends := Values(s.ch.sendq)) else h
  }

  function Do<T>(s: State<T>, a: Action<T>): State<T>
    requires Enabled(s, a)
  {
    State(SectionOf(s, a).channel, Recorded(s, a), SectionOf(s, a).result.Aborts?)
  }

  datatype Outcome<T> = Stuck | Reached(state: State<T>)

  function Exec<T>(s: State<T>, acts: seq<Action<T>>): Outcome<T>
    decreases |acts|
  {
    if acts == [] then Reached(s)
    else if Enabled(s, acts[0]) then Exec(Do(s, acts[0]), acts[1..])
    else Stuck
  }

  // -------------------------------------------------------------------------
  // the inductive invariant

  /** Messages admitted and not committed: the parked senders', or after a close the cancelled ones'. */
  function Pending<T>(s: State<T>): seq<Stamped<T>> {
    if s.ch.closed then s.past.cancelledSends else Values(s.ch.sendq)
  }

  /** Receives admitted and not served. */
  function Waiting<T>(s: State<T>): seq<nat> {
    if s.ch.closed then s.past.cancelledRecvs else s.ch.recvq
  }

  ghost predicate Fifo<T>(s: State<T>) {
    && s.past.committed == s.past.delivered + s.ch.buf
    && s.past.admitted == s.past.committed + Pending(s)
    && s.past.takers == s.past.served + Waiting(s)
    && |s.past.served| == |s.past.delivered|
    && (Waiting(s) != [] ==> s.ch.buf == [])
    && forall i :: 0 <= i < |s.past.admitted| ==> s.past.admitted[i].number == i
  }

  ghost predicate Inv<T>(s: State<T>) {
    Shape(s.ch) && Fifo(s)
  }

  lemma ShapeStep<T>(s: State<T>, a: Action<T>)
    requires Inv(s) && Enabled(s, a)
    ensures Shape(Do(s, a).ch)
  {
  }

  /** A send that hands its message to a parked receiver. */
  lemma SendHanded<T>(s: State<T>, a: Action<T>)
    requires Inv(s) && Enabled(s, a) && a.Send? && SectionOf(s, a).result.HandedTo?
    ensures Fifo(Do(s, a))
  {
    var r := SectionOf(s, a).result;
    var s' := Do(s, a);
    assert s.ch.recvq == [r.receiver] + s.ch.recvq[1..];
    assert s'.past.takers == s'.past.served + Waiting(s');
    assert s'.past.committed == s'.past.delivered + s'.ch.buf;
    assert s'.past.admitted == s'.past.committed + Pending(s');
  }

  /** A send that goes into the ring, parks, or is refused. */
  lemma SendKept<T>(s: State<T>, a: Action<T>)
    requires Inv(s) && Enabled(s, a) && a.Send? && !SectionOf(s, a).result.HandedTo?
    ensures Fifo(Do(s, a))
  {
    var m := MessageOf(s, a);
    var r := SectionOf(s, a).result;
    var s' := Do(s, a);
    if r.Buffered? {
      assert s'.past.committed == s'.past.delivered + s'.ch.buf;
      assert Pending(s) == Pending(s') == [];
    } else if r.Parked? {
      assert Pending(s') == Pending(s) + [m];
      assert s'.past.admitted == s'.past.committed + Pending(s');
    }
  }

  /** The ring equation through a receive. */
  lemma RecvRing<T>(s: State<T>, a: Action<T>)
    requires Inv(s) && Enabled(s, a) && a.Recv?
    ensures var s' := Do(s, a); s'.past.committed == s'.past.delivered + s'.ch.buf
  {
    var r := SectionOf(s, a).result;
    var s' := Do(s, a);
    if r.Received? {
      assert s.ch.buf == [r.value] + s'.ch.buf;
      assert s.past.delivered + ([r.value] + s'.ch.buf) == s'.past.delivered + s'.ch.buf;
    } else if r.ReceivedFrom? {
      var offered := s.ch.sendq[0].value;
      assert s.ch.buf + [offered] == [r.value] + s'.ch.buf;
      assert s.past.delivered + (s.ch.buf + [offered]) == s'.past.committed;
      assert s.past.delivered + ([r.value] + s'.ch.buf) == s'.past.delivered + s'.ch.buf;
    }
  }

  /** The admission equations through a receive. */
  lemma RecvQueues<T>(s: State<T>, a: Action<T>)
    requires Inv(s) && Enabled(s, a) && a.Recv?
    ensures var s' := Do(s, a);
      && s'.past.admitted == s'.past.committed + Pending(s')
      && s'.past.takers == s'.past.served + Waiting(s')
      && (Waiting(s') != [] ==> s'.ch.buf == [])
  {
    var r := SectionOf(s, a).result;
    var s' := Do(s, a);
    if r.Received? {
      assert Pending(s') == Pending(s);
      assert Waiting(s') == Waiting(s) == [];
    } else if r.ReceivedFrom? {
      var offered := [s.ch.sendq[0].value];
      assert Pending(s) == offered + Pending(s');
      assert s.past.committed + (offered + Pending(s')) == s'.past.committed + Pending(s');
      assert Waiting(s') == Waiting(s) == [];
    } else if r.Parked? {
      assert s'.past.takers == s'.past.served + Waiting(s');
    }
  }

  lemma InvStep<T>(s: State<T>, a: Action<T>)
    requires Inv(s) && Enabled(s, a)
    ensures Inv(Do(s, a))
  {
    ShapeStep(s, a);
    if a.Send? {
      if SectionOf(s, a).result.HandedTo? {
        SendHanded(s, a);
      } else {
        SendKept(s, a);
      }
    } else if a.Recv? {
      RecvRing(s, a);
      RecvQueues(s, a);
    }
  }

  lemma {:induction false} InvHolds<T>(s: State<T>, acts: seq<Action<T>>)
    requires Inv(s) && Exec(s, acts).Reached?
    ensures Inv(Exec(s, acts).state)
    decreases |acts|
  {
    if acts != [] {
      InvStep(s, acts[0]);
      InvHolds(Do(s, acts[0]), acts[1..]);
    }
  }

  // -------------------------------------------------------------------------
  // what every run keeps

  /** The wait queues and the ring always have the documented shape. */
  lemma QueueShape<T>(cap: nat, acts: seq<Action<T>>)
    requires Exec(Initial(cap), acts).Reached?
    ensures Shape(Exec(Initial(cap), acts).state.ch)
  {
    InvHolds(Initial(cap), acts);
  }

  /** Committed messages are the delivered ones followed by the ring. */
  lemma CommittedIsDeliveredThenRing<T>(cap: nat, acts: seq<Action<T>>)
    requires Exec(Initial(cap), acts).Reached?
    ensures var s := Exec(Initial(cap), acts).state; s.past.committed == s.past.delivered + s.ch.buf
  {
    InvHolds(Initial(cap), acts);
  }

  /**
   Admission order is total: sends commit in the order their sections ran, parked or not, and the
   k-th message admitted goes to the k-th receive admitted.
   */
  lemma NobodyIsOvertaken<T>(cap: nat, acts: seq<Action<T>>)
    requires Exec(Initial(cap), acts).Reached?
    ensures var s := Exec(Initial(cap), acts).state;
      && s.past.committed <= s.past.admitted
      && s.past.delivered <= s.past.admitted
      && s.past.served <= s.past.takers
      && |s.past.served| == |s.past.delivered|
      && (!s.ch.closed ==> s.past.admitted == s.past.committed + Values(s.ch.sendq))
  {
    InvHolds(Initial(cap), acts);
    var s := Exec(Initial(cap), acts).state;
    assert s.past.delivered <= s.past.committed;
  }

  ghost predicate Extends<T>(s: State<T>, e: State<T>) {
    && s.past.admitted <= e.past.admitted
    && s.past.committed <= e.past.committed
    && s.past.delivered <= e.past.delivered
    && e.ch.cap == s.ch.cap
    && (s.ch.closed ==>
      && e.ch.closed && e.past.cancelledSends == s.past.cancelledSends && e.past.admitted == s.past.admitted
      && e.past.committed == s.past.committed && |e.ch.buf| <= |s.ch.buf|)
  }

  lemma ExtendsStep<T>(s: State<T>, a: Action<T>)
    requires Inv(s) && Enabled(s, a)
    ensures Extends(s, Do(s, a))
  {
  }

  lemma ExtendsTransitive<T>(s: State<T>, m: State<T>, e: State<T>)
    requires Extends(s, m) && Extends(m, e)
    ensures Extends(s, e)
  {
  }

  /** History only grows, and a closed channel stays closed and admits nothing. */
  lemma {:induction false} HistoryGrows<T>(s: State<T>, acts: seq<Action<T>>)
    requires Inv(s) && Exec(s, acts).Reached?
    ensures Extends(s, Exec(s, acts).state)
    decreases |acts|
  {
    if acts != [] {
      var s' := Do(s, acts[0]);
      InvStep(s, acts[0]);
      ExtendsStep(s, acts[0]);
      HistoryGrows(s', acts[1..]);
      ExtendsTransitive(s, s', Exec(s, acts).state);
    }
  }

  /** Cancelled messages come after the committed ones in the admission order, so they are none of them. */
  lemma CancelledIsNowhere<T>(e: State<T>, m: Stamped<T>)
    requires Fifo(e) && e.ch.closed && m in e.past.cancelledSends
    ensures m !in e.past.delivered && m !in e.ch.buf
  {
    var k :| 0 <= k < |e.past.cancelledSends| && e.past.cancelledSends[k] == m;
    assert e.past.admitted[|e.past.committed| + k] == m;
    assert forall i :: 0 <= i < |e.past.committed| ==> e.past.admitted[i] == e.past.committed[i];
    assert m !in e.past.committed;
    assert forall x :: x in e.past.delivered || x in e.ch.buf ==> x in e.past.delivered + e.ch.buf;
  }

  /** A send cancelled by close is never delivered, whatever happens afterwards. */
  lemma CancelledNeverDelivered<T>(cap: nat, before: seq<Action<T>>, after: seq<Action<T>>, m: Stamped<T>)
    requires Exec(Initial(cap), before).Reached?
    requires Exec(Exec(Initial(cap), before).state, after).Reached?
    requires Exec(Initial(cap), before).state.ch.closed
    requires m in Exec(Initial(cap), before).state.past.cancelledSends
    ensures var e := Exec(Exec(Initial(cap), before).state, after).state;
      m !in e.past.delivered && m !in e.ch.buf
  {
    var s := Exec(Initial<T>(cap), before).state;
    InvHolds(Initial<T>(cap), before);
    HistoryGrows(s, after);
    InvHolds(s, after);
    var e := Exec(s, after).state;
    CancelledIsNowhere(e, m);
  }

  // -------------------------------------------------------------------------
  // what each call achieves, told by the histories

  /** A message is there for a receive: committed and not delivered, or offered by a parked sender. */
  ghost predicate MessageThere<T>(s: State<T>) { s.past.delivered != s.past.committed || s.ch.sendq != [] }

  /** There is room for a send: a receiver is parked, or the ring has a free slot. */
  ghost predicate RoomThere<T>(s: State<T>) { s.past.takers != s.past.served || |s.ch.buf| < s.ch.cap }

  /** A receive, blocking or not, takes the next message in admission order whenever one is there. */
  lemma RecvTakesWhatIsThere<T>(s: State<T>, thread: nat, block: bool)
    requires Inv(s) && Enabled(s, Recv(thread, block)) && MessageThere(s)
    ensures var e := Do(s, Recv(thread, block));
      && |s.past.delivered| < |s.past.admitted|
      && e.past.delivered == s.past.delivered + [s.past.admitted[|s.past.delivered|]]
      && e.past.served == s.past.served + [thread] && e.past.takers == s.past.takers + [thread]
      && e.past.admitted == s.past.admitted && e.ch.closed == s.ch.closed && !e.aborted
  {
    if s.ch.buf == [] {
      assert s.past.committed == s.past.delivered;
    } else {
      assert s.past.committed[|s.past.delivered|] == s.ch.buf[0];
    }
  }

  /** With nothing there it reports a closed channel, parks behind the other receivers, or gives up. */
  lemma RecvFindsNothing<T>(s: State<T>, thread: nat, block: bool)
    requires Inv(s) && Enabled(s, Recv(thread, block)) && !MessageThere(s)
    ensures var e := Do(s, Recv(thread, block));
      var r := SectionOf(s, Recv(thread, block)).result;
      && (s.ch.closed ==> r == ReportsClosed && e == s)
      && (!s.ch.closed && !block ==> r == WouldBlock && e == s)
      && (!s.ch.closed && block ==>
            && r == Parked && e.past == s.past.(takers := s.past.takers + [thread])
            && e.ch == s.ch.(recvq := s.ch.recvq + [thread]))
  {
    assert s.past.delivered + s.ch.buf == s.past.delivered;
    assert s.ch.buf == [];
  }

  /** A send on an open channel with room commits its message; a parked receiver gets it at once. */
  lemma SendCommits<T>(s: State<T>, a: Action<T>)
    requires Inv(s) && Enabled(s, a) && a.Send? && !s.ch.closed && RoomThere(s)
    ensures var e := Do(s, a);
      var m := Stamped(|s.past.admitted|, a.value);
      && e.past.admitted == s.past.admitted + [m] && e.past.committed == s.past.committed + [m]
      && !e.ch.closed && !e.aborted
      && (s.past.takers != s.past.served ==>
            && e.past.delivered == s.past.delivered + [m] && |s.past.served| < |s.past.takers|
            && e.past.served == s.past.served + [s.past.takers[|s.past.served|]])
      && (s.past.takers == s.past.served ==> e.past.delivered == s.past.delivered && e.ch.buf == s.ch.buf + [m])
  {
    if s.ch.recvq == [] {
      assert s.past.served + Waiting(s) == s.past.served;
    } else {
      assert s.past.takers[|s.past.served|] == s.ch.recvq[0];
    }
  }

  /** Without room it parks behind the other senders or gives up; on a closed channel it aborts or says so. */
  lemma SendFindsNoRoom<T>(s: State<T>, a: Action<T>)
    requires Inv(s) && Enabled(s, a) && a.Send? && (s.ch.closed || !RoomThere(s))
    ensures var e := Do(s, a);
      var r := SectionOf(s, a).result;
      var m := Stamped(|s.past.admitted|, a.value);
      && (s.ch.closed ==> e.ch == s.ch && e.past == s.past && r == if a.block then Aborts else ReportsClosed)
      && (!s.ch.closed && !a.block ==> r == WouldBlock && e == s)
      && (!s.ch.closed && a.block ==>
            && r == Parked && e.past == s.past.(admitted := s.past.admitted + [m])
            && e.ch == s.ch.(sendq := s.ch.sendq + [Offer(a.thread, m)]))
      && (e.aborted <==> s.ch.closed && a.block)
  {
    if !s.ch.closed && s.ch.recvq == [] {
      assert s.past.served + Waiting(s) == s.past.served;
    }
  }

  /** A close cancels exactly the sends and receives admitted and not yet done; a second close aborts. */
  lemma CloseCancelsWaiting<T>(s: State<T>)
    requires Inv(s) && Enabled(s, Close)
    ensures var e := Do(s, Close);
      && e.aborted == s.ch.closed && e.ch.closed && e.ch.buf == s.ch.buf
      && e.past.committed == s.past.committed && e.past.delivered == s.past.delivered
      && (!s.ch.closed ==>
            && s.past.admitted == s.past.committed + e.past.cancelledSends
            && s.past.takers == s.past.served + e.past.cancelledRecvs
            && SectionOf(s, Close).result == Cancels(e.past.cancelledRecvs, Threads(s.ch.sendq)))
  {
  }

  // -------------------------------------------------------------------------
  // after a close: the ring drains in order, then every receive reports closed

  function Repeat<T>(a: Action<T>, n: nat): seq<Action<T>> { seq(n, _ => a) }

  /** As many receives as there are ring messages deliver exactly those, in order. */
  lemma {:induction false} ClosedRingDrains<T>(s: State<T>, thread: nat, block: bool)
    requires Inv(s) && s.ch.closed && !s.aborted
    ensures var out := Exec(s, Repeat(Recv(thread, block), |s.ch.buf|));
      && out.Reached? && !out.state.aborted
      && out.state.past.delivered == s.past.delivered + s.ch.buf
      && out.state.ch.closed && out.state.ch.buf == []
    decreases |s.ch.buf|
  {
    var a := Recv(thread, block);
    var acts := Repeat<T>(a, |s.ch.buf|);
    if s.ch.buf != [] {
      var s' := Do(s, a);
      InvStep(s, a);
      ClosedRingDrains(s', thread, block);
      assert acts[0] == a && acts[1..] == Repeat(a, |s'.ch.buf|);
      assert s'.past.delivered + s'.ch.buf == s.past.delivered + s.ch.buf;
    } else {
      assert acts == [];
      assert s.past.delivered + s.ch.buf == s.past.delivered;
    }
  }

  /** Closed and empty is final: every later receive, blocking or not, reports closed. */
  lemma {:induction false} ClosedAndEmptyIsFinal<T>(s: State<T>, acts: seq<Action<T>>, thread: nat, block: bool)
    requires Inv(s) && s.ch.closed && s.ch.buf == [] && Exec(s, acts).Reached?
    ensures var e := Exec(s, acts).state;
      e.ch.closed && e.ch.buf == [] && SectionOf(e, Recv(thread, block)).result == ReportsClosed
  {
    HistoryGrows(s, acts);
  }

  // -------------------------------------------------------------------------
  // the lock-free probes

  /** What the probe of a try-send reads: full ring, or no parked receiver when unbuffered. */
  predicate ProbeFull<T>(c: Channel<T>) { if c.cap == 0 then c.recvq == [] else |c.buf| == c.cap }

  /** What the probe of a try-receive reads. */
  predicate ProbeEmpty<T>(c: Channel<T>) { if c.cap == 0 then c.sendq == [] else c.buf == [] }

  /** Open, and a non-blocking send taking the lock here would report that it cannot proceed. */
  predicate OpenAndFull<T>(c: Channel<T>) { !c.closed && c.recvq == [] && |c.buf| >= c.cap }

  lemma OpenAndFullMeansWouldBlock<T>(c: Channel<T>, thread: nat, value: T)
    ensures OpenAndFull(c) <==> SendSection(c, thread, value, false).result == WouldBlock
  {
  }

  /** At one instant, the probes of an open channel say exactly what the locked try-calls would answer. */
  lemma ProbesMatchLocked<T>(s: State<T>, thread: nat, value: Stamped<T>)
    requires Inv(s) && !s.ch.closed
    ensures ProbeFull(s.ch) <==> SendSection(s.ch, thread, value, false).result == WouldBlock
    ensures ProbeEmpty(s.ch) <==> RecvSection(s.ch, thread, false).result == WouldBlock
  {
  }

  /** At some instant of the run from s along acts the channel was open and full. */
  ghost predicate WasOpenAndFull<T>(s: State<T>, acts: seq<Action<T>>) {
    exists k :: 0 <= k <= |acts| && Exec(s, acts[..k]).Reached? && OpenAndFull(Exec(s, acts[..k]).state.ch)
  }

  /**
   The try-send fast path on a buffered channel: not closed at the first read, full at the second,
   anything in between. There was an instant at which the channel was open and full.
   */
  lemma {:induction false} TrySendFailureIsHonest<T>(s: State<T>, acts: seq<Action<T>>)
    requires Inv(s) && s.ch.cap > 0 && !s.ch.closed
    requires Exec(s, acts).Reached? && ProbeFull(Exec(s, acts).state.ch)
    ensures WasOpenAndFull(s, acts)
    decreases |acts|
  {
    var e := Exec(s, acts).state;
    if !e.ch.closed || acts == [] {
      InvHolds(s, acts);
      assert acts[..|acts|] == acts;
      assert OpenAndFull(e.ch);
    } else {
      var s1 := Do(s, acts[0]);
      InvStep(s, acts[0]);
      HistoryGrows(s1, acts[1..]);
      if s1.ch.closed {
        assert acts[0].Close? && s1.ch.buf == s.ch.buf;
        assert OpenAndFull(s.ch);
        assert acts[..0] == [];
      } else {
        TrySendFailureIsHonest(s1, acts[1..]);
        var k :| 0 <= k <= |acts[1..]| && Exec(s1, acts[1..][..k]).Reached?
          && OpenAndFull(Exec(s1, acts[1..][..k]).state.ch);
        assert acts[..k + 1][0] == acts[0] && acts[..k + 1][1..] == acts[1..][..k];
        assert Exec(s, acts[..k + 1]) == Exec(s1, acts[1..][..k]);
      }
    }
  }

  ghost predicate TrySendAlwaysHonest(cap: nat) {
    forall before: seq<Action<nat>>, during: seq<Action<nat>> ::
      Exec(Initial(cap), before).Reached? && !Exec(Initial(cap), before).state.ch.closed
      && Exec(Exec(Initial(cap), before).state, during).Reached?
      && ProbeFull(Exec(Exec(Initial(cap), before).state, during).state.ch)
      ==> WasOpenAndFull(Exec(Initial(cap), before).state, during)
  }

  /**
   Over all runs the fast path's failure is honest exactly for buffered channels. Unbuffered, a close
   empties the queue of parked receivers that the probe reads: a receiver was waiting all along while
   the channel was open, and the send still reports a full, open channel.
   */
  lemma TrySendHonestIffBuffered(cap: nat)
    ensures TrySendAlwaysHonest(cap) <==> cap > 0
  {
    if cap > 0 {
      forall before: seq<Action<nat>>, during: seq<Action<nat>> |
        Exec(Initial(cap), before).Reached? && !Exec(Initial(cap), before).state.ch.closed
        && Exec(Exec(Initial(cap), before).state, during).Reached?
        && ProbeFull(Exec(Exec(Initial(cap), before).state, during).state.ch)
        ensures WasOpenAndFull(Exec(Initial(cap), before).state, during)
      {
        InvHolds(Initial<nat>(cap), before);
        HistoryGrows(Initial<nat>(cap), before);
        TrySendFailureIsHonest(Exec(Initial(cap), before).state, during);
      }
    } else {
      var before: seq<Action<nat>>, during: seq<Action<nat>> := [Recv(0, true)], [Close];
      var s := Do(Initial<nat>(0), Recv(0, true));
      assert before[1..] == [] && Exec(Initial(0), before) == Reached(s);
      var e := Do(s, Close);
      assert during[1..] == [] && Exec(s, during) == Reached(e);
      assert during[..0] == [] && during[..1] == during;
      assert !WasOpenAndFull(s, during);
      assert !TrySendAlwaysHonest(0);
    }
  }

  /**
   The try-receive fast path: empty at the first read, and still open at the second. At the first
   read a receive taking the lock would also have reported that it cannot proceed.
   */
  lemma {:induction false} TryRecvWouldBlockIsHonest<T>(s: State<T>, acts: seq<Action<T>>, thread: nat)
    requires Inv(s) && ProbeEmpty(s.ch)
    requires Exec(s, acts).Reached? && !Exec(s, acts).state.ch.closed
    ensures !s.ch.closed && SectionOf(s, Recv(thread, false)).result == WouldBlock
  {
    HistoryGrows(s, acts);
  }

  /**
   Closed at the second read and empty at the third means closed and empty, and every receive from
   then on reports closed.
   */
  lemma TryRecvClosedIsFinal<T>(s: State<T>, between: seq<Action<T>>, later: seq<Action<T>>, thread: nat, block: bool)
    requires Inv(s) && s.ch.closed
    requires Exec(s, between).Reached? && ProbeEmpty(Exec(s, between).state.ch)
    requires Exec(Exec(s, between).state, later).Reached?
    ensures var e := Exec(s, between).state;
      && e.ch.closed && e.ch.buf == []
      && SectionOf(Exec(e, later).state, Recv(thread, block)).result == ReportsClosed
  {
    InvHolds(s, between);
    HistoryGrows(s, between);
    ClosedAndEmptyIsFinal(Exec(s, between).state, later, thread, block);
  }
}
