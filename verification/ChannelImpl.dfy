/**
 The channel of ww/base/wchan.c as it is stored: a ring with two cursors and a length, and two
 linked lists of parked threads whose `last` pointer is left stale when a list runs empty. Each
 critical section is proved to do what `ChannelSpec` says on plain sequences.
 */
module ChannelImpl {
  import opened ChannelSpec

  /** The circular queue storage; `contents` is the queue it holds. */
  class Ring<T(0)> {
    const buf: array<T>
    var sendx: nat
    var recvx: nat
    var qlen: nat
    ghost var contents: seq<T>

    /** Index arithmetic around the end of the storage, for sums below twice the capacity. */
    function Wrap(i: nat): nat { if i < buf.Length then i else i - buf.Length }

    ghost predicate Valid()
      reads this, buf
    {
      && |contents| == qlen <= buf.Length
      && (buf.Length > 0 ==> recvx < buf.Length && sendx == (recvx + qlen) % buf.Length)
      && forall i :: 0 <= i < qlen ==> contents[i] == buf[Wrap(recvx + i)]
    }

    constructor (cap: nat)
      ensures Valid() && fresh(buf) && buf.Length == cap && contents == []
    {
      buf := new T[cap];
      sendx, recvx, qlen, contents := 0, 0, 0, [];
    }

    /** Copies the message behind the last one. */
    method Push(v: T)
      requires Valid() && qlen < buf.Length
      modifies this, buf
      ensures Valid() && contents == old(contents) + [v]
    {
      ModWrap(recvx + qlen, buf.Length);
      var i := sendx;
      buf[i] := v;
      sendx := if i == buf.Length - 1 then 0 else i + 1;
      qlen := qlen + 1;
      contents := contents + [v];
      ModWrap(recvx + qlen, buf.Length);
    }

    /** Takes the first message. */
    method Pop() returns (v: T)
      requires Valid() && qlen > 0
      modifies this
      ensures Valid() && v == old(contents)[0] && contents == old(contents)[1..]
    {
      ModWrap(recvx + qlen, buf.Length);
      var i := recvx;
      recvx := if i == buf.Length - 1 then 0 else i + 1;
      v := buf[i];
      qlen := qlen - 1;
      ghost var before := contents;
      contents := contents[1..];
      ModWrap(recvx + qlen, buf.Length);
      forall k | 0 <= k < qlen ensures contents[k] == buf[Wrap(recvx + k)] {
        assert before[k + 1] == buf[Wrap(i + (k + 1))];
      }
    }

    /** On a full ring: takes the first message and puts another behind the last, in one slot. */
    method PopPush(w: T) returns (v: T)
      requires Valid() && qlen == buf.Length > 0
      modifies this, buf
      ensures Valid() && qlen == old(qlen) && v == old(contents)[0] && contents == old(contents)[1..] + [w]
    {
      ghost var before := contents;
      var i := recvx;
      if i == buf.Length - 1 {
        recvx := 0;
        sendx := 0;
      } else {
        recvx := i + 1;
        sendx := i + 1;
      }
      v := buf[i];
      buf[i] := w;
      contents := contents[1..] + [w];
      ModWrap(recvx + qlen, buf.Length);
      forall k | 0 <= k < qlen ensures contents[k] == buf[Wrap(recvx + k)] {
        if k < qlen - 1 {
          assert before[k + 1] == old(buf[Wrap(i + (k + 1))]);
        }
      }
    }
  }

  lemma ModWrap(x: nat, n: nat)
    requires n > 0 && x < 2 * n
    ensures x % n == if x < n then x else x - n
  {
    if x >= n {
      assert x / n == 1;
    } else {
      assert x / n == 0;
    }
  }

  /**
   The wait record of one thread. `slot` stands for the caller memory that elemptr points at, and
   `armed` for elemptr being set.
   */
  class Thr<T> {
    const id: nat
    var next: Thr?<T>
    var closed: bool
    var armed: bool
    var slot: T

    constructor (id: nat, initial: T)
      ensures this.id == id && next == null && !armed
    {
      this.id := id;
      next, closed, armed, slot := null, false, false, initial;
    }
  }

  /** A linked list of parked threads; `last` means nothing while the list is empty. */
  class WaitQ<T> {
    var first: Thr?<T>
    var last: Thr?<T>
    ghost var list: seq<Thr<T>>

    ghost predicate Valid()
      reads this, list
    {
      && (list == [] ==> first == null)
      && (list != [] ==> first == list[0] && last == list[|list| - 1] && list[|list| - 1].next == null)
      && (forall i :: 0 <= i < |list| - 1 ==> list[i].next == list[i + 1])
      && (forall i, j :: 0 <= i < j < |list| ==> list[i] != list[j])
    }

    constructor ()
      ensures Valid() && list == []
    {
      first, last, list := null, null, [];
    }

    method Enqueue(t: Thr<T>)
      requires Valid() && t !in list && t.next == null
      modifies this, list`next
      ensures Valid() && list == old(list) + [t] && t.next == null
    {
      if first != null {
        last.next := t;
      } else {
        first := t;
      }
      last := t;
      list := list + [t];
    }

    method Dequeue() returns (t: Thr?<T>)
      requires Valid()
      modifies this, list`next
      ensures Valid()
      ensures last == old(last)
      ensures old(list) == [] ==> t == null && list == []
      ensures old(list) != [] ==> t != null && old(list) == [t] + list && t.next == null && t !in list
    {
      t := first;
      if t != null {
        first := t.next;
        t.next := null;
        list := list[1..];
      }
    }

    /** Empties the list and marks every waiter cancelled, returning them in parking order. */
    method CancelAll() returns (woken: seq<Thr<T>>)
      requires Valid()
      modifies this, list`next, list`armed, list`closed
      ensures Valid() && list == [] && last == null
      ensures woken == old(list)
      ensures forall t :: t in woken ==> t.closed && !t.armed && t.next == null
    {
      ghost var all := list;
      var t := first;
      first, last, list := null, null, [];
      woken := [];
      ghost var k := 0;
      while t != null
        invariant first == null && last == null && list == []
        invariant 0 <= k <= |all| && woken == all[..k]
        invariant t == if k < |all| then all[k] else null
        invariant forall i :: k <= i < |all| - 1 ==> all[i].next == all[i + 1]
        invariant |all| > 0 ==> all[|all| - 1].next == null
        invariant forall i :: 0 <= i < k ==> all[i].closed && !all[i].armed && all[i].next == null
        decreases |all| - k
      {
        var next := t.next;
        t.next := null;
        t.armed := false;
        t.closed := true;
        woken := woken + [t];
        t := next;
        k := k + 1;
      }
    }
  }

  /** A list of parked threads stands for these offers, or these receivers. */
  ghost predicate StandsForOffers<T>(list: seq<Thr<T>>, offers: seq<Offer<T>>)
    reads list
  {
    && |offers| == |list|
    && forall i :: 0 <= i < |list| ==> list[i].armed && !list[i].closed && offers[i] == Offer(list[i].id, list[i].slot)
  }

  ghost predicate StandsForReceivers<T>(list: seq<Thr<T>>, ids: seq<nat>)
    reads list
  {
    && |ids| == |list|
    && forall i :: 0 <= i < |list| ==> list[i].armed && !list[i].closed && ids[i] == list[i].id
  }

  /** The channel; `view` is the state on plain sequences it stands for. */
  class Channel<T(0)> {
    const ring: Ring<T>
    const sendq: WaitQ<T>
    const recvq: WaitQ<T>
    var closed: bool
    ghost var view: ChannelSpec.Channel<T>

    ghost predicate HasParked(t: Thr<T>)
      reads sendq, recvq
    {
      t in sendq.list || t in recvq.list
    }

    ghost predicate Valid()
      reads this, ring, ring.buf, sendq, recvq, sendq.list, recvq.list
    {
      && sendq != recvq
      && ring.Valid() && sendq.Valid() && recvq.Valid()
      && (forall t :: t in sendq.list ==> t !in recvq.list)
      && view.cap == ring.buf.Length && view.buf == ring.contents && view.closed == closed
      && StandsForOffers(sendq.list, view.sendq)
      && StandsForReceivers(recvq.list, view.recvq)
      && Shape(view)
    }

    constructor (cap: nat)
      ensures Valid() && view == ChannelSpec.Channel(cap, [], [], [], false)
      ensures fresh(ring) && fresh(ring.buf) && fresh(sendq) && fresh(recvq)
    {
      ring := new Ring<T>(cap);
      sendq := new WaitQ<T>();
      recvq := new WaitQ<T>();
      closed := false;
      view := ChannelSpec.Channel(cap, [], [], [], false);
    }

    /** Resets the wait record and links it; the caller then blocks on its semaphore. */
    method Park(wq: WaitQ<T>, t: Thr<T>, elem: T)
      requires wq.Valid() && t !in wq.list
      modifies wq, wq.list`next, t
      ensures wq.Valid() && wq.list == old(wq.list) + [t]
      ensures t.armed && !t.closed && t.slot == elem
    {
      t.next := null;
      t.closed := false;
      t.armed := true;
      t.slot := elem;
      wq.Enqueue(t);
    }

    /** The critical section of a send; `woken` is the receiver to signal. */
    method Send(t: Thr<T>, v: T, block: bool) returns (r: Result<T>, woken: Thr?<T>)
      requires Valid() && !HasParked(t)
      modifies this`view, ring, ring.buf, sendq, recvq, sendq.list, recvq.list, t
      ensures Valid() && Section(view, r) == SendSection(old(view), t.id, v, block)
      ensures r.HandedTo? ==>
        && woken != null && woken in old(recvq.list) && woken.id == r.receiver
        && woken.slot == v && !woken.armed && !woken.closed
    {
      woken := null;
      if closed {
        r := if block then Aborts else ReportsClosed;
        return;
      }
      if recvq.first != null {
        r, woken := SendDirect(v);
        view := view.(recvq := view.recvq[1..]);
        return;
      }
      if ring.qlen < ring.buf.Length {
        ring.Push(v);
        view := view.(buf := view.buf + [v]);
        r := Buffered;
        return;
      }
      if !block {
        r := WouldBlock;
        return;
      }
      ParkSender(t, v);
      r := Parked;
    }

    method ParkSender(t: Thr<T>, v: T)
      requires Valid() && !HasParked(t) && !closed && view.recvq == [] && |view.buf| == view.cap
      modifies this`view, sendq, sendq.list`next, t
      ensures Valid() && view == old(view).(sendq := old(view).sendq + [Offer(t.id, v)])
    {
      Park(sendq, t, v);
      view := view.(sendq := view.sendq + [Offer(t.id, v)]);
    }

    method ParkReceiver(t: Thr<T>, initial: T)
      requires Valid() && !HasParked(t) && !closed && view.sendq == [] && view.buf == []
      modifies this`view, recvq, recvq.list`next, t
      ensures Valid() && view == old(view).(recvq := old(view).recvq + [t.id])
    {
      Park(recvq, t, initial);
      view := view.(recvq := view.recvq + [t.id]);
    }

    /** Hands the message to the first parked receiver. */
    method SendDirect(v: T) returns (r: Result<T>, woken: Thr?<T>)
      requires Valid() && recvq.first != null
      modifies recvq, recvq.list
      ensures woken != null && recvq.Valid() && old(recvq.list) == [woken] + recvq.list
      ensures StandsForReceivers(recvq.list, view.recvq[1..])
      ensures r == HandedTo(view.recvq[0]) && woken.id == r.receiver && woken.slot == v && !woken.armed && !woken.closed
    {
      var receiver := TakeReceiver();
      receiver.slot := v;
      receiver.armed := false;
      r, woken := HandedTo(receiver.id), receiver;
    }

    /** Unlinks the first parked receiver. */
    method TakeReceiver() returns (woken: Thr<T>)
      requires Valid() && recvq.first != null
      modifies recvq, recvq.list`next
      ensures recvq.Valid() && old(recvq.list) == [woken] + recvq.list && woken !in recvq.list
      ensures StandsForReceivers(recvq.list, view.recvq[1..])
      ensures view.recvq[0] == woken.id && !woken.closed
    {
      ghost var all := recvq.list;
      woken := recvq.Dequeue();
      assert woken == all[0] && forall i :: 0 <= i < |recvq.list| ==> recvq.list[i] == all[i + 1];
    }

    /** The critical section of a receive; `woken` is the sender to signal. */
    method Recv(t: Thr<T>, block: bool, initial: T) returns (r: Result<T>, woken: Thr?<T>)
      requires Valid() && !HasParked(t)
      modifies this`view, ring, ring.buf, sendq, recvq, sendq.list, recvq.list, t
      ensures Valid() && Section(view, r) == RecvSection(old(view), t.id, block)
      ensures r.ReceivedFrom? ==> woken != null && woken in old(sendq.list) && woken.id == r.sender && !woken.closed
    {
      woken := null;
      if closed && ring.qlen == 0 {
        r := ReportsClosed;
        return;
      }
      if sendq.first != null {
        r, woken := RecvFromSender(t.id, block);
      } else if ring.qlen > 0 {
        r := RecvFromRing();
      } else if !block {
        r := WouldBlock;
      } else {
        ParkReceiver(t, initial);
        r := Parked;
      }
    }

    /** With a sender parked: direct, or through the full ring. */
    method RecvFromSender(ghost id: nat, ghost block: bool) returns (r: Result<T>, woken: Thr?<T>)
      requires Valid() && sendq.first != null
      modifies this`view, ring, ring.buf, sendq, sendq.list`next
      ensures Valid() && Section(view, r) == RecvSection(old(view), id, block) && r.ReceivedFrom?
      ensures woken != null && woken in old(sendq.list) && woken.id == r.sender && !woken.closed
    {
      r, woken := RecvDirect();
      view := RecvSection(view, id, block).channel;
    }

    /** With no sender parked: the first message of the ring. */
    method RecvFromRing() returns (r: Result<T>)
      requires Valid() && sendq.first == null && ring.qlen > 0
      modifies this`view, ring
      ensures Valid() && r == Received(old(view).buf[0]) && view == old(view).(buf := old(view).buf[1..])
    {
      var v := ring.Pop();
      view := view.(buf := view.buf[1..]);
      r := Received(v);
    }

    /** Unlinks the first parked sender. */
    method TakeSender() returns (woken: Thr<T>)
      requires Valid() && sendq.first != null
      modifies sendq, sendq.list`next
      ensures sendq.Valid() && old(sendq.list) == [woken] + sendq.list
      ensures StandsForOffers(sendq.list, view.sendq[1..])
      ensures view.sendq[0] == Offer(woken.id, woken.slot) && !woken.closed
    {
      ghost var all := sendq.list;
      woken := sendq.Dequeue();
      assert woken == all[0] && forall i :: 0 <= i < |sendq.list| ==> sendq.list[i] == all[i + 1];
    }

    /** Takes a message and commits the first parked sender's. */
    method RecvDirect() returns (r: Result<T>, woken: Thr?<T>)
      requires Valid() && sendq.first != null
      modifies ring, ring.buf, sendq, sendq.list`next
      ensures woken != null && sendq.Valid() && ring.Valid() && old(sendq.list) == [woken] + sendq.list
      ensures StandsForOffers(sendq.list, view.sendq[1..])
      ensures ring.contents == if view.buf == [] then [] else view.buf[1..] + [view.sendq[0].value]
      ensures r == ReceivedFrom(if view.buf == [] then view.sendq[0].value else view.buf[0], view.sendq[0].thread)
      ensures woken.id == r.sender && !woken.closed
    {
      var sender := TakeSender();
      woken := sender;
      if ring.qlen == 0 {
        r := ReceivedFrom(sender.slot, sender.id);
      } else {
        var v := ring.PopPush(sender.slot);
        r := ReceivedFrom(v, sender.id);
      }
    }

    /** Closing an open channel cancels every waiter, receivers first; closing twice aborts. */
    method Close() returns (r: Result<T>, woken: seq<Thr<T>>)
      requires Valid()
      modifies this`closed, this`view, sendq, recvq, sendq.list, recvq.list
      ensures Valid() && Section(view, r) == CloseSection(old(view))
      ensures r.Cancels? ==> woken == old(recvq.list) + old(sendq.list)
      ensures r.Cancels? ==> forall t :: t in woken ==> t.closed && !t.armed && t.next == null
    {
      if closed {
        r, woken := Aborts, [];
      } else {
        r, woken := CloseOpen();
      }
    }

    method CloseOpen() returns (r: Result<T>, woken: seq<Thr<T>>)
      requires Valid() && !closed
      modifies this`closed, this`view, sendq, recvq, sendq.list, recvq.list
      ensures Valid() && view == old(view).(closed := true, recvq := [], sendq := [])
      ensures r == Cancels(old(view).recvq, Threads(old(view).sendq))
      ensures woken == old(recvq.list) + old(sendq.list)
      ensures forall t :: t in woken ==> t.closed && !t.armed && t.next == null
    {
      IdsStand(recvq.list, view.recvq, sendq.list, view.sendq);
      closed := true;
      view := view.(closed := true, recvq := [], sendq := []);
      var receivers, senders := CancelBoth();
      woken := receivers + senders;
      r := Cancels(Ids(receivers), Ids(senders));
    }

    method CancelBoth() returns (receivers: seq<Thr<T>>, senders: seq<Thr<T>>)
      requires sendq != recvq && sendq.Valid() && recvq.Valid() && forall t :: t in sendq.list ==> t !in recvq.list
      modifies sendq, recvq, sendq.list, recvq.list
      ensures sendq.Valid() && recvq.Valid() && sendq.list == [] && recvq.list == []
      ensures receivers == old(recvq.list) && senders == old(sendq.list)
      ensures forall t :: t in receivers + senders ==> t.closed && !t.armed && t.next == null
    {
      receivers := recvq.CancelAll();
      assert forall i :: 0 <= i < |sendq.list| ==> sendq.list[i] in sendq.list && sendq.list[i] !in receivers;
      senders := sendq.CancelAll();
    }
  }

  function Ids<T>(list: seq<Thr<T>>): seq<nat> {
    seq(|list|, i requires 0 <= i < |list| => list[i].id)
  }

  lemma IdsStand<T>(receivers: seq<Thr<T>>, ids: seq<nat>, senders: seq<Thr<T>>, offers: seq<Offer<T>>)
    requires StandsForReceivers(receivers, ids) && StandsForOffers(senders, offers)
    ensures Ids(receivers) == ids && Ids(senders) == Threads(offers)
  {
  }
}
