/**
 What each critical section of the CSP channel in ww/base/wchan.c does, over plain sequences: the
 ring contents and the two queues of parked threads, in parking order. The concurrent runs, the
 ring-and-pointer implementation and the wakeup protocol are all stated against these sections.
 */
module ChannelSpec {

  /** A parked sender and the message it is offering. */
  datatype Offer<T> = Offer(thread: nat, value: T)

  datatype Channel<T> = Channel(cap: nat, buf: seq<T>, sendq: seq<Offer<T>>, recvq: seq<nat>, closed: bool)

  /** How a critical section ends for its caller. */
  datatype Result<T> =
    | Buffered                        // send: copied into the ring
    | HandedTo(receiver: nat)         // send: copied to a parked receiver, which must be woken
    | Received(value: T)              // receive: taken from the ring
    | ReceivedFrom(value: T, sender: nat) // receive: and a parked sender's message committed; wake it
    | WouldBlock                      // a non-blocking call that cannot proceed
    | Parked                          // a blocking call that waits
    | ReportsClosed                   // the channel is closed (and, to a receive, empty)
    | Cancels(receivers: seq<nat>, senders: seq<nat>) // close: every parked thread, to be woken
    | Aborts                          // blocking send on, or close of, a closed channel

  datatype Section<T> = Section(channel: Channel<T>, result: Result<T>)

  function Threads<T>(offers: seq<Offer<T>>): seq<nat> {
    seq(|offers|, i requires 0 <= i < |offers| => offers[i].thread)
  }

  function Values<T>(offers: seq<Offer<T>>): seq<T> {
    seq(|offers|, i requires 0 <= i < |offers| => offers[i].value)
  }

  function SendSection<T>(c: Channel<T>, thread: nat, value: T, block: bool): Section<T> {
    if c.closed then Section(c, if block then Aborts else ReportsClosed)
    else if c.recvq != [] then Section(c.(recvq := c.recvq[1..]), HandedTo(c.recvq[0]))
    else if |c.buf| < c.cap then Section(c.(buf := c.buf + [value]), Buffered)
    else if !block then Section(c, WouldBlock)
    else Section(c.(sendq := c.sendq + [Offer(thread, value)]), Parked)
  }

  function RecvSection<T>(c: Channel<T>, thread: nat, block: bool): Section<T> {
    if c.closed && c.buf == [] then Section(c, ReportsClosed)
    else if c.sendq != [] then
      var offer := c.sendq[0];
      if c.buf == [] then
        Section(c.(sendq := c.sendq[1..]), ReceivedFrom(offer.value, offer.thread))
      else
        Section(c.(sendq := c.sendq[1..], buf := c.buf[1..] + [offer.value]), ReceivedFrom(c.buf[0], offer.thread))
    else if c.buf != [] then Section(c.(buf := c.buf[1..]), Received(c.buf[0]))
    else if !block then Section(c, WouldBlock)
    else Section(c.(recvq := c.recvq + [thread]), Parked)
  }

  function CloseSection<T>(c: Channel<T>): Section<T> {
    if c.closed then Section(c, Aborts)
    else Section(c.(closed := true, recvq := [], sendq := []), Cancels(c.recvq, Threads(c.sendq)))
  }

  /** The shape every reachable channel has. */
  ghost predicate Shape<T>(c: Channel<T>) {
    && |c.buf| <= c.cap
    && (c.recvq != [] ==> c.buf == [] && c.sendq == [])
    && (c.sendq != [] ==> |c.buf| == c.cap)
    && (c.closed ==> c.recvq == [] && c.sendq == [])
  }
}
