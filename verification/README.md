# WaterWall's concurrency and bookkeeping kernel, in Dafny

WaterWall moves network traffic between worker threads. This project models the part of it whose
correctness depends on every interleaving or on every sequence of calls, and proves what that part
promises:

- **the CSP channel** (`ChannelSpec`, `ChannelRuns`, `ChannelParking`, `ChannelImpl`): a bounded ring,
  two queues of parked threads, direct hand-off, close with cancellation, lock-free full/empty probes,
  and the wakeup of parked threads;
- **the shared idle table** (`SharedIdleTable`, `SharedIdleOutcomes`, `SharedIdleTableImpl`): who owns
  each item's memory and the table's memory while timer scans, posted worker messages, removals, drains,
  cancellations and destruction interleave;
- **the worker-local idle table** (`HeapOrder`, `PlainIdleTable`, `LocalIdleTable`): an indexed heap with
  back-pointers and a key map, with callbacks that re-enter the table in the middle of the expiry loop,
  against a plain map from keys to deadlines;
- **the hybrid mutex** (`HybridMutex`), its use by the last reference out (`LastRelease`,
  `DomainRelease`), and **the lightweight semaphore** (`LightSemaphore`);
- **the token bucket** (`RateBucket`): 64-bit arithmetic against exact unbounded formulas;
- **the API dispatcher** (`Dispatcher`, `DispatcherImpl`) and **the quiescence gate** (`QuiescenceGate`);
- **Windows command-line quoting** (`CommandLine`), whose inverse is the Microsoft C runtime's rule
  ("Parsing C command-line arguments").

## How it is built

A protocol is a machine: `Enabled(s, a)` says when a thread may take a step, `Do(s, a)` what the step
does, and `Exec(s, acts)` runs a whole interleaving. A step is one atomic access, or one whole lock
section. The number of threads, items, jobs and channels is unbounded; `Totals.Total` counts them. Each
machine has one inductive invariant `Inv`, an `InvHolds` lemma that carries it along every run, and
theorems about every run. Lemmas that start from an arbitrary `s` with `Inv(s)` hold of every
reachable `s` by `InvHolds`. Beside safety there are lemmas on what an operation achieves: a message that
is there is received, a job that is admitted runs, an item that was extended stays.

What the source updates in place is a class here: the ring, the wait queue and the channel sections
(`ChannelImpl`), the local table with its heap array (`LocalIdleTable`), the bucket (`RateBucket`), the
command buffer (an array in `CommandLine`), and the lock sections of the shared table and the
dispatcher (`SharedIdleTableImpl`, `DispatcherImpl`). The classes of the last two carry a protocol state
with its invariant as a ghost field; every method moves it by exactly its own steps, loops included, and
keeps the fields equal to it. `DispatcherImpl` also has submit, execute and complete as whole methods; what
other threads do between their steps is known to them only through a rely condition, which
`Dispatcher.RelyCoversRuns` shows to cover every run of others.

Parameters stand for what is outside: clocks, the admission switch, the messaging layer (exactly one of
a posted message's callback and cleanup runs), the user's callbacks (arbitrary scripts of table
operations and clock ticks in `PlainIdleTable`), and the test whether the hash container can grow.

## Where the promise does not hold, and exactly when it does

- `LightSemaphore.NeverOverAcquiresIffZero`: `leightweightsemaphoreInit` takes an initial count and puts
  it both into the counter and into the kernel semaphore. Waits that succeed never outnumber the tokens
  exactly when that count is 0; for every other count the lemma builds a run that breaks it. The other
  semaphore results are therefore about count 0, which is what the channel passes (`ww/base/wchan.c:399`).
- `ChannelRuns.TrySendHonestIffBuffered`: a try-send that fails on the lock-free path without reporting
  closed had an instant at which the channel was open and full, exactly for buffered channels. Unbuffered,
  a close empties the receiver queue that the probe reads.
- `RateBucket.RetryIsLeastWait`: the retry time is the least sufficient wait exactly when neither the
  earning time nor its rounding to steps leaves 64 bits, or the least wait is itself the largest 64-bit
  number. `RateBucket.WholeBucketIsShort` is an input where it is too short.
- `PlainIdleTable.TimerExact`: the timeout is counted from the scan time, but the timer is armed at the loop
  clock after the callbacks (`ww/event/wloop.c:1707`), which a callback can move (`ww/event/wloop.c:1645`).
  The timer fires no later than the earliest deadline exactly if the clock has not moved, or no deadline
  is within a second of the scan nor before a one-second timer armed now, which is rounded down to a tenth
  of a second. `LocalIdleTable.LateTimer` is a table where it is late; callbacks that leave the clock alone
  leave it on time.
- `LastRelease.SafeIffSole`: a releaser of the shared idle table clears the mutex flag before it reads the
  waiter count, so with two or more releasers (the destroy itself counts as one) the last one can free
  the table, mutex included, before an earlier one has read it.
- `DomainRelease.SafeIffSoleReleasers`: a dispatch domain is kept by a reference that each job drops only
  after its last releaser's unlock has returned. That covers every unlock exactly if no job has two
  releasers; with an owner and an execution reference, the unlock of the one that was not the last can
  still be under way. Everything else about the lifetime of table and domain is proved with the unlock as
  part of its section.
- `ww/base/wchan.h:60-61` says a failed send sets `*closed` to false; `ww/base/wchan.c:601` sets it to
  true. The model follows the code.

## Model

| member | source | states |
|---|---|---|
| `ChannelRuns.CommittedIsDeliveredThenRing` | ww/base/wchan.c:556-873 | in every run of any number of senders, receivers and closes, the committed messages are the delivered ones followed by the ring contents, in order |
| `ChannelRuns.NobodyIsOvertaken` | ww/base/wchan.c:589-791 | parked or not, sends commit in the order their lock sections ran, and the k-th message admitted goes to the k-th receive admitted |
| `ChannelRuns.QueueShape` | ww/base/wchan.c:556-873 | in every run a waiting receiver means an empty ring and no waiting sender, a waiting sender means a full ring, and closed means both queues are empty |
| `ChannelRuns.HistoryGrows` | ww/base/wchan.c:556-940 | histories only grow; a closed channel stays closed, admits and commits nothing more, and its ring never grows |
| `ChannelRuns.CancelledNeverDelivered` | ww/base/wchan.c:484-505 | a send cancelled by close is never delivered and never in the ring, in any continuation of the run |
| `ChannelRuns.ClosedRingDrains` | ww/base/wchan.c:725-772 | after a close, as many receives as the ring holds deliver exactly the ring, in order |
| `ChannelRuns.ClosedAndEmptyIsFinal` | ww/base/wchan.c:725-737 | closed and empty is final: every later receive, blocking or not, reports closed |
| `ChannelRuns.RecvTakesWhatIsThere` | ww/base/wchan.c:725-791 | whenever a committed message is undelivered or a sender is parked, a receive, blocking or not, on an open or a closed channel, takes exactly the next message in admission order |
| `ChannelRuns.RecvFindsNothing` | ww/base/wchan.c:725-791 | otherwise it reports closed on a closed channel, would-block if it may not block, and parks at the end of the queue if it may |
| `ChannelRuns.SendCommits` | ww/base/wchan.c:589-643 | on an open channel with a parked receiver or a free slot a send, blocking or not, commits its message: to the longest-waiting receiver if there is one, else behind the ring |
| `ChannelRuns.SendFindsNoRoom` | ww/base/wchan.c:589-643 | without room a try-send reports would-block and a send parks, in admission order; on a closed channel a try-send reports closed and a send aborts |
| `ChannelRuns.CloseCancelsWaiting` | ww/base/wchan.c:919-940 | a close cancels exactly the sends that are not committed and the receives that are not served, and keeps the ring; a second one aborts |
| `ChannelRuns.ProbesMatchLocked` | ww/base/wchan.c:525-532 | on an open channel the lock-free full and empty probes say exactly whether the locked try-send and try-receive would block (`ww/base/wchan.c:664-683`) |
| `ChannelRuns.OpenAndFullMeansWouldBlock` | ww/base/wchan.c:589-643 | open and full is exactly the state in which a locked try-send reports that it cannot proceed |
| `ChannelRuns.TrySendFailureIsHonest` | ww/base/wchan.c:525-587 | the lock-free try-send failure, with anything happening between its two reads, had an instant when the buffered channel was open and full |
| `ChannelRuns.TrySendHonestIffBuffered` | ww/base/wchan.c:525-587 | over all runs that honesty holds if and only if the capacity is positive |
| `ChannelRuns.TryRecvWouldBlockIsHonest` | ww/base/wchan.c:678-712 | an empty probe followed by a not-closed read means that a locked receive at the first read would have found nothing either |
| `ChannelRuns.TryRecvClosedIsFinal` | ww/base/wchan.c:713-737 | closed, then empty, means closed and empty, and every receive from then on reports closed, whatever the capacity |
| `ChannelParking.SectionConserves` | ww/base/wchan.c:447-553 | one lock section moves each thread from the queues to the caller's list to signal, or parks the caller; none is lost or doubled |
| `ChannelParking.NoStaleToken` | ww/base/wchan.c:422-523 | a thread that is not parked has no token, no queue link and no wakeup on its way, so its next park starts clean |
| `ChannelParking.ExactlyOneWakeup` | ww/base/wchan.c:422-523 | a parked thread's wakeup is in exactly one place: its queue link, a waker's list, or its semaphore |
| `ChannelParking.SignalledThreadWakes` | ww/base/wchan.c:422-444 | the signal call for the first thread of a waker's list takes it off, gives it its one token, and lets it run |
| `ChannelParking.NoSignalAfterDestroy` | ww/base/wchan.c:296-308 | every step of a signal call finds its target's semaphore not destroyed, although the target may wake, run on and exit meanwhile |
| `ChannelParking.SignalsNeverUnderflow` | ww/base/wchan.c:422-430 | the counter of signal calls in progress is positive whenever it is decremented |
| `ChannelImpl.Ring.Push` | ww/base/wchan.c:617-631 | the ring with its wrapped write index appends to the sequence it stands for |
| `ChannelImpl.Ring.Pop` | ww/base/wchan.c:751-772 | the ring with its wrapped read index takes the first element of that sequence |
| `ChannelImpl.Ring.PopPush` | ww/base/wchan.c:836-868 | on a full ring the receive from a parked sender takes the first element and appends the sender's, through one slot |
| `ChannelImpl.WaitQ.Enqueue` | ww/base/wchan.c:447-460 | appends to the linked queue although `last` may be stale |
| `ChannelImpl.WaitQ.Dequeue` | ww/base/wchan.c:463-474 | takes the first thread, or none from an empty queue, leaving `last` as it is |
| `ChannelImpl.WaitQ.CancelAll` | ww/base/wchan.c:484-505 | empties the queue and marks each of its threads closed, unlinked and without a message, in queue order |
| `ChannelImpl.Channel.Send` | ww/base/wchan.c:589-643 | the send section on ring and queues is the abstract send section |
| `ChannelImpl.Channel.SendDirect` | ww/base/wchan.c:535-553 | hands the message to the first parked receiver |
| `ChannelImpl.Channel.Recv` | ww/base/wchan.c:725-791 | the receive section on ring and queues is the abstract receive section |
| `ChannelImpl.Channel.RecvDirect` | ww/base/wchan.c:814-873 | receives with a parked sender, from the sender itself or through the full ring |
| `ChannelImpl.Channel.Park` | ww/base/wchan.c:508-523 | resets the wait record and links it at the end of the queue |
| `ChannelImpl.Channel.Close` | ww/base/wchan.c:919-940 | closes once, aborts on a second close, and cancels exactly the parked receivers and senders |
| `SharedIdleTable.OneOwner` | ww/base/widle_table.c:269-799 | in every run an allocated item has exactly one owner among heap, messages and drains, and has not been freed; any other item has no owner |
| `SharedIdleTable.FreedExactlyOnce` | ww/base/widle_table.c:269-799 | an item that was ever allocated is, at every later point of every run, either still allocated and never freed, or freed exactly once |
| `SharedIdleTable.NoItemLeaks` | ww/base/widle_table.c:749-799 | once the table is freed and the drains are through, free() has run exactly once for every item ever created |
| `SharedIdleTable.TableFreedOnceAndLast` | ww/base/widle_table.c:442-464 | the table is given up exactly once, exactly when destroy was requested and no posted message is left |
| `SharedIdleTable.NoLockAfterFree` | ww/base/widle_table.c:442-464 | no step that takes the mutex is possible once somebody has decided to free the table, and a released message reference was counted |
| `SharedIdleTable.RestoreNeedsNoAllocation` | ww/base/widle_table.c:174-186 | whenever a message may still hand its item back, the heap has a free slot within its capacity, so the two aborts of restoration are unreachable |
| `SharedIdleTable.MapHoldsActiveItems` | ww/base/widle_table.c:381-398 | until destroy, the map holds exactly the items not removed, each under its own key |
| `SharedIdleTable.OnlyOwnEntryErased` | ww/base/widle_table.c:381-392 | an active item keeps its map entry and stays active through every continuation in which nobody removes its key for its worker, drains its worker, settles its own message or destroys the table: older items under the same key never take the entry along |
| `SharedIdleTable.NoUseAfterFree` | ww/base/widle_table.c:381-799 | in every run, every item that the next step of scan, message, removal, drain or destroy looks into is allocated |
| `SharedIdleTable.RemovalSuppressesCallback` | ww/base/widle_table.c:400-421 | after removal by hash returned true, that item's callback never starts again in any continuation, even with its message already queued |
| `SharedIdleOutcomes.CreateExact` | ww/base/widle_table.c:269-332 | a created item is in the table, active, mapped and in the heap exactly with room for the entry, a key not in use and a map that can grow; a refused one is freed, once, and nothing else changes |
| `SharedIdleOutcomes.GrowthExact` | ww/base/widle_table.c:316-327 | the heap grows to hold every posted entry too, by half as much again and four where that suffices, and never beyond the limit |
| `SharedIdleOutcomes.KeepExtends` | ww/base/widle_table.c:207-218 | the deadline becomes the later of the two, and nothing else changes |
| `SharedIdleOutcomes.RemoveExact` | ww/base/widle_table.c:400-421 | removal marks a mapped item of the calling worker, takes its key and no other out of the map and detaches it from a pending message; anything else is left alone |
| `SharedIdleOutcomes.DrainTakesAll` | ww/base/widle_table.c:508-584 | every active item of the drained worker leaves map and heap: one in the heap is on the drain's list with its callback to come, one with a message is detached |
| `SharedIdleOutcomes.DrainSparesOthers` | ww/base/widle_table.c:508-584 | an item of another worker, or one already removed, is left as it is |
| `SharedIdleOutcomes.PopExact` | ww/base/widle_table.c:707-729 | a popped entry leaves the heap: freed if it was removed, else posted to its own worker and counted |
| `SharedIdleOutcomes.DestroyExact` | ww/base/widle_table.c:749-799 | destroy frees every item that no message owns, exactly once, orphans the others, and gives the table up at once exactly if no message is left |
| `SharedIdleOutcomes.EarlyIsHandedBack` | ww/base/widle_table.c:630-647 | a message that nobody interferes with, whose item was extended meanwhile, puts it back without its callback having started |
| `SharedIdleOutcomes.DueIsCalledBack` | ww/base/widle_table.c:630-658 | a message whose item is active and due starts its callback |
| `SharedIdleOutcomes.ReturnedIsSettled` | ww/base/widle_table.c:660-678 | after the callback an active item goes back to the heap exactly if its deadline is another than before and past the clock, else it leaves the map and is to be freed |
| `SharedIdleOutcomes.KeptByCallbackStays` | ww/base/widle_table.c:653-678 | a due item that its callback keeps alive past the clock is back in the heap afterwards, still mapped, with that deadline, after one callback start |
| `SharedIdleOutcomes.ReturnedRemovedIsFreed` | ww/base/widle_table.c:660-678 | after the callback an item removed meanwhile is to be freed, whether it was extended or not |
| `SharedIdleOutcomes.RemovedIsFreed` | ww/base/widle_table.c:630-634 | a message whose item was removed goes straight to freeing it |
| `SharedIdleOutcomes.CancelledIsSettled` | ww/base/widle_table.c:466-496 | a cancelled message hands an active item of a live table back without a callback, and frees any other |
| `SharedIdleOutcomes.FreeingEnds` | ww/base/widle_table.c:681-686 | freeing gives up exactly that item, once, and then exactly that message's reference |
| `SharedIdleTable.InvStep` | ww/base/widle_table.c:269-799 | every step of scan, message, removal, drain, cancellation and destroy keeps the ownership invariant |
| `SharedIdleTableImpl.Table.CreateItem` | ww/base/widle_table.c:269-332 | creation succeeds exactly with room for the entry, a key not in use and a map that can grow, and is then in map and heap; a refusal frees the new record, once; it is the protocol's creation step, heap growth included |
| `SharedIdleTableImpl.Table.RemoveByHash` | ww/base/widle_table.c:400-421 | removal finds exactly a mapped item of the calling worker, and detaches one that a message owns |
| `SharedIdleTableImpl.Table.RestoreExtended` | ww/base/widle_table.c:637-647 | an item whose deadline moved on goes back to the heap unless removed meanwhile; otherwise the message frees it |
| `SharedIdleTableImpl.Table.CompareDeadline` | ww/base/widle_table.c:635-653 | the callback runs exactly if the item is due, and the deadline it had before is the one remembered |
| `SharedIdleTableImpl.Table.CompareAgain` | ww/base/widle_table.c:660-661 | the item is to be kept exactly if its deadline is another than before the callback and past the clock |
| `SharedIdleTableImpl.Table.SettleExpired` | ww/base/widle_table.c:663-678 | after the callback the item goes back if it was extended and not removed, else leaves the map and is freed by the message |
| `SharedIdleTableImpl.Table.SettleCancelled` | ww/base/widle_table.c:466-496 | a cancelled message restores a usable, mapped item of a live table and frees any other |
| `SharedIdleTableImpl.Table.ReleaseMessageRef` | ww/base/widle_table.c:442-464 | the counter was positive, drops by one, and exactly the last reference after destroy frees the table |
| `SharedIdleTableImpl.Table.Scan` | ww/base/widle_table.c:689-747 | the scan loop is a run of pops of the protocol; with no refresh in between it posts exactly the due entries not removed, counts each, and leaves exactly the entries that are not due, unchanged |
| `SharedIdleTableImpl.Table.PopDue` | ww/base/widle_table.c:707-729 | a due entry that was removed is freed, any other becomes a message's |
| `SharedIdleTableImpl.Table.DrainSection` | ww/base/widle_table.c:508-584 | the drain's loops over map, list and heap list exactly the worker's active items, once each, and take them out of both as the protocol's step does |
| `SharedIdleTableImpl.Table.ExpireDrained` | ww/base/widle_table.c:586-602 | a drained item has its callback started once and is then freed, for the first time |
| `SharedIdleTableImpl.Table.DestroySection` | ww/base/widle_table.c:761-798 | destroy orphans the pending items, frees each other heap entry exactly once, and frees the table itself exactly when no message is left |
| `PlainIdleTable.DeadlineFromAge` | ww/base/local_widle_table.c:99-103 | now plus age, saturating at the largest 64-bit number |
| `LocalIdleTable.Table.StrictHeap` | ww/base/local_widle_table.c:105-112 | every heap item is strictly after its parent in the order by deadline, then hash |
| `LocalIdleTable.Table.HeapSwap` | ww/base/local_widle_table.c:114-121 | two slots exchanged, back-pointers still exact |
| `LocalIdleTable.Table.SiftUp` | ww/base/local_widle_table.c:123-135 | restores the heap when one slot may be too small, back-pointers exact throughout |
| `LocalIdleTable.Table.SiftDown` | ww/base/local_widle_table.c:137-160 | restores the heap when one slot may be too large, back-pointers exact throughout |
| `LocalIdleTable.Table.Reserve` | ww/base/local_widle_table.c:162-179 | a full array is replaced by one of twice the size with the same contents, any other stays |
| `LocalIdleTable.Table.HeapPush` | ww/base/local_widle_table.c:181-188 | the item joins the heap |
| `LocalIdleTable.Table.RemoveAt` | ww/base/local_widle_table.c:190-214 | exactly that slot's item leaves the heap, from any position, and loses its index |
| `LocalIdleTable.Table.CreateItem` | ww/base/local_widle_table.c:262-286 | a key already mapped is refused and exactly the one new item freed; otherwise the item is in map and heap, and the plain table has the key with its deadline |
| `LocalIdleTable.Table.GetItemByHash` | ww/base/local_widle_table.c:288-298 | the mapped item, which is active, or nothing |
| `LocalIdleTable.Table.KeepForAtLeast` | ww/base/local_widle_table.c:300-324 | the deadline becomes the later one, inside the heap or on the item being expired, and in the plain table |
| `LocalIdleTable.Table.RemoveItem` | ww/base/local_widle_table.c:326-355 | an active item of this table leaves map, heap and plain table and is freed, the one being expired is only detached; no item, a removed one or another table's is refused without a change |
| `LocalIdleTable.Table.RunCallback` | ww/base/local_widle_table.c:418-421 | any script of creations, extensions, removals and clock ticks keeps the table valid, loses no item, frees none twice, does to the plain table exactly what its operations say, and removes the item being expired exactly if it removes its key |
| `LocalIdleTable.Table.BeginExpiry` | ww/base/local_widle_table.c:414-416 | the first item leaves the heap but keeps its key while its callback runs |
| `LocalIdleTable.Table.EndExpiry` | ww/base/local_widle_table.c:423-442 | the item returns to the heap exactly if it is not removed, was changed and is later than the clock; otherwise it is freed, and its key is gone unless it is another item's by now |
| `LocalIdleTable.Table.ExpireCurrent` | ww/base/local_widle_table.c:413-443 | the callback runs with its key still mapped; the item stays exactly if the callback did not remove it and left it with a new deadline past the clock, and the plain table is what an expiry says |
| `LocalIdleTable.Table.ExpireFirst` | ww/base/local_widle_table.c:405-443 | one round takes the least key of the plain table and does to it exactly what an expiry says; the item ends up in both indexes with a deadline past the clock, or in neither and freed, and an item extended past the clock is lost only if its callback removed it |
| `LocalIdleTable.Table.ExpireKept` | ww/base/local_widle_table.c:413-443 | a due item whose callback only keeps it alive for a positive age is still indexed afterwards, due exactly that much after the clock |
| `LocalIdleTable.Table.Scan` | ww/base/local_widle_table.c:393-446 | the loop is a scan of the plain table, round by round the least due key with its own callback; when it ends nothing is due and the timeout is 1 to 1000 ms, exactly what the earliest deadline leaves of a second from the scan time; the timer armed at the clock after the callbacks is on time if and only if the clock has not moved or no deadline is soon; the loop ends whenever callbacks add no key already due |
| `LocalIdleTable.LateTimer` | ww/base/local_widle_table.c:408-445 | a scan that ends with a key due at 1100 and a timer of at most 100 ms armed later than 1000, past that deadline |
| `LocalIdleTable.Table.FirstIsLeast` | ww/base/local_widle_table.c:405-412 | the first slot holds the least key of the plain table, by deadline and then by key |
| `LocalIdleTable.Table.Drain` | ww/base/local_widle_table.c:369-391 | the loop takes the least key out of the plain table and then runs its callback, round by round; when it ends both indexes are empty and every earlier item is freed; it ends whenever callbacks create nothing |
| `PlainIdleTable.ExtendedStays` | ww/base/local_widle_table.c:413-443 | a due key whose callback does not remove it is still there afterwards exactly if its deadline is past the clock, and then with that deadline |
| `PlainIdleTable.KeepAlive` | ww/base/local_widle_table.c:413-443 | a callback that only keeps its own key alive moves its deadline to the clock plus the age, and loses it exactly for age zero |
| `PlainIdleTable.SilentExpires` | ww/base/local_widle_table.c:413-443 | a callback that does not name its own key loses that key and does nothing but its own operations otherwise |
| `PlainIdleTable.ScanExact` | ww/base/local_widle_table.c:393-446 | after a scan that ended, a key that no callback named is there exactly if it was there and not due, with its deadline |
| `PlainIdleTable.ScanInOrder` | ww/base/local_widle_table.c:404-443 | a scan whose callbacks add nothing due takes keys in strict order of deadline, then key, over the whole scan: whatever is left after a key was taken, that key again included, comes after it |
| `PlainIdleTable.ScanEnds` | ww/base/local_widle_table.c:404-443 | such a scan has at most as many rounds as there were keys due |
| `PlainIdleTable.DrainCounts` | ww/base/local_widle_table.c:369-391 | a drain whose callbacks create nothing has at most as many rounds as there were keys |
| `PlainIdleTable.TimerExact` | ww/base/local_widle_table.c:408-445 | a timer armed for what the earliest deadline leaves of a second from an earlier time fires no later than any deadline if and only if the clock is still at that time, or no deadline is within a second of it nor before a one-second timer armed now |
| `PlainIdleTable.TicksMakeLate` | ww/base/local_widle_table.c:408-445 | it is late whenever every callback of the scan moves the clock and a key comes due within the second |
| `HeapOrder.UpStep` | ww/base/local_widle_table.c:123-135 | a swap with the parent moves the one open place up |
| `HeapOrder.DownOnce` | ww/base/local_widle_table.c:137-160 | either the heap is restored or a swap with the smaller child moves the open place down |
| `HeapOrder.ReplaceOrder` | ww/base/local_widle_table.c:205-213 | the last key in a removed slot leaves that slot open in one direction only |
| `HeapOrder.LaterOrder` | ww/base/local_widle_table.c:318-323 | a later key leaves its slot open downwards only |
| `HeapOrder.RootIsLeast` | ww/base/local_widle_table.c:405-412 | no key of a heap is less than the first |
| `HybridMutex.MutualExclusion` | ww/base/wmutex.h:684-746 | in every run there are never two holders, and the flag is set exactly while there is one |
| `HybridMutex.WaiterCountExact` | ww/base/wmutex.h:703-709 | the waiter counter equals the registered threads |
| `HybridMutex.NoLostWakeup` | ww/base/wmutex.h:684-746 | with a thread asleep and the flag clear, a token is posted, an unlocker is about to look or post, or an awake contender is on its way |
| `HybridMutex.SleeperNeverStranded` | ww/base/wmutex.h:684-746 | from every such state at most six steps of threads already inside lock or unlock give the mutex to a locker |
| `HybridMutex.TryLockExact` | ww/base/wmutex.h:728-731 | try-lock takes the mutex exactly if the flag is clear, and otherwise changes nothing |
| `HybridMutex.LockTakesClearFlag` | ww/base/wmutex.h:684-720 | a lock call that finds the flag clear has the mutex after its first exchange, without registering |
| `HybridMutex.LockSleepsOnSetFlag` | ww/base/wmutex.h:684-720 | a lock call that finds the flag set through all its spins registers as a waiter and goes to sleep |
| `HybridMutex.UnlockRun` | ww/base/wmutex.h:738-746 | an unlock clears the flag first, and posts exactly one token if there are waiters and none otherwise |
| `LastRelease.OnlyTailsAfterFree` | ww/base/wmutex.h:738-746 | with the unlock's two halves as separate steps and the last of n references freeing the table and its mutex: in every run, once freed, each other releaser is done or in the second half of an unlock that was not the last |
| `LastRelease.SafeIffSole` | ww/base/widle_table.c:442-464 | that second half never comes after the free, in every run, if and only if there is at most one releaser |
| `DomainRelease.OnlyTailsAfterFree` | ww/api/dispatcher.c:221-249 | for any number of jobs and releasers, with the unlock's halves as separate steps: once the domain is freed, each releaser is done or in the second half of an unlock that was not its job's last |
| `DomainRelease.SafeIffSoleReleasers` | ww/api/dispatcher.c:77-100 | no unlock is still under way when the domain is freed, in every run, if and only if no job has two releasers: a job's reference to the domain is dropped only after its last releaser's unlock has returned |
| `LightSemaphore.KernelBalance` | ww/base/wlsem.c:270-326 | kernel tokens plus posts in flight equal registered waiters minus max(0, -count), through spinning, blocking, timeouts and rollback |
| `LightSemaphore.TokenConservation` | ww/base/wlsem.c:368-422 | every signalled token is acquired, in the count, in the kernel, or being posted |
| `LightSemaphore.OutstandingTokenWakes` | ww/base/wlsem.c:406-422 | while a token is outstanding and a waiter registered, the kernel has a token or is about to get one |
| `LightSemaphore.TryWaitExact` | ww/base/wlsem.c:368-386 | a try-wait takes a token exactly if the count is positive |
| `LightSemaphore.SignalExact` | ww/base/wlsem.c:406-422 | a signal adds its tokens to the count and posts to the kernel as many of them as there are waiters owed one |
| `LightSemaphore.GivingUp` | ww/base/wlsem.c:297-325 | a wait that times out undoes its registration while the count is negative, and takes the token that was meant for it otherwise |
| `LightSemaphore.TokenEndsWait` | ww/base/wlsem.c:297-325 | a kernel token ends the wait as an acquisition |
| `LightSemaphore.NeverOverAcquiresIffZero` | ww/base/wlsem.c:335-339 | acquisitions never exceed initial plus signalled tokens in every run, if and only if the initial count is 0 |
| `QuiescenceGate.CountArithmetic` | ww/base/quiescence_gate.h:40-43 | adding or taking one entrant changes the count by one and not the closed bit; closing changes only the bit |
| `QuiescenceGate.CountIsEntrantsInside` | ww/base/quiescence_gate.h:155-202 | in every run the count bits equal the entrants inside, and a leaving entrant finds them positive |
| `QuiescenceGate.EntrantsKeepClosedBit` | ww/base/quiescence_gate.h:155-202 | entering and leaving never move the closed bit |
| `QuiescenceGate.ClosedAdmitsNobody` | ww/base/quiescence_gate.h:155-188 | from a closed gate nobody gets in until an open, however old the word an entrant remembers |
| `QuiescenceGate.EnterExact` | ww/base/quiescence_gate.h:155-188 | in every run an enter that nobody interferes with succeeds exactly if the gate is open and the count is below its maximum, and then counts one more inside |
| `QuiescenceGate.LeaveAndCloseExact` | ww/base/quiescence_gate.h:190-202 | a leave takes one entrant off the count; a close closes and moves nobody |
| `QuiescenceGate.WaitReturnsWhenEmpty` | ww/base/quiescence_gate.c:41-68 | the wait for quiescence can return exactly when nobody is inside |
| `QuiescenceGate.QuiescedUntilOpen` | ww/base/quiescence_gate.h:237-252 | after close-and-quiesce returned, nobody is inside and no enter succeeds in any continuation until an open succeeds |
| `QuiescenceGate.OpenOnlyFromQuiesced` | ww/base/quiescence_gate.c:15-28 | open succeeds exactly when closed with nobody inside; a refused open changes nothing |
| `RateBucket.SaturatingAdd` | ww/base/rate_bucket.c:3-6 | the sum, or the largest 64-bit number when that is smaller |
| `RateBucket.SaturatingMultiply` | ww/base/rate_bucket.c:8-11 | the product, or the largest 64-bit number when that is smaller |
| `RateBucket.RateBucket.constructor` | ww/base/rate_bucket.c:13-16 | the initial credit, no remainder, no clock |
| `RateBucket.RateBucket.Clamp` | ww/base/rate_bucket.c:18-25 | credit and remainder become the lesser of what they were and the capacity, in thousandths of a byte |
| `RateBucket.RateBucket.Refill` | ww/base/rate_bucket.c:27-76 | thousandths of a byte become min(1000 * capacity, old + rate * elapsed) for the step-aligned elapsed time, with no 64-bit overflow on the way |
| `RateBucket.RateBucket.Grant` | ww/base/rate_bucket.c:83-90 | the request if credit covers it, else all credit if a part will do and nothing if not; credit drops by exactly the grant |
| `RateBucket.GrantIsMost` | ww/base/rate_bucket.c:83-90 | no more than the request and the credit; where a part will do, the most of that; else all or nothing, and all whenever credit covers it |
| `RateBucket.RefillExact` | ww/base/rate_bucket.c:27-76 | the credit after a refill is min(1000 * capacity, old + rate * elapsed) in thousandths of a byte, the clock advances by the elapsed time, and a first refill only sets the clock |
| `RateBucket.AlignedIsLargest` | ww/base/rate_bucket.c:27-44 | the elapsed time that counts is the largest multiple of the step that has passed |
| `RateBucket.RetryAtTheEnds` | ww/base/rate_bucket.c:92-99 | no wait if credit covers the request; at rate zero the largest number, and no wait would do |
| `RateBucket.RateBucket.RetryMs` | ww/base/rate_bucket.c:92-134 | the exact waiting time of the unbounded formula, or the largest 64-bit number |
| `RateBucket.RateBucket.LeastMillis` | ww/base/rate_bucket.c:112-125 | the binary search finds the least millisecond suffix that earns the rest |
| `RateBucket.RateBucket.RoundToStep` | ww/base/rate_bucket.c:127-133 | rounds up to whole steps and takes off the part of the current step that has passed |
| `RateBucket.RefillSplit` | ww/base/rate_bucket.c:27-76 | refilling at two times equals refilling at the later one |
| `RateBucket.RefillsCollapse` | ww/base/rate_bucket.c:27-76 | any sequence of refills equals one refill at the last time |
| `RateBucket.GrantsArePaidFor` | ww/base/rate_bucket.c:27-90 | over any run of clamps, refills and grants, what was granted is at most starting credit plus what was earned |
| `RateBucket.EarnedAtConstantRate` | ww/base/rate_bucket.c:27-76 | under one rate, earnings are exactly rate times the time the bucket's clock advanced |
| `RateBucket.RetryIsLeastWait` | ww/base/rate_bucket.c:92-134 | just refilled, the returned time is the least wait after which a refill covers the request, if and only if the computation did not saturate (or the least wait is the largest 64-bit number) |
| `RateBucket.SaturatedRetryIsShort` | ww/base/rate_bucket.c:126-128 | once earning time and rounding leave 64 bits, the returned largest number is too short a wait |
| `RateBucket.WholeBucketIsShort` | ww/base/rate_bucket.c:126-128 | an input for which it is: the whole of a full-size bucket missing, at a byte a second |
| `RateBucket.RefillEstablishes` | ww/base/rate_bucket.c:27-76 | a refill at a time its clock has not passed leaves the bucket in the state that result starts from |
| `RateBucket.FallbackUnreachable` | ww/base/rate_bucket.c:129-133 | the final fallback of 1 ms is never taken |
| `CommandLine.CountNeeded` | core/launcher/launcher_windows.c:262-283 | the counting pass accepts exactly what fits and counts exactly the characters that quoting produces |
| `CommandLine.AppendArgument` | core/launcher/launcher_windows.c:252-310 | appends the quoted argument and its terminator exactly if that stays within 32766 characters and a program name has no quote, and otherwise leaves the buffer as it was |
| `CommandLine.WriteBody` | core/launcher/launcher_windows.c:288-305 | the emitting pass writes the escaped body that the counting pass counted |
| `CommandLine.BodyReadsBack` | core/launcher/launcher_windows.c:288-305 | the parser reads an escaped body back to the argument, with any number of backslashes pending |
| `CommandLine.ProgramReadsBack` | core/launcher/launcher_windows.c:250-251 | the program name, whose backslashes are literal, reads back |
| `CommandLine.RoundTrip` | core/launcher/launcher_windows.c:250-310 | parsing the line of any argument list whose program name has no quote returns exactly that list |
| `CommandLine.PlainIsVerbatim` | core/launcher/launcher_windows.c:284-308 | an argument without quotes that does not end in a backslash is written unchanged between its quotes, and so is every program name |
| `CommandLine.PlainQuoted` | core/launcher/launcher_windows.c:284-308 | quoting adds two quotes and, but for the first argument, one blank, and nothing else, to an argument without quotes and backslashes |
| `CommandLine.Build` | core/launcher/launcher_windows.c:252-310 | appending arguments one by one accepts all of them exactly if the program name has no quote and the whole line fits; it produces that line for the accepted ones, and parsing it gives them back |
| `Dispatcher.ChargeIsExact` | ww/api/dispatcher.c:43-49 | the chained additions give the exact sum and fail exactly when it leaves size_t |
| `Dispatcher.BudgetsHold` | ww/api/dispatcher.c:102-172 | in every run domain bytes are the live jobs' charges plus reservations and within the limit, and the job count is exact and within its limit |
| `Dispatcher.EachJobSettlesOnce` | ww/api/dispatcher.c:213-356 | a job's references are its owner's and its unsettled execution reference; that one settles at most once, handler and completion run at most once, and a job lives exactly while it has a reference |
| `Dispatcher.DomainOutlivesJobs` | ww/api/dispatcher.c:77-100 | while a job exists, its cleanup included, the domain has a reference |
| `Dispatcher.NoStepOnFreedDomain` | ww/api/dispatcher.c:221-249 | whatever step is still possible, with a lock section and its unlock as one step, finds the domain alive |
| `Dispatcher.DischargeNeverUnderflows` | ww/api/dispatcher.c:221-234 | a release finds a positive job count, enough bytes and a positive reference count |
| `Dispatcher.AbandonedNeverCompletes` | ww/api/dispatcher.c:213-281 | a job its owner worker has abandoned never completes in any continuation |
| `Dispatcher.AbandonStopsCompletion` | ww/api/dispatcher.c:213-219 | from the abandonment itself on, the job completes no more in any continuation |
| `Dispatcher.ClosedDomainWindsDown` | ww/api/dispatcher.c:69-75 | after a close, in every continuation, bytes and job count never grow, no job is created, and a job completes only if its completion was already being called |
| `Dispatcher.OwnStepsBounded` | ww/api/dispatcher.c:259-356 | however a run goes on, a job's execution reference takes only as many more steps as its position allows, at most ten from submission |
| `Dispatcher.UnsettledCanStep` | ww/api/dispatcher.c:259-356 | in every run an execution reference that is not settled has a step to take; with the bound, it settles, exactly once |
| `Dispatcher.RelyCoversRuns` | ww/api/dispatcher.c:213-356 | any run of other threads' steps leaves a job with an unsettled reference alive, at the same point, with abandonment and closing only ever set |
| `Dispatcher.ExecutionCourse` | ww/api/dispatcher.c:283-337 | from the target's queue, with admission open, in time and nothing abandoned or closed, the handler runs once and the reference goes to the owner's queue |
| `Dispatcher.CompletionCourse` | ww/api/dispatcher.c:267-281 | from the owner's queue likewise the completion is called once and the reference is then released |
| `DispatcherImpl.CheckedSum` | ww/api/dispatcher.c:151-161 | the loop of checked additions computes the exact charge or refuses |
| `DispatcherImpl.DomainRecord.TryReserve` | ww/api/dispatcher.c:102-111 | accepted exactly if the domain is open and the sum stays within the limit; a refused one changes nothing |
| `DispatcherImpl.DomainRecord.ReleaseBytes` | ww/api/dispatcher.c:113-124 | gives back exactly the amount; the underflow abort is unreachable |
| `DispatcherImpl.DomainRecord.Destroy` | ww/api/dispatcher.c:86-100 | closes, drops the creator's reference, and reports whether it was the last |
| `DispatcherImpl.DomainRecord.CreateJob` | ww/api/dispatcher.c:151-172 | a job is created exactly if admission and domain are open, the job count is below its limit and its charge fits the memory limit; then both accounts grow by exactly it, otherwise nothing changes |
| `DispatcherImpl.DomainRecord.SubmitJob` | ww/api/dispatcher.c:339-356 | with others running in between, the execution reference ends up in the target's queue exactly if the domain was open, admission open and the queue took it, and is settled exactly once otherwise |
| `DispatcherImpl.DomainRecord.ExecuteJob` | ww/api/dispatcher.c:283-337 | with others running between all its sections: the handler runs at most once, only if admitted and in time, and then always unless the job was abandoned or the domain closed meanwhile; the reference ends up in the owner's queue exactly if the queue took it and neither happened, and is otherwise settled exactly once |
| `DispatcherImpl.DomainRecord.CompleteJob` | ww/api/dispatcher.c:267-281 | with others running in between: the reference is settled exactly once; the completion fires at most once, never for a job dropped before or with admission shut, and otherwise always unless it was abandoned or the domain closed meanwhile |
| `DispatcherImpl.DomainRecord.ReleaseJob` | ww/api/dispatcher.c:221-235 | drops one reference; exactly the last one takes the job's accounting with it, without underflow |

## Left out

- Memory orders, fences and cache effects: atomic steps are sequentially consistent, and a lock section with its unlock is one step except in `HybridMutex`, `LastRelease` and `DomainRelease`.
- Dispatcher.NoStepOnFreedDomain: treats the unlock as part of its section; `DomainRelease` states what an unlock taken apart means for the domain.
- SharedIdleTable.NoLockAfterFree: treats the unlock as part of its section; `LastRelease` states what an unlock taken apart means for the table.
- The bodies of the hybrid mutex, the lightweight semaphore and the quiescence gate are modelled as steps of any number of interleaving threads, not as methods with their loops: a sequential method would not show any interleaving.
- LocalIdleTable.Table.Scan: takes a bound on the number of rounds, because callbacks may add due items for ever; `done` reports the loop's own end, and a bound of the number of due items is proved sufficient when callbacks add none.
- LocalIdleTable.Table.Drain: takes a bound on the number of rounds likewise; the number of items is proved sufficient when callbacks create none.
- LocalIdleTable.Table.Reserve: does not model the abort when the capacity leaves size_t.
- The next timeout of the shared timer and the order of its heap.
- SharedIdleTable: does not claim that no due item is left after a scan in every interleaving, because refreshes run without the mutex.
- The compare-exchange loop that extends a shared deadline (`ww/base/widle_table.c:207-218`) is one atomic step.
- `idleTableHashCapacityIsRepresentable` (float load-factor arithmetic): its answer is a parameter.
- Message payloads, replies, statuses and deadlines of the dispatcher: they do not affect references or budgets.
- Thread registration, time-outs by the clock, yielding, logging, allocation failure and test hooks.
- Progress under fair scheduling, except for the bounded way out of `HybridMutex.SleeperNeverStranded`.
- The rest of the launcher, the start-up code, sockets, system calls, tunnels and buffer pools: platform calls and plumbing with no invariant of their own.
