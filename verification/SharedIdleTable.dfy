/**
 The synchronized idle table of ww/base/widle_table.c as a protocol: who owns each item's memory and
 the table's memory while timer scans, posted worker messages, removals, worker drains,
 cancellations and destruction interleave. Every critical section, and every lock-free step whose
 place matters, is one step; a timer scan holds the mutex over several steps, because deadline
 refreshes do not take it. Items are named by their allocation, which is never reused.
 */
module SharedIdleTable {
  import opened Collections
  import opened Totals

  /** idleTableMaximumEntries with eight-byte pointers. */
  const MAX_ENTRIES: nat := 0x7FFF_FFFF_FFFF_FFFF / 16
  const INITIAL_CAPACITY: nat := 32

  datatype Item = Item(key: nat, wid: nat, expire: nat, removed: bool, pending: bool, attached: bool)

  /** Where an expiration message stands; up to `Freeing` it owns its item. */
  datatype Stage =
    | Queued                  // posted; its callback or its cleanup will run
    | Checked                 // callback: saw the item attached and not removed
    | Early                   // callback: the deadline has moved on, about to restore
    | CallingBack(since: nat) // callback: the user's callback is running, the deadline was this before
    | Finishing(keep: bool)   // callback: about to settle the item
    | Freeing                 // about to free the item
    | Releasing               // about to drop the reference on the table

  datatype Message = Message(item: nat, wid: nat, stage: Stage)

  datatype State = State(
    items: map<nat, Item>,      // allocated items
    frees: multiset<nat>,       // every free() so far
    heap: seq<nat>,             // in whatever order the array has
    capacity: nat,              // slots the heap has without allocating
    index: map<nat, nat>,
    posted: nat,
    msgs: map<nat, Message>,    // messages that have not dropped their reference
    drained: map<nat, bool>,    // items a drain took out, and whether their callback has started
    scanning: Option<nat>,      // the timer scan holding the mutex, and its time
    destroyed: bool,            // destroy_requested
    teardown: nat,              // callers that decided to free the table and have not yet
    tableFrees: nat,
    starts: multiset<nat>,      // every callback start so far
    removals: set<nat>)         // items for which removal by hash returned true

  datatype Action =
    | Create(id: nat, key: nat, wid: nat, expire: nat, hashFits: bool)
    | Keep(id: nat, expire: nat)
    | Remove(wid: nat, key: nat)
    | ScanBegin(now: nat)
    | ScanPop(slot: nat, m: nat)
    | ScanEnd
    | Deliver(m: nat)           // the callback starts and looks at the item's flags
    | Decide(m: nat, now: nat)  // it compares the deadline with its clock
    | Restore(m: nat)           // it hands the extended item back
    | Return(m: nat, now: nat)  // the user's callback has returned, and it compares the deadline again
    | Finish(m: nat)            // it hands the item back or takes it out
    | Cancel(m: nat)            // the cleanup runs instead of the callback
    | FreeItem(m: nat)
    | Release(m: nat)
    | Drain(wid: nat)
    | DrainCall(id: nat)        // a drained item's callback starts
    | DrainFree(id: nat)
    | Destroy
    | FreeTable

  /** A table that has just been created. */
  predicate Fresh(s: State) {
    && s.items == map[] && s.frees == multiset{} && s.heap == [] && s.capacity == INITIAL_CAPACITY && s.index == map[]
    && s.posted == 0 && s.msgs == map[] && s.drained == map[] && s.scanning == None
    && !s.destroyed && s.teardown == 0 && s.tableFrees == 0 && s.starts == multiset{} && s.removals == {}
  }

  // -------------------------------------------------------------------------
  // when a step may be taken

  /** Worker w is inside an expiration callback, outside the user's own callback. */
  predicate Busy(s: State, w: nat) {
    exists m :: m in s.msgs && s.msgs[m].wid == w && (s.msgs[m].stage in {Checked, Early} || s.msgs[m].stage.Finishing?)
  }

  predicate LockFree(s: State) { s.scanning == None }

  /** A public operation on behalf of worker w: before destroy, and not in the middle of a message. */
  predicate MayCall(s: State, w: nat) { !s.destroyed && !Busy(s, w) }

  predicate AtStage(s: State, m: nat, stage: Stage) { m in s.msgs && s.msgs[m].stage == stage }

  /** The steps of a message's callback or cleanup, as against those of the table's users and timer. */
  predicate OfMessage(a: Action) {
    a.Deliver? || a.Decide? || a.Restore? || a.Return? || a.Finish? || a.Cancel? || a.FreeItem? || a.Release?
  }

  predicate MessageEnabled(s: State, a: Action)
    requires OfMessage(a)
  {
    match a
    case Deliver(m) => AtStage(s, m, Queued) && !Busy(s, s.msgs[m].wid)
    case Decide(m, _) => AtStage(s, m, Checked)
    case Restore(m) => LockFree(s) && AtStage(s, m, Early)
    case Return(m, _) => m in s.msgs && s.msgs[m].stage.CallingBack?
    case Finish(m) => LockFree(s) && m in s.msgs && s.msgs[m].stage.Finishing?
    case Cancel(m) => LockFree(s) && AtStage(s, m, Queued)
    case FreeItem(m) => AtStage(s, m, Freeing)
    case Release(m) => LockFree(s) && AtStage(s, m, Releasing)
  }

  predicate TableEnabled(s: State, a: Action)
    requires !OfMessage(a)
  {
    match a
    case Create(id, _, wid, _, _) => LockFree(s) && MayCall(s, wid) && id !in s.items && id !in s.frees
    case Keep(id, _) => id in s.items && MayCall(s, s.items[id].wid) && s.items[id].attached && !s.items[id].removed
    case Remove(wid, _) => LockFree(s) && MayCall(s, wid)
    case ScanBegin(_) => LockFree(s) && !s.destroyed
    case ScanPop(slot, m) =>
      && s.scanning.Some? && slot < |s.heap| && m !in s.msgs
      && (s.heap[slot] in s.items ==> s.items[s.heap[slot]].expire <= s.scanning.value)
    case ScanEnd => s.scanning.Some?
    case Drain(wid) => LockFree(s) && MayCall(s, wid)
    case DrainCall(id) => id in s.drained && !s.drained[id]
    case DrainFree(id) => id in s.drained && s.drained[id]
    case Destroy => LockFree(s) && !s.destroyed
    case FreeTable => s.teardown > 0
  }

  predicate Enabled(s: State, a: Action) {
    if OfMessage(a) then MessageEnabled(s, a) else TableEnabled(s, a)
  }

  // -------------------------------------------------------------------------
  // what a step does

  /** idleTableCanAddEntry */
  predicate CanAddEntry(heapEntries: nat, postedEntries: nat) {
    heapEntries < MAX_ENTRIES && postedEntries < MAX_ENTRIES - heapEntries
  }

  /** The heap capacity after making room for one more entry besides the posted ones. */
  function Grown(capacity: nat, heapEntries: nat, postedEntries: nat): nat {
    var required := heapEntries + postedEntries + 1;
    if required <= capacity then capacity
    else
      var grown := if capacity + capacity / 2 + 4 <= MAX_ENTRIES then capacity + capacity / 2 + 4 else MAX_ENTRIES;
      if grown < required then required else grown
  }

  function WithItem(s: State, id: nat, it: Item): State { s.(items := s.items[id := it]) }

  function WithStage(s: State, m: nat, stage: Stage): State
    requires m in s.msgs
  {
    s.(msgs := s.msgs[m := s.msgs[m].(stage := stage)])
  }

  function Freed(s: State, id: nat): State {
    s.(items := s.items - {id}, frees := s.frees + multiset{id})
  }

  /** Erases the map entry of this very item, and marks it removed. */
  function Erased(s: State, id: nat): State
    requires id in s.items
  {
    var key := s.items[id].key;
    WithItem(s, id, s.items[id].(removed := true))
      .(index := if key in s.index && s.index[key] == id then s.index - {key} else s.index)
  }

  /** Hands a message's item back to the heap; the message keeps only its table reference. */
  function Restored(s: State, m: nat): State
    requires m in s.msgs && s.msgs[m].item in s.items
  {
    var id := s.msgs[m].item;
    WithStage(WithItem(s, id, s.items[id].(pending := false)), m, Releasing).(heap := s.heap + [id])
  }

  predicate Usable(s: State, id: nat) { id in s.items && s.items[id].attached && !s.items[id].removed }

  predicate Maps(s: State, id: nat) { id in s.items && s.items[id].key in s.index && s.index[s.items[id].key] == id }

  /** The record is allocated before the section, and freed again on a refusal. */
  function Created(s: State, a: Action): State
    requires a.Create?
  {
    if !CanAddEntry(|s.heap|, s.posted) || !a.hashFits || a.key in s.index then s.(frees := s.frees + multiset{a.id})
    else
      WithItem(s, a.id, Item(a.key, a.wid, a.expire, false, false, true))
        .(index := s.index[a.key := a.id], heap := s.heap + [a.id], capacity := Grown(s.capacity, |s.heap|, s.posted))
  }

  function Removed(s: State, wid: nat, key: nat): State {
    if key !in s.index || s.index[key] !in s.items || s.items[s.index[key]].wid != wid then s
    else
      var id := s.index[key];
      var t := Erased(s, id);
      WithItem(t, id, if s.items[id].pending then t.items[id].(attached := false) else t.items[id])
        .(removals := s.removals + {id})
  }

  function Without(xs: seq<nat>, i: nat): seq<nat>
    requires i < |xs|
  {
    xs[..i] + xs[i + 1..]
  }

  function ScanPopped(s: State, slot: nat, m: nat): State
    requires slot < |s.heap|
  {
    var id := s.heap[slot];
    var t := s.(heap := Without(s.heap, slot));
    if id !in s.items then t
    else if s.items[id].removed then Freed(t, id)
    else
      WithItem(t, id, s.items[id].(pending := true))
        .(msgs := s.msgs[m := Message(id, s.items[id].wid, Queued)], posted := s.posted + 1)
  }

  function Finished(s: State, m: nat): State
    requires m in s.msgs && s.msgs[m].stage.Finishing?
  {
    var id := s.msgs[m].item;
    if Usable(s, id) && s.msgs[m].stage.keep then Restored(s, m)
    else WithStage(if Usable(s, id) then Erased(s, id) else s, m, Freeing)
  }

  function ReleasedRef(s: State, m: nat): State {
    var left := if s.posted > 0 then s.posted - 1 else 0;
    s.(msgs := s.msgs - {m}, posted := left, teardown := s.teardown + (if left == 0 && s.destroyed then 1 else 0))
  }

  /** The items a drain of worker wid takes: the mapped, active ones of that worker. */
  function DrainList(s: State, wid: nat): set<nat> {
    set id | id in s.items && Maps(s, id) && !s.items[id].removed && s.items[id].wid == wid
  }

  /** The heap without the listed items. */
  function Kept(heap: seq<nat>, list: set<nat>): seq<nat> {
    if heap == [] then []
    else (if heap[0] in list then [] else [heap[0]]) + Kept(heap[1..], list)
  }

  /** The listed items of the heap. */
  function Listed(heap: seq<nat>, list: set<nat>): seq<nat> {
    if heap == [] then []
    else (if heap[0] in list then [heap[0]] else []) + Listed(heap[1..], list)
  }

  /** Erased from the map; a pending item is detached and left to its message. */
  function DrainedItem(it: Item): Item {
    it.(removed := true, attached := it.attached && !it.pending)
  }

  function DrainStep(s: State, wid: nat): State {
    var list := DrainList(s, wid);
    s.(items := map id | id in s.items :: if id in list then DrainedItem(s.items[id]) else s.items[id],
       index := map k | k in s.index && s.index[k] !in list :: s.index[k],
       heap := Kept(s.heap, list),
       drained := s.drained + map id | id in list && !s.items[id].pending :: false)
  }

  /** Heap items that no message owns; destroy frees exactly those. */
  function HeapOwned(s: State): set<nat> {
    set id | id in s.items && id in s.heap && !s.items[id].pending
  }

  /** A pending item still in the map is marked removed and detached. */
  function OrphanedItem(s: State, id: nat): Item
    requires id in s.items
  {
    if Maps(s, id) && s.items[id].pending then s.items[id].(removed := true, attached := false) else s.items[id]
  }

  function DestroyStep(s: State): State {
    var gone := HeapOwned(s);
    s.(destroyed := true,
       items := map id | id in s.items && id !in gone :: OrphanedItem(s, id),
       frees := s.frees + multiset(Listed(s.heap, gone)),
       heap := [],
       teardown := s.teardown + (if s.posted == 0 then 1 else 0))
  }

  function ExpireOf(s: State, id: nat): nat { if id in s.items then s.items[id].expire else 0 }

  /** The callback has changed its item's deadline, to one that lies ahead. */
  predicate Extended(s: State, m: nat, now: nat)
    requires m in s.msgs && s.msgs[m].stage.CallingBack?
  {
    var expire := ExpireOf(s, s.msgs[m].item);
    expire != s.msgs[m].stage.since && expire > now
  }

  function MessageDo(s: State, a: Action): State
    requires OfMessage(a) && MessageEnabled(s, a)
  {
    match a
    case Deliver(m) => WithStage(s, m, if Usable(s, s.msgs[m].item) then Checked else Freeing)
    case Decide(m, now) =>
      var id := s.msgs[m].item;
      if id in s.items && s.items[id].expire > now then WithStage(s, m, Early)
      else WithStage(s, m, CallingBack(ExpireOf(s, id))).(starts := s.starts + multiset{id})
    case Restore(m) => if Usable(s, s.msgs[m].item) then Restored(s, m) else WithStage(s, m, Freeing)
    case Return(m, now) => WithStage(s, m, Finishing(Extended(s, m, now)))
    case Finish(m) => Finished(s, m)
    case Cancel(m) =>
      if !s.destroyed && Usable(s, s.msgs[m].item) && Maps(s, s.msgs[m].item) then Restored(s, m)
      else WithStage(s, m, Freeing)
    case FreeItem(m) => WithStage(Freed(s, s.msgs[m].item), m, Releasing)
    case Release(m) => ReleasedRef(s, m)
  }

  function TableDo(s: State, a: Action): State
    requires !OfMessage(a) && TableEnabled(s, a)
  {
    match a
    case Create(_, _, _, _, _) => Created(s, a)
    case Keep(id, expire) =>
      WithItem(s, id, s.items[id].(expire := if expire > s.items[id].expire then expire else s.items[id].expire))
    case Remove(wid, key) => Removed(s, wid, key)
    case ScanBegin(now) => s.(scanning := Some(now))
    case ScanPop(slot, m) => ScanPopped(s, slot, m)
    case ScanEnd => s.(scanning := None)
    case Drain(wid) => DrainStep(s, wid)
    case DrainCall(id) => s.(drained := s.drained[id := true], starts := s.starts + multiset{id})
    case DrainFree(id) => Freed(s, id).(drained := s.drained - {id})
    case Destroy => DestroyStep(s)
    case FreeTable => s.(teardown := s.teardown - 1, tableFrees := s.tableFrees + 1)
  }

  function Do(s: State, a: Action): State
    requires Enabled(s, a)
  {
    if OfMessage(a) then MessageDo(s, a) else TableDo(s, a)
  }

  datatype Outcome = Stuck | Reached(state: State)

  function Exec(s: State, acts: seq<Action>): Outcome
    decreases |acts|
  {
    if acts == [] then Reached(s)
    else if Enabled(s, acts[0]) then Exec(Do(s, acts[0]), acts[1..])
    else Stuck
  }

  // -------------------------------------------------------------------------
  // ownership

  predicate Owning(stage: Stage) { stage != Releasing }

  function OwningCount(msg: Message): nat { if Owning(msg.stage) then 1 else 0 }
  function One(msg: Message): nat { 1 }
  function Owns(msg: Message, id: nat): nat { if Owning(msg.stage) && msg.item == id then 1 else 0 }

  ghost function OwnsOf(id: nat): Message -> nat { msg => Owns(msg, id) }

  ghost function MsgOwners(s: State, id: nat): nat { Total(s.msgs, OwnsOf(id)) }

  /** How many parts of the system hold the item's memory. */
  ghost function Owners(s: State, id: nat): nat {
    Count(s.heap, id) + MsgOwners(s, id) + (if id in s.drained then 1 else 0)
  }

  /** Facts about one allocated item. */
  ghost predicate LiveOk(s: State, id: nat)
    requires id in s.items
  {
    var it := s.items[id];
    && Owners(s, id) == 1 && s.frees[id] == 0
    && (it.pending <==> MsgOwners(s, id) == 1)
    && (!it.attached ==> it.removed)
    && (id in s.drained || s.destroyed || id in s.removals ==> it.removed)
    && (id in s.removals ==> id !in s.drained)
    && (!s.destroyed ==> (it.removed <==> !Maps(s, id)))
  }

  /** Exactly one owner while allocated; none afterwards, and freed at most once. */
  ghost predicate ItemOk(s: State, id: nat) {
    && (id in s.items ==> LiveOk(s, id))
    && (id !in s.items ==> Owners(s, id) == 0 && s.frees[id] <= 1)
    && (id in s.removals ==> id in s.items || s.frees[id] == 1)
  }

  /** A message that still owns its item agrees with it, and never heads for a removed item's callback. */
  ghost predicate MsgOk(s: State, m: nat)
    requires m in s.msgs
  {
    var msg := s.msgs[m];
    Owning(msg.stage) ==>
      && (msg.item in s.items ==> msg.wid == s.items[msg.item].wid)
      && (msg.stage == Checked ==> msg.item !in s.removals)
      && (msg.stage == Freeing && msg.item in s.items ==> s.items[msg.item].removed)
  }

  ghost predicate TableOk(s: State) {
    && s.posted == Total(s.msgs, One)
    && |s.heap| + Total(s.msgs, OwningCount) <= s.capacity <= MAX_ENTRIES
    && (s.destroyed ==> s.heap == [] && s.scanning == None)
    && s.teardown + s.tableFrees == (if s.destroyed && s.posted == 0 then 1 else 0)
    && (!s.destroyed ==> forall k :: k in s.index ==> s.index[k] in s.items && s.items[s.index[k]].key == k)
  }

  ghost predicate Inv(s: State) {
    && TableOk(s)
    && (forall id: nat :: ItemOk(s, id))
    && (forall m :: m in s.msgs ==> MsgOk(s, m))
  }

  // -------------------------------------------------------------------------
  // every step keeps it

  lemma CountWithout(xs: seq<nat>, i: nat, id: nat)
    requires i < |xs|
    ensures Count(Without(xs, i), id) + (if xs[i] == id then 1 else 0) == Count(xs, id)
  {
    assert xs == xs[..i] + [xs[i]] + xs[i + 1..];
    assert multiset(xs) == multiset(xs[..i]) + multiset{xs[i]} + multiset(xs[i + 1..]);
  }

  lemma {:induction false} CountKept(heap: seq<nat>, list: set<nat>, id: nat)
    ensures Count(Kept(heap, list), id) == if id in list then 0 else Count(heap, id)
    ensures |Kept(heap, list)| <= |heap|
    decreases |heap|
  {
    if heap != [] {
      CountKept(heap[1..], list, id);
      assert heap == [heap[0]] + heap[1..];
      var front := if heap[0] in list then [] else [heap[0]];
      assert multiset(front + Kept(heap[1..], list)) == multiset(front) + multiset(Kept(heap[1..], list));
    }
  }

  lemma {:induction false} CountListed(heap: seq<nat>, list: set<nat>, id: nat)
    ensures Count(Listed(heap, list), id) == if id in list then Count(heap, id) else 0
    decreases |heap|
  {
    if heap != [] {
      CountListed(heap[1..], list, id);
      assert heap == [heap[0]] + heap[1..];
      var front := if heap[0] in list then [heap[0]] else [];
      assert multiset(front + Listed(heap[1..], list)) == multiset(front) + multiset(Listed(heap[1..], list));
    }
  }

  /** An owning message's item is allocated. */
  lemma OwnedIsLive(s: State, m: nat)
    requires Inv(s) && m in s.msgs && Owning(s.msgs[m].stage)
    ensures s.msgs[m].item in s.items && MsgOwners(s, s.msgs[m].item) == 1 && s.items[s.msgs[m].item].pending
    ensures s.msgs[m].item !in s.drained && Count(s.heap, s.msgs[m].item) == 0
  {
    var id := s.msgs[m].item;
    assert ItemOk(s, id);
    TotalAtLeast(s.msgs, OwnsOf(id), m);
  }

  /** Heap entries are allocated. */
  lemma HeapIsLive(s: State)
    requires Inv(s)
    ensures forall id :: id in s.heap ==> id in s.items
  {
    forall id | id in s.heap ensures id in s.items {
      assert ItemOk(s, id);
      assert Count(s.heap, id) > 0;
    }
  }

  lemma StageInv(s: State, m: nat, stage: Stage)
    requires Inv(s) && m in s.msgs && Owning(s.msgs[m].stage) && Owning(stage)
    requires stage == Checked ==> s.msgs[m].item !in s.removals
    requires stage == Freeing && s.msgs[m].item in s.items ==> s.items[s.msgs[m].item].removed
    ensures Inv(WithStage(s, m, stage))
  {
    var s' := WithStage(s, m, stage);
    var msg := s'.msgs[m];
    TotalUpdate(s.msgs, One, m, msg);
    TotalUpdate(s.msgs, OwningCount, m, msg);
    forall id: nat ensures ItemOk(s', id) {
      assert ItemOk(s, id);
      TotalUpdate(s.msgs, OwnsOf(id), m, msg);
      assert Owners(s', id) == Owners(s, id);
    }
    forall k | k in s'.msgs ensures MsgOk(s', k) {
      assert MsgOk(s, if k == m then m else k);
    }
  }

  /** Starting a callback is only recorded. */
  lemma StartInv(s: State, starts: multiset<nat>)
    requires Inv(s)
    ensures Inv(s.(starts := starts))
  {
    var s' := s.(starts := starts);
    forall id: nat ensures ItemOk(s', id) {
      assert ItemOk(s, id);
    }
    forall k | k in s'.msgs ensures MsgOk(s', k) {
      assert MsgOk(s, k);
    }
  }

  lemma RestoredInv(s: State, m: nat)
    requires Inv(s) && m in s.msgs && Owning(s.msgs[m].stage) && Usable(s, s.msgs[m].item)
    ensures Inv(Restored(s, m))
  {
    var item := s.msgs[m].item;
    OwnedIsLive(s, m);
    assert ItemOk(s, item);
    var s' := Restored(s, m);
    var msg := s'.msgs[m];
    TotalUpdate(s.msgs, One, m, msg);
    TotalUpdate(s.msgs, OwningCount, m, msg);
    forall id: nat ensures ItemOk(s', id) {
      assert ItemOk(s, id);
      TotalUpdate(s.msgs, OwnsOf(id), m, msg);
      CountConcat(s.heap, [item], id);
    }
    forall k | k in s'.msgs ensures MsgOk(s', k) {
      assert MsgOk(s, k);
    }
  }

  lemma ErasedItem(s: State, id: nat, x: nat)
    requires Inv(s) && id in s.items
    ensures ItemOk(Erased(s, id), x)
  {
    assert ItemOk(s, id) && ItemOk(s, x);
    assert Owners(Erased(s, id), x) == Owners(s, x) && MsgOwners(Erased(s, id), x) == MsgOwners(s, x);
  }

  /** Marking an item removed takes its own map entry with it, and no other. */
  lemma ErasedInv(s: State, id: nat)
    requires Inv(s) && id in s.items
    ensures Inv(Erased(s, id))
  {
    var s' := Erased(s, id);
    forall x: nat ensures ItemOk(s', x) {
      ErasedItem(s, id, x);
    }
    forall k | k in s'.msgs ensures MsgOk(s', k) {
      assert MsgOk(s, k);
    }
  }

  lemma FreeItemInv(s: State, m: nat)
    requires Inv(s) && m in s.msgs && s.msgs[m].stage == Freeing
    ensures Inv(WithStage(Freed(s, s.msgs[m].item), m, Releasing))
  {
    var item := s.msgs[m].item;
    OwnedIsLive(s, m);
    assert ItemOk(s, item) && MsgOk(s, m);
    var s' := WithStage(Freed(s, item), m, Releasing);
    var msg := s'.msgs[m];
    TotalUpdate(s.msgs, One, m, msg);
    TotalUpdate(s.msgs, OwningCount, m, msg);
    forall id: nat ensures ItemOk(s', id) {
      assert ItemOk(s, id);
      TotalUpdate(s.msgs, OwnsOf(id), m, msg);
    }
    forall k | k in s'.msgs ensures MsgOk(s', k) {
      assert MsgOk(s, k);
    }
  }

  lemma ReleaseInv(s: State, m: nat)
    requires Inv(s) && m in s.msgs && s.msgs[m].stage == Releasing
    ensures Inv(ReleasedRef(s, m))
  {
    var s' := ReleasedRef(s, m);
    TotalRemove(s.msgs, One, m);
    TotalRemove(s.msgs, OwningCount, m);
    forall id: nat ensures ItemOk(s', id) {
      assert ItemOk(s, id);
      TotalRemove(s.msgs, OwnsOf(id), m);
    }
    forall k | k in s'.msgs ensures MsgOk(s', k) {
      assert MsgOk(s, k);
    }
  }

  lemma RefusedInv(s: State, id: nat)
    requires Inv(s) && id !in s.items && id !in s.frees
    ensures Inv(s.(frees := s.frees + multiset{id}))
  {
    var s' := s.(frees := s.frees + multiset{id});
    forall x: nat ensures ItemOk(s', x) {
      assert ItemOk(s, x);
      assert Owners(s', x) == Owners(s, x) && MsgOwners(s', x) == MsgOwners(s, x);
    }
    forall k | k in s'.msgs ensures MsgOk(s', k) {
      assert MsgOk(s, k);
    }
  }

  lemma CreateInv(s: State, a: Action)
    requires Inv(s) && Enabled(s, a) && a.Create?
    ensures Inv(Created(s, a))
  {
    if !CanAddEntry(|s.heap|, s.posted) || !a.hashFits || a.key in s.index {
      RefusedInv(s, a.id);
    } else {
      AdmittedInv(s, a);
    }
  }

  lemma AdmittedInv(s: State, a: Action)
    requires Inv(s) && !s.destroyed && a.Create? && a.id !in s.items && a.id !in s.frees
    requires CanAddEntry(|s.heap|, s.posted) && a.hashFits && a.key !in s.index
    ensures Inv(Created(s, a))
  {
    var s' := Created(s, a);
    OwningAtMostPosted(s);
    forall id: nat ensures ItemOk(s', id) {
      assert ItemOk(s, id);
      CountConcat(s.heap, [a.id], id);
      assert MsgOwners(s', id) == MsgOwners(s, id);
    }
    forall k | k in s'.msgs ensures MsgOk(s', k) {
      assert MsgOk(s, k);
      assert ItemOk(s, s.msgs[k].item);
      if Owning(s.msgs[k].stage) {
        OwnedIsLive(s, k);
      }
    }
  }

  lemma OwningAtMostPosted(s: State)
    ensures Total(s.msgs, OwningCount) <= Total(s.msgs, One)
  {
    OwningBelow(s.msgs);
  }

  lemma {:induction false} OwningBelow(msgs: map<nat, Message>)
    ensures Total(msgs, OwningCount) <= Total(msgs, One)
    decreases |msgs|
  {
    if msgs != map[] {
      var m :| m in msgs;
      TotalSplit(msgs, OwningCount, m);
      TotalSplit(msgs, One, m);
      OwningBelow(msgs - {m});
    }
  }

  lemma KeepInv(s: State, id: nat, expire: nat)
    requires Inv(s) && id in s.items
    ensures Inv(WithItem(s, id, s.items[id].(expire := expire)))
  {
    var s' := WithItem(s, id, s.items[id].(expire := expire));
    forall x: nat ensures ItemOk(s', x) {
      assert ItemOk(s, x);
      assert Owners(s', x) == Owners(s, x) && MsgOwners(s', x) == MsgOwners(s, x);
    }
    forall k | k in s'.msgs ensures MsgOk(s', k) {
      assert MsgOk(s, k);
    }
  }

  /** Removal happens outside this worker's own message handling, so no message of it is past its check. */
  lemma RemoveInv(s: State, wid: nat, key: nat)
    requires Inv(s) && MayCall(s, wid)
    ensures Inv(Removed(s, wid, key))
  {
    var s' := Removed(s, wid, key);
    if s' != s {
      var id := s.index[key];
      ErasedInv(s, id);
      var t := Erased(s, id);
      assert ItemOk(s, id) && ItemOk(t, id);
      assert forall k :: k in s.msgs && s.msgs[k].wid == wid ==> s.msgs[k].stage != Checked;
      forall x: nat ensures ItemOk(s', x) {
        assert ItemOk(t, x);
        assert Owners(s', x) == Owners(t, x) && MsgOwners(s', x) == MsgOwners(t, x);
      }
      forall k | k in s'.msgs ensures MsgOk(s', k) {
        assert MsgOk(s, k) && MsgOk(t, k);
      }
    }
  }

  lemma ScanPopInv(s: State, slot: nat, m: nat)
    requires Inv(s) && !s.destroyed && slot < |s.heap| && s.heap[slot] in s.items && m !in s.msgs
    ensures Inv(ScanPopped(s, slot, m))
  {
    var item := s.heap[slot];
    var s' := ScanPopped(s, slot, m);
    assert ItemOk(s, item);
    CountWithout(s.heap, slot, item);
    if !s.items[item].removed {
      TotalUpdate(s.msgs, One, m, s'.msgs[m]);
      TotalUpdate(s.msgs, OwningCount, m, s'.msgs[m]);
    }
    forall id: nat ensures ItemOk(s', id) {
      assert ItemOk(s, id);
      CountWithout(s.heap, slot, id);
      if !s.items[item].removed {
        TotalUpdate(s.msgs, OwnsOf(id), m, s'.msgs[m]);
      } else {
        assert MsgOwners(s', id) == MsgOwners(s, id);
      }
    }
    forall k | k in s'.msgs ensures MsgOk(s', k) {
      if k != m {
        assert MsgOk(s, k);
      }
    }
  }

  lemma DrainCallInv(s: State, id: nat)
    requires Inv(s) && id in s.drained
    ensures Inv(s.(drained := s.drained[id := true]))
  {
    var s' := s.(drained := s.drained[id := true]);
    forall x: nat ensures ItemOk(s', x) {
      assert ItemOk(s, x);
      assert MsgOwners(s', x) == MsgOwners(s, x);
    }
    forall k | k in s'.msgs ensures MsgOk(s', k) {
      assert MsgOk(s, k);
    }
  }

  lemma DrainFreeInv(s: State, id: nat)
    requires Inv(s) && id in s.drained
    ensures Inv(Freed(s, id).(drained := s.drained - {id}))
  {
    var s' := Freed(s, id).(drained := s.drained - {id});
    assert ItemOk(s, id);
    forall x: nat ensures ItemOk(s', x) {
      assert ItemOk(s, x);
      assert MsgOwners(s', x) == MsgOwners(s, x);
    }
    forall k | k in s'.msgs ensures MsgOk(s', k) {
      assert MsgOk(s, k);
    }
  }

  lemma DrainInv(s: State, wid: nat)
    requires Inv(s) && MayCall(s, wid)
    ensures Inv(DrainStep(s, wid))
  {
    var list := DrainList(s, wid);
    var s' := DrainStep(s, wid);
    CountKept(s.heap, list, 0);
    forall x: nat ensures ItemOk(s', x) {
      assert ItemOk(s, x);
      CountKept(s.heap, list, x);
      assert MsgOwners(s', x) == MsgOwners(s, x);
    }
    forall k | k in s'.msgs ensures MsgOk(s', k) {
      assert MsgOk(s, k);
    }
  }

  lemma DestroyInv(s: State)
    requires Inv(s) && !s.destroyed && s.scanning == None
    ensures Inv(DestroyStep(s))
  {
    var gone := HeapOwned(s);
    var s' := DestroyStep(s);
    forall x: nat ensures ItemOk(s', x) {
      assert ItemOk(s, x);
      CountListed(s.heap, gone, x);
      assert MsgOwners(s', x) == MsgOwners(s, x);
      assert x in s.heap <==> Count(s.heap, x) > 0;
    }
    forall k | k in s'.msgs ensures MsgOk(s', k) {
      assert MsgOk(s, k);
    }
  }

  /** The steps after which the message still owns its item, or has just handed it back. */
  lemma SettleInv(s: State, a: Action)
    requires Inv(s) && OfMessage(a) && MessageEnabled(s, a) && (a.Restore? || a.Finish? || a.Cancel?)
    ensures Inv(MessageDo(s, a))
  {
    var m := a.m;
    var item := s.msgs[m].item;
    OwnedIsLive(s, m);
    assert ItemOk(s, item);
    var keeps := if a.Finish? then s.msgs[m].stage.keep else a.Restore? || (!s.destroyed && Maps(s, item));
    if Usable(s, item) && keeps {
      RestoredInv(s, m);
    } else if Usable(s, item) && a.Finish? {
      ErasedInv(s, item);
      StageInv(Erased(s, item), m, Freeing);
    } else {
      StageInv(s, m, Freeing);
    }
  }

  lemma MessageInv(s: State, a: Action)
    requires Inv(s) && OfMessage(a) && MessageEnabled(s, a)
    ensures Inv(MessageDo(s, a))
  {
    var m := a.m;
    if a.Release? {
      ReleaseInv(s, m);
    } else if a.FreeItem? {
      FreeItemInv(s, m);
    } else if a.Restore? || a.Finish? || a.Cancel? {
      SettleInv(s, a);
    } else {
      CallbackInv(s, a);
    }
  }

  lemma CallbackInv(s: State, a: Action)
    requires Inv(s) && OfMessage(a) && MessageEnabled(s, a) && (a.Deliver? || a.Decide? || a.Return?)
    ensures Inv(MessageDo(s, a))
  {
    var m := a.m;
    var item := s.msgs[m].item;
    OwnedIsLive(s, m);
    assert ItemOk(s, item);
    match a
    case Deliver(_) => StageInv(s, m, if Usable(s, item) then Checked else Freeing);
    case Decide(_, now) =>
      if s.items[item].expire > now {
        StageInv(s, m, Early);
      } else {
        var calling := CallingBack(ExpireOf(s, item));
        StageInv(s, m, calling);
        StartInv(WithStage(s, m, calling), s.starts + multiset{item});
      }
    case Return(_, now) => StageInv(s, m, Finishing(Extended(s, m, now)));
  }

  /** A field that ownership does not look at. */
  lemma ScanFlagInv(s: State, scanning: Option<nat>)
    requires Inv(s) && !s.destroyed
    ensures Inv(s.(scanning := scanning))
  {
    var s' := s.(scanning := scanning);
    forall x: nat ensures ItemOk(s', x) {
      assert ItemOk(s, x);
      assert MsgOwners(s', x) == MsgOwners(s, x);
    }
    forall k | k in s'.msgs ensures MsgOk(s', k) {
      assert MsgOk(s, k);
    }
  }

  lemma FreeTableInv(s: State)
    requires Inv(s) && s.teardown > 0
    ensures Inv(s.(teardown := s.teardown - 1, tableFrees := s.tableFrees + 1))
  {
    var s' := s.(teardown := s.teardown - 1, tableFrees := s.tableFrees + 1);
    forall x: nat ensures ItemOk(s', x) {
      assert ItemOk(s, x);
      assert MsgOwners(s', x) == MsgOwners(s, x);
    }
    assert s.msgs == map[] by {
      if m :| m in s.msgs {
        TotalAtLeast(s.msgs, One, m);
      }
    }
  }

  lemma TableInv(s: State, a: Action)
    requires Inv(s) && !OfMessage(a) && TableEnabled(s, a)
    ensures Inv(TableDo(s, a))
  {
    match a
    case Create(_, _, _, _, _) => CreateInv(s, a);
    case Keep(id, expire) => KeepInv(s, id, if expire > s.items[id].expire then expire else s.items[id].expire);
    case Remove(wid, key) => RemoveInv(s, wid, key);
    case ScanBegin(now) => ScanFlagInv(s, Some(now));
    case ScanPop(slot, m) =>
      HeapIsLive(s);
      ScanPopInv(s, slot, m);
    case ScanEnd => ScanFlagInv(s, None);
    case Drain(wid) => DrainInv(s, wid);
    case DrainCall(id) =>
      DrainCallInv(s, id);
      StartInv(s.(drained := s.drained[id := true]), s.starts + multiset{id});
    case DrainFree(id) => DrainFreeInv(s, id);
    case Destroy => DestroyInv(s);
    case FreeTable => FreeTableInv(s);
  }

  lemma InvStep(s: State, a: Action)
    requires Inv(s) && Enabled(s, a)
    ensures Inv(Do(s, a))
  {
    if OfMessage(a) {
      MessageInv(s, a);
    } else {
      TableInv(s, a);
    }
  }

  lemma {:induction false} InvHolds(s: State, acts: seq<Action>)
    requires Inv(s) && Exec(s, acts).Reached?
    ensures Inv(Exec(s, acts).state)
    decreases |acts|
  {
    if acts != [] {
      InvStep(s, acts[0]);
      InvHolds(Do(s, acts[0]), acts[1..]);
    }
  }

  lemma FreshInv(s: State)
    requires Fresh(s)
    ensures Inv(s)
  {
  }

  /** A run from a new table leads to s. */
  ghost predicate Leads(s0: State, acts: seq<Action>, s: State) { Fresh(s0) && Exec(s0, acts) == Reached(s) }

  lemma LeadsInv(s0: State, acts: seq<Action>, s: State)
    requires Leads(s0, acts, s)
    ensures Inv(s)
  {
    FreshInv(s0);
    InvHolds(s0, acts);
  }

  // -------------------------------------------------------------------------
  // what every run keeps

  /** An allocated item has exactly one owner and was never freed; any other item has no owner. */
  lemma OneOwner(s0: State, acts: seq<Action>, s: State, id: nat)
    requires Leads(s0, acts, s)
    ensures Owners(s, id) == (if id in s.items then 1 else 0)
    ensures id in s.items ==> s.frees[id] == 0
  {
    LeadsInv(s0, acts, s);
    assert ItemOk(s, id);
  }

  /** The item exists, or free() has run for it exactly once. */
  predicate Tracked(s: State, id: nat) { if id in s.items then s.frees[id] == 0 else s.frees[id] == 1 }

  lemma DestroyTracks(s: State, id: nat)
    requires Inv(s) && Tracked(s, id)
    ensures Tracked(DestroyStep(s), id)
  {
    assert ItemOk(s, id);
    CountListed(s.heap, HeapOwned(s), id);
    assert id in s.heap <==> Count(s.heap, id) > 0;
  }

  lemma ScanPopTracks(s: State, slot: nat, m: nat, id: nat)
    requires Inv(s) && slot < |s.heap| && Tracked(s, id)
    ensures Tracked(ScanPopped(s, slot, m), id)
  {
    HeapIsLive(s);
  }

  lemma DrainFreeTracks(s: State, drained: nat, id: nat)
    requires Inv(s) && drained in s.drained && Tracked(s, id)
    ensures Tracked(Freed(s, drained), id)
  {
    assert ItemOk(s, drained);
  }

  lemma FreeItemTracks(s: State, m: nat, id: nat)
    requires Inv(s) && AtStage(s, m, Freeing) && Tracked(s, id)
    ensures Tracked(Freed(s, s.msgs[m].item), id)
  {
    OwnedIsLive(s, m);
  }

  /** A message's other steps free nothing. */
  lemma MessageTracks(s: State, a: Action, id: nat)
    requires OfMessage(a) && MessageEnabled(s, a) && !a.FreeItem? && Tracked(s, id)
    ensures Tracked(MessageDo(s, a), id)
  {
    var e := MessageDo(s, a);
    match a
    case Restore(_) => assert e.frees == s.frees && (id in e.items <==> id in s.items);
    case Finish(_) => assert e.frees == s.frees && (id in e.items <==> id in s.items);
    case Cancel(_) => assert e.frees == s.frees && (id in e.items <==> id in s.items);
    case Deliver(m) => assert e == s.(msgs := e.msgs);
    case Decide(m, _) => assert e.frees == s.frees && e.items == s.items;
    case Return(m, _) => assert e == s.(msgs := e.msgs);
    case Release(_) => assert e.frees == s.frees && e.items == s.items;
  }

  lemma TableTracks(s: State, a: Action, id: nat)
    requires !OfMessage(a) && TableEnabled(s, a) && !a.Destroy? && !a.ScanPop? && !a.DrainFree? && Tracked(s, id)
    ensures Tracked(TableDo(s, a), id)
  {
    assert a.Create? || TableDo(s, a).frees == s.frees;
  }

  lemma TrackedStep(s: State, a: Action, id: nat)
    requires Inv(s) && Enabled(s, a) && Tracked(s, id)
    ensures Tracked(Do(s, a), id)
  {
    if a.FreeItem? {
      FreeItemTracks(s, a.m, id);
    } else if OfMessage(a) {
      MessageTracks(s, a, id);
    } else if a.Destroy? {
      DestroyTracks(s, id);
    } else if a.ScanPop? {
      ScanPopTracks(s, a.slot, a.m, id);
    } else if a.DrainFree? {
      DrainFreeTracks(s, a.id, id);
    } else {
      TableTracks(s, a, id);
    }
  }

  lemma {:induction false} TrackedHolds(s: State, acts: seq<Action>, id: nat)
    requires Inv(s) && Exec(s, acts).Reached? && Tracked(s, id)
    ensures Tracked(Exec(s, acts).state, id)
    decreases |acts|
  {
    if acts != [] {
      TrackedStep(s, acts[0], id);
      InvStep(s, acts[0]);
      TrackedHolds(Do(s, acts[0]), acts[1..], id);
    }
  }

  /** An item that was ever allocated is still allocated and not freed, or has been freed exactly once. */
  lemma FreedExactlyOnce(s0: State, before: seq<Action>, s: State, after: seq<Action>, e: State, id: nat)
    requires Leads(s0, before, s) && id in s.items && Exec(s, after) == Reached(e)
    ensures e.frees[id] == if id in e.items then 0 else 1
  {
    LeadsInv(s0, before, s);
    assert ItemOk(s, id);
    TrackedHolds(s, after, id);
  }

  lemma LastReference(s: State)
    requires Inv(s)
    ensures s.posted == 0 <==> s.msgs == map[]
  {
    if s.msgs != map[] {
      var m :| m in s.msgs;
      TotalAtLeast(s.msgs, One, m);
    }
  }

  /** The table's memory is given up exactly once, when destroy was requested and no message is left. */
  lemma TableFreedOnceAndLast(s0: State, acts: seq<Action>, s: State)
    requires Leads(s0, acts, s)
    ensures s.teardown + s.tableFrees == (if s.destroyed && s.msgs == map[] then 1 else 0)
  {
    LeadsInv(s0, acts, s);
    LastReference(s);
  }

  /** Steps that lock, or hold, the table's mutex. */
  predicate Locks(a: Action) {
    !(a.Keep? || a.Deliver? || a.Decide? || a.Return? || a.FreeItem? || a.DrainCall? || a.DrainFree? || a.FreeTable?)
  }

  /** No step locks a table that is freed or about to be, and a released reference was counted. */
  lemma NoLockAfterFree(s0: State, acts: seq<Action>, s: State, a: Action)
    requires Leads(s0, acts, s) && Enabled(s, a) && Locks(a)
    ensures s.teardown == 0 && s.tableFrees == 0
    ensures a.Release? ==> s.posted > 0
  {
    LeadsInv(s0, acts, s);
    if s.destroyed {
      TotalAtLeast(s.msgs, One, a.m);
    } else if a.Release? {
      TotalAtLeast(s.msgs, One, a.m);
    }
  }

  lemma NothingLeft(s: State, id: nat)
    requires Inv(s) && s.tableFrees == 1 && s.drained == map[]
    ensures id !in s.items
  {
    LastReference(s);
    assert ItemOk(s, id);
  }

  /** Once the table is gone and the drains are through, every item ever created has been freed once. */
  lemma NoItemLeaks(s0: State, before: seq<Action>, s: State, after: seq<Action>, e: State, id: nat)
    requires Leads(s0, before, s) && id in s.items && Exec(s, after) == Reached(e)
    requires e.tableFrees == 1 && e.drained == map[]
    ensures e.frees[id] == 1
  {
    FreedExactlyOnce(s0, before, s, after, e, id);
    LeadsInv(s0, before, s);
    InvHolds(s, after);
    NothingLeft(e, id);
  }

  /** A message that may still hand its item back has a heap slot waiting for it. */
  lemma RestoreNeedsNoAllocation(s0: State, acts: seq<Action>, s: State, m: nat)
    requires Leads(s0, acts, s) && m in s.msgs && Owning(s.msgs[m].stage)
    ensures |s.heap| < s.capacity <= MAX_ENTRIES
  {
    LeadsInv(s0, acts, s);
    TotalAtLeast(s.msgs, OwningCount, m);
  }

  /** While the table is in use, the map holds exactly the active items, each under its own key. */
  lemma MapHoldsActiveItems(s0: State, acts: seq<Action>, s: State)
    requires Leads(s0, acts, s) && !s.destroyed
    ensures forall id :: id in s.items ==> (!s.items[id].removed <==> Maps(s, id))
    ensures forall k :: k in s.index ==> s.index[k] in s.items && s.items[s.index[k]].key == k
  {
    LeadsInv(s0, acts, s);
    forall id | id in s.items ensures !s.items[id].removed <==> Maps(s, id) {
      assert ItemOk(s, id);
    }
  }

  /** The steps that may take item id out of the map: its own removal, drain, settlement, or destroy. */
  predicate Concerns(s: State, a: Action, id: nat)
    requires id in s.items
  {
    match a
    case Remove(wid, key) => key == s.items[id].key && wid == s.items[id].wid
    case Drain(wid) => wid == s.items[id].wid
    case Finish(m) => m in s.msgs && s.msgs[m].item == id
    case Destroy => true
    case _ => false
  }

  /** The item is mapped under its key and active. */
  predicate Registered(s: State, id: nat) { Maps(s, id) && !s.items[id].removed }

  /** The entry and the item as the next state shows them. */
  predicate EntryKept(s: State, e: State, id: nat) {
    && id in s.items && Registered(e, id) && !e.destroyed
    && e.items[id].key == s.items[id].key && e.items[id].wid == s.items[id].wid
  }

  /** A message settles or frees only its own item, and frees only a removed one. */
  lemma MessageSpares(s: State, a: Action, id: nat)
    requires OfMessage(a) && MessageEnabled(s, a) && !s.destroyed && Registered(s, id) && !Concerns(s, a, id)
    requires a.FreeItem? ==> s.msgs[a.m].item != id
    ensures EntryKept(s, MessageDo(s, a), id)
  {
  }

  /** So do the operations of the table's users and of the timer. */
  lemma TableSpares(s: State, a: Action, id: nat)
    requires !OfMessage(a) && TableEnabled(s, a) && !s.destroyed && Registered(s, id) && !Concerns(s, a, id)
    requires a.DrainFree? ==> a.id != id
    requires a.Remove? && a.key in s.index ==> s.index[a.key] in s.items && s.items[s.index[a.key]].key == a.key
    ensures EntryKept(s, TableDo(s, a), id)
  {
  }

  /** A step that does not concern the item leaves entry and item alone, whatever it does to older ones. */
  lemma EntryStays(s: State, a: Action, id: nat)
    requires Inv(s) && !s.destroyed && Enabled(s, a) && Registered(s, id) && !Concerns(s, a, id)
    ensures EntryKept(s, Do(s, a), id)
  {
    assert ItemOk(s, id);
    if OfMessage(a) {
      if a.FreeItem? {
        OwnedIsLive(s, a.m);
        assert MsgOk(s, a.m);
      }
      MessageSpares(s, a, id);
    } else {
      TableSpares(s, a, id);
    }
  }

  /** A run none of whose steps concerns the item. */
  predicate Undisturbed(s: State, acts: seq<Action>, id: nat)
    decreases |acts|
  {
    acts == [] ||
    (Enabled(s, acts[0]) && id in s.items && !Concerns(s, acts[0], id) && Undisturbed(Do(s, acts[0]), acts[1..], id))
  }

  lemma {:induction false} EntryStaysThrough(s: State, acts: seq<Action>, id: nat)
    requires Inv(s) && !s.destroyed && Registered(s, id) && Undisturbed(s, acts, id)
    ensures Exec(s, acts).Reached? && Registered(Exec(s, acts).state, id)
    decreases |acts|
  {
    if acts != [] {
      EntryStays(s, acts[0], id);
      InvStep(s, acts[0]);
      EntryStaysThrough(Do(s, acts[0]), acts[1..], id);
    }
  }

  /**
   An item keeps its map entry and stays active through every continuation that does not remove,
   drain or settle this very item: an older item under the same key, however it leaves, never takes
   the entry along.
   */
  lemma OnlyOwnEntryErased(s0: State, before: seq<Action>, s: State, after: seq<Action>, id: nat)
    requires Leads(s0, before, s) && !s.destroyed && id in s.items && !s.items[id].removed && Undisturbed(s, after, id)
    ensures Exec(s, after).Reached? && Registered(Exec(s, after).state, id)
  {
    LeadsInv(s0, before, s);
    assert ItemOk(s, id);
    EntryStaysThrough(s, after, id);
  }

  // -------------------------------------------------------------------------
  // no step reads freed memory

  /** The items a step looks into or writes to. */
  function Touched(s: State, a: Action): set<nat>
    requires Enabled(s, a)
  {
    match a
    case Remove(_, key) => if key in s.index then {s.index[key]} else {}
    case ScanPop(slot, _) => {s.heap[slot]}
    case Deliver(m) => {s.msgs[m].item}
    case Decide(m, _) => {s.msgs[m].item}
    case Restore(m) => {s.msgs[m].item}
    case Return(m, _) => {s.msgs[m].item}
    case Finish(m) => {s.msgs[m].item}
    case Cancel(m) => {s.msgs[m].item}
    case FreeItem(m) => {s.msgs[m].item}
    case Drain(_) => s.index.Values + (set id | id in s.heap)
    case Destroy => s.index.Values + (set id | id in s.heap)
    case DrainCall(id) => {id}
    case DrainFree(id) => {id}
    case Keep(id, _) => {id}
    case _ => {}
  }

  lemma IndexIsLive(s: State)
    requires Inv(s) && !s.destroyed
    ensures forall id :: id in s.index.Values ==> id in s.items
  {
  }

  /** In every run, every item a step touches is allocated. */
  lemma NoUseAfterFree(s0: State, acts: seq<Action>, s: State, a: Action)
    requires Leads(s0, acts, s) && Enabled(s, a)
    ensures Touched(s, a) <= s.items.Keys
  {
    LeadsInv(s0, acts, s);
    HeapIsLive(s);
    match a
    case Remove(_, _) => IndexIsLive(s);
    case Drain(_) => IndexIsLive(s);
    case Destroy => IndexIsLive(s);
    case Deliver(m) => OwnedIsLive(s, m);
    case Decide(m, _) => OwnedIsLive(s, m);
    case Restore(m) => OwnedIsLive(s, m);
    case Return(m, _) => OwnedIsLive(s, m);
    case Finish(m) => OwnedIsLive(s, m);
    case Cancel(m) => OwnedIsLive(s, m);
    case FreeItem(m) => OwnedIsLive(s, m);
    case DrainCall(id) => assert ItemOk(s, id);
    case DrainFree(id) => assert ItemOk(s, id);
    case _ =>
  }

  // -------------------------------------------------------------------------
  // removal is final

  lemma MessageStarts(s: State, a: Action, id: nat)
    requires OfMessage(a) && MessageEnabled(s, a) && (a.Decide? ==> s.msgs[a.m].item != id)
    ensures MessageDo(s, a).removals == s.removals && MessageDo(s, a).starts[id] == s.starts[id]
  {
    var e := MessageDo(s, a);
    match a
    case Restore(_) => assert e.starts == s.starts;
    case Finish(_) => assert e.starts == s.starts;
    case Cancel(_) => assert e.starts == s.starts;
    case _ => assert a.Decide? || e.starts == s.starts;
  }

  lemma TableStarts(s: State, a: Action, id: nat)
    requires !OfMessage(a) && TableEnabled(s, a) && (a.DrainCall? ==> a.id != id)
    ensures s.removals <= TableDo(s, a).removals && TableDo(s, a).starts[id] == s.starts[id]
  {
  }

  lemma RemovedStep(s: State, a: Action, id: nat)
    requires Inv(s) && Enabled(s, a) && id in s.removals
    ensures id in Do(s, a).removals && Do(s, a).starts[id] == s.starts[id]
  {
    assert ItemOk(s, id);
    if OfMessage(a) {
      assert MsgOk(s, a.m);
      MessageStarts(s, a, id);
    } else {
      TableStarts(s, a, id);
    }
  }

  lemma {:induction false} RemovedStays(s: State, acts: seq<Action>, id: nat)
    requires Inv(s) && Exec(s, acts).Reached? && id in s.removals
    ensures Exec(s, acts).state.starts[id] == s.starts[id]
    decreases |acts|
  {
    if acts != [] {
      RemovedStep(s, acts[0], id);
      InvStep(s, acts[0]);
      RemovedStays(Do(s, acts[0]), acts[1..], id);
    }
  }

  /** Removal by hash finds the key, and the item there belongs to the calling worker. */
  predicate Removable(s: State, wid: nat, key: nat) {
    key in s.index && s.index[key] in s.items && s.items[s.index[key]].wid == wid
  }

  /**
   Once removal by hash has returned true for an item, its callback never starts again in any
   continuation, even with its expiration message already in the queue.
   */
  lemma RemovalSuppressesCallback(s0: State, before: seq<Action>, s: State, wid: nat, key: nat, after: seq<Action>)
    requires Leads(s0, before, s) && Enabled(s, Remove(wid, key)) && Removable(s, wid, key)
    requires Exec(Do(s, Remove(wid, key)), after).Reached?
    ensures Exec(Do(s, Remove(wid, key)), after).state.starts[s.index[key]] == s.starts[s.index[key]]
  {
    LeadsInv(s0, before, s);
    InvStep(s, Remove(wid, key));
    RemovedStays(Do(s, Remove(wid, key)), after, s.index[key]);
  }
}
