/**
 The critical sections of ww/base/widle_table.c over a table updated in place, with their loops. Each
 one advances the ghost protocol state by exactly its steps of SharedIdleTable, so every fact about
 runs of the protocol holds of the fields here. Item records are kept by address in `items`.
 */
module SharedIdleTableImpl {
  import opened Collections
  import opened SharedIdleTable
  import opened Totals

  /** A run extended by one step. */
  lemma {:induction false} ExecAppend(s: State, acts: seq<Action>, mid: State, a: Action)
    requires Exec(s, acts) == Reached(mid) && Enabled(mid, a)
    ensures Exec(s, acts + [a]) == Reached(Do(mid, a))
    decreases |acts|
  {
    if acts == [] {
      assert acts + [a] == [a];
      assert [a][1..] == [];
    } else {
      ExecAppend(Do(s, acts[0]), acts[1..], mid, a);
      assert (acts + [a])[1..] == acts[1..] + [a];
    }
  }

  /** A name no message has yet. */
  lemma {:induction false} UnusedName(used: set<nat>) returns (n: nat)
    ensures forall k :: k in used ==> k < n
    decreases |used|
  {
    if used == {} {
      n := 0;
    } else {
      var k :| k in used;
      var below := UnusedName(used - {k});
      n := if below > k then below else k + 1;
      forall x | x in used ensures x < n {
        assert x == k || x in used - {k};
      }
    }
  }

  /** The records left after freeing the listed ones that no message owns. */
  function UnownedFreed(items: map<nat, Item>, freed: seq<nat>): map<nat, Item> {
    map id | id in items && !(id in freed && !items[id].pending) :: items[id]
  }

  lemma UnownedFreedLast(items: map<nat, Item>, freed: seq<nat>, id: nat)
    requires id in items
    ensures UnownedFreed(items, freed + [id])
      == if items[id].pending then UnownedFreed(items, freed) else UnownedFreed(items, freed) - {id}
  {
  }

  /** An entry that comes up for the first time has not been freed. */
  lemma NextIsLeft(items: map<nat, Item>, entries: seq<nat>, n: nat)
    requires n < |entries| && entries[n] in items && forall i, j :: 0 <= i < j < |entries| ==> entries[i] != entries[j]
    ensures entries[n] in UnownedFreed(items, entries[..n])
  {
  }

  /** Freeing the heap after orphaning the pending items leaves what the protocol's destroy leaves. */
  lemma DestroyedItems(s: State)
    ensures DestroyStep(s).items == UnownedFreed(map id | id in s.items :: OrphanedItem(s, id), s.heap)
  {
  }

  lemma Shift(front: seq<nat>, back: seq<nat>)
    requires back != []
    ensures front + back == (front + [back[0]]) + back[1..]
  {
  }

  lemma {:induction false} ListedLast(xs: seq<nat>, x: nat, gone: set<nat>)
    ensures Listed(xs + [x], gone) == Listed(xs, gone) + (if x in gone then [x] else [])
    decreases |xs|
  {
    if xs != [] {
      ListedLast(xs[1..], x, gone);
      assert (xs + [x])[1..] == xs[1..] + [x];
    }
  }

  lemma ListedCount(xs: seq<nat>, x: nat, gone: set<nat>)
    ensures multiset(Listed(xs + [x], gone))
      == if x in gone then multiset(Listed(xs, gone)) + multiset{x} else multiset(Listed(xs, gone))
  {
    ListedLast(xs, x, gone);
  }

  /** No entry is in the heap twice. */
  lemma HeapOnce(s: State)
    requires Inv(s)
    ensures forall i, j :: 0 <= i < j < |s.heap| ==> s.heap[i] != s.heap[j]
  {
    forall i, j | 0 <= i < j < |s.heap| ensures s.heap[i] != s.heap[j] {
      assert ItemOk(s, s.heap[j]);
      CountWithout(s.heap, i, s.heap[j]);
      assert s.heap[j] == Without(s.heap, i)[j - 1];
    }
  }

  lemma KeptFirst(kept: seq<nat>, rest: seq<nat>, gone: set<nat>)
    requires rest != []
    ensures kept + Kept(rest, gone) == (if rest[0] in gone then kept else kept + [rest[0]]) + Kept(rest[1..], gone)
  {
  }

  class Table {
    var items: map<nat, Item>
    var heap: seq<nat>
    var capacity: nat
    var index: map<nat, nat>
    var posted: nat
    var destroyRequested: bool
    ghost var freed: multiset<nat> // every free() of an item record
    ghost var state: State

    /** The fields are those of a protocol state that keeps the invariant of every run. */
    ghost predicate Valid()
      reads this
    {
      && Inv(state) && freed == state.frees
      && items == state.items && heap == state.heap && capacity == state.capacity
      && index == state.index && posted == state.posted && destroyRequested == state.destroyed
    }

    constructor ()
      ensures Valid() && Fresh(state)
    {
      items, heap, capacity, index, posted, destroyRequested := map[], [], INITIAL_CAPACITY, map[], 0, false;
      freed := multiset{};
      state := State(
        map[], multiset{}, [], INITIAL_CAPACITY, map[], 0, map[], map[], None, false, 0, 0, multiset{}, {});
      new;
      FreshInv(state);
    }

    ghost method Step(a: Action)
      requires Inv(state) && Enabled(state, a)
      modifies this`state
      ensures state == Do(old(state), a) && Inv(state)
    {
      InvStep(state, a);
      state := Do(state, a);
    }

    /** idleItemFree */
    method FreeRecord(id: nat)
      requires id in items
      modifies this`items, this`freed
      ensures items == old(items) - {id} && freed == old(freed) + multiset{id}
    {
      items := items - {id};
      freed := freed + multiset{id};
    }

    ghost method StepCreate(a: Action)
      requires Inv(state) && Enabled(state, a) && a.Create?
      modifies this`state
      ensures state == Do(old(state), a) && Inv(state)
      ensures state == Created(old(state), a) && a.id !in old(state).items
    {
      Step(a);
    }

    /** idletableCreateItem on the fields: a refusal frees the new record again. */
    method AddRecord(id: nat, record: Item, hashFits: bool) returns (created: bool)
      requires id !in items
      modifies this`items, this`index, this`heap, this`capacity, this`freed
      ensures created <==> CanAddEntry(|old(heap)|, posted) && hashFits && record.key !in old(index)
      ensures !created ==>
        && items == old(items) && index == old(index) && heap == old(heap) && capacity == old(capacity)
        && freed == old(freed) + multiset{id}
      ensures created ==>
        && items == old(items)[id := record] && index == old(index)[record.key := id] && heap == old(heap) + [id]
        && capacity == Grown(old(capacity), |old(heap)|, posted) && freed == old(freed)
    {
      items := items[id := record];
      if !CanAddEntry(|heap|, posted) || !hashFits || record.key in index {
        FreeRecord(id);
        return false;
      }
      index := index[record.key := id];
      var required := |heap| + posted + 1;
      if required > capacity {
        var grown := if capacity + capacity / 2 + 4 <= MAX_ENTRIES then capacity + capacity / 2 + 4 else MAX_ENTRIES;
        if grown < required {
          grown := required;
        }
        capacity := grown;
      }
      heap := heap + [id];
      created := true;
    }

    method CreateItem(id: nat, key: nat, wid: nat, expire: nat, hashFits: bool) returns (created: bool)
      requires Valid() && Enabled(state, Create(id, key, wid, expire, hashFits))
      modifies this
      ensures Valid() && state == Do(old(state), Create(id, key, wid, expire, hashFits))
      ensures created <==> |old(heap)| + old(posted) < MAX_ENTRIES && hashFits && key !in old(index)
      ensures created ==> id in items && id in heap && key in index && index[key] == id
      ensures !created ==> id !in items && freed[id] == 1
    {
      assert id !in freed;
      created := AddRecord(id, Item(key, wid, expire, false, false, true), hashFits);
      StepCreate(Create(id, key, wid, expire, hashFits));
    }

    method KeepForAtLeast(id: nat, expire: nat)
      requires Valid() && Enabled(state, Keep(id, expire))
      modifies this
      ensures Valid() && state == Do(old(state), Keep(id, expire))
    {
      Step(Keep(id, expire));
      var current := items[id].expire;
      items := items[id := items[id].(expire := if current < expire then expire else current)];
    }

    /** idletableEraseItemFromMapLocked */
    method EraseFromMap(id: nat)
      requires id in items
      modifies this`items, this`index
      ensures items == old(items)[id := old(items)[id].(removed := true)]
      ensures var key := old(items)[id].key;
        index == if key in old(index) && old(index)[key] == id then old(index) - {key} else old(index)
    {
      var key := items[id].key;
      if key in index && index[key] == id {
        index := index - {key};
      }
      items := items[id := items[id].(removed := true)];
    }

    method RemoveByHash(wid: nat, key: nat) returns (found: bool)
      requires Valid() && Enabled(state, Remove(wid, key))
      modifies this
      ensures Valid() && state == Do(old(state), Remove(wid, key))
      ensures found <==> Removable(old(state), wid, key)
      ensures found ==> old(state).index[key] in state.removals
    {
      Step(Remove(wid, key));
      if key !in index {
        return false;
      }
      var id := index[key];
      if id !in items || items[id].wid != wid {
        return false;
      }
      EraseFromMap(id);
      if items[id].pending {
        items := items[id := items[id].(attached := false)];
      }
      found := true;
    }

    /** An owning message's item is allocated, and a heap slot is reserved for it. */
    lemma SlotReserved(m: nat)
      requires Valid() && m in state.msgs && Owning(state.msgs[m].stage)
      ensures state.msgs[m].item in items && |heap| < capacity
    {
      OwnedIsLive(state, m);
      TotalAtLeast(state.msgs, OwningCount, m);
    }

    /** idletableRestoreItemToHeapLocked; a full heap aborts there, so it is excluded here. */
    method HandBack(id: nat)
      requires id in items && |heap| < capacity
      modifies this`items, this`heap
      ensures items == old(items)[id := old(items)[id].(pending := false)]
      ensures heap == old(heap) + [id]
    {
      items := items[id := items[id].(pending := false)];
      heap := heap + [id];
    }

    /** The callback of message m hands back an item whose deadline has moved on. */
    method RestoreExtended(ghost m: nat, id: nat) returns (shouldFree: bool)
      requires Valid() && Enabled(state, Restore(m)) && id == state.msgs[m].item
      modifies this
      ensures Valid() && state == Do(old(state), Restore(m))
      ensures shouldFree <==> state.msgs[m].stage == Freeing
    {
      SlotReserved(m);
      Step(Restore(m));
      shouldFree := items[id].removed || !items[id].attached;
      if !shouldFree {
        HandBack(id);
      }
    }

    /** The callback of message m looks at the deadline, and remembers it if the user's callback is to run. */
    method CompareDeadline(ghost m: nat, id: nat, now: nat) returns (due: bool, oldExpire: nat)
      requires Valid() && Enabled(state, Decide(m, now)) && id == state.msgs[m].item
      modifies this`state
      ensures Valid() && state == Do(old(state), Decide(m, now))
      ensures id in items && (due <==> items[id].expire <= now) && oldExpire == items[id].expire
      ensures if due then state.msgs[m].stage == CallingBack(oldExpire) else state.msgs[m].stage == Early
    {
      OwnedIsLive(state, m);
      Step(Decide(m, now));
      due, oldExpire := items[id].expire <= now, items[id].expire;
    }

    /** After the user's callback: has it moved the deadline past the clock? */
    method CompareAgain(ghost m: nat, id: nat, oldExpire: nat, now: nat) returns (keepAlive: bool)
      requires Valid() && Enabled(state, Return(m, now)) && id == state.msgs[m].item
      requires state.msgs[m].stage == CallingBack(oldExpire)
      modifies this`state
      ensures Valid() && state == Do(old(state), Return(m, now)) && state.msgs[m].stage == Finishing(keepAlive)
      ensures id in items && (keepAlive <==> items[id].expire != oldExpire && items[id].expire > now)
    {
      OwnedIsLive(state, m);
      Step(Return(m, now));
      keepAlive := oldExpire != items[id].expire && items[id].expire > now;
    }

    /** The last section of the callback of message m, after the user's callback. */
    method SettleExpired(ghost m: nat, id: nat, keepAlive: bool) returns (shouldFree: bool)
      requires Valid() && Enabled(state, Finish(m)) && id == state.msgs[m].item && state.msgs[m].stage.keep == keepAlive
      modifies this
      ensures Valid() && state == Do(old(state), Finish(m))
      ensures shouldFree <==> state.msgs[m].stage == Freeing
    {
      SlotReserved(m);
      Step(Finish(m));
      var removed := items[id].removed || !items[id].attached;
      if !removed && keepAlive {
        HandBack(id);
        shouldFree := false;
      } else {
        if !removed {
          EraseFromMap(id);
        }
        shouldFree := true;
      }
    }

    /** idlePostedCloseMessageCleanup's section. */
    method SettleCancelled(ghost m: nat, id: nat) returns (shouldFree: bool)
      requires Valid() && Enabled(state, Cancel(m)) && id == state.msgs[m].item
      modifies this
      ensures Valid() && state == Do(old(state), Cancel(m))
      ensures shouldFree <==> state.msgs[m].stage == Freeing
    {
      SlotReserved(m);
      Step(Cancel(m));
      var key := items[id].key;
      shouldFree := destroyRequested || items[id].removed || !items[id].attached || key !in index || index[key] != id;
      if !shouldFree {
        HandBack(id);
      }
    }

    method FreeMessageItem(ghost m: nat, id: nat)
      requires Valid() && Enabled(state, FreeItem(m)) && id == state.msgs[m].item
      modifies this
      ensures Valid() && state == Do(old(state), FreeItem(m))
    {
      SlotReserved(m);
      Step(FreeItem(m));
      FreeRecord(id);
    }

    lemma ReferenceCounted(m: nat)
      requires Valid() && m in state.msgs
      ensures state.posted > 0 && state.teardown == 0
    {
      TotalAtLeast(state.msgs, One, m);
    }

    /** Dropping a message's reference; the counter is positive, and true means: free the table now. */
    method ReleaseMessageRef(ghost m: nat) returns (destroyNow: bool)
      requires Valid() && Enabled(state, Release(m))
      modifies this
      ensures Valid() && state == Do(old(state), Release(m))
      ensures old(posted) > 0 && posted == old(posted) - 1
      ensures destroyNow <==> state.teardown == 1
    {
      ReferenceCounted(m);
      Step(Release(m));
      posted := posted - 1;
      destroyNow := posted == 0 && destroyRequested;
    }

    // -----------------------------------------------------------------------
    // the timer scan

    /** A slot with a least deadline: the top of the freshly built heap. */
    method Top() returns (slot: nat)
      requires |heap| > 0 && forall id :: id in heap ==> id in items
      ensures slot < |heap|
      ensures forall i :: 0 <= i < |heap| ==> items[heap[slot]].expire <= items[heap[i]].expire
    {
      slot := 0;
      for i := 1 to |heap|
        invariant slot < |heap|
        invariant forall k :: 0 <= k < i ==> items[heap[slot]].expire <= items[heap[k]].expire
      {
        if items[heap[i]].expire < items[heap[slot]].expire {
          slot := i;
        }
      }
    }

    /** An entry is in the heap only once. */
    lemma OnlyOnce(slot: nat)
      requires Valid() && slot < |heap|
      ensures forall x :: x in Without(heap, slot) <==> x in heap && x != heap[slot]
    {
      forall x ensures x in Without(heap, slot) <==> x in heap && x != heap[slot] {
        if x >= 0 {
          assert ItemOk(state, x);
          CountWithout(heap, slot, x);
          assert x in heap <==> Count(heap, x) > 0;
          assert x in Without(heap, slot) <==> Count(Without(heap, slot), x) > 0;
        }
      }
    }

    lemma HeapLive()
      requires Valid()
      ensures forall id :: id in heap ==> id in items
      ensures forall i, j :: 0 <= i < j < |heap| ==> heap[i] != heap[j]
    {
      HeapIsLive(state);
      HeapOnce(state);
    }

    lemma IndexLive()
      requires Valid() && !destroyRequested
      ensures forall k :: k in index ==> index[k] in items && items[index[k]].key == k
    {
    }

    /** Takes one entry out: freed when removed, otherwise handed to a message. */
    method PopEntry(slot: nat) returns (expired: seq<nat>)
      requires slot < |heap| && heap[slot] in items
      modifies this`items, this`heap, this`posted, this`freed
      ensures var id := old(heap)[slot];
        && heap == Without(old(heap), slot)
        && (if old(items)[id].removed
            then expired == [] && items == old(items) - {id} && freed == old(freed) + multiset{id}
            else expired == [id] && items == old(items)[id := old(items)[id].(pending := true)] && freed == old(freed))
      ensures posted == old(posted) + |expired|
    {
      var id := heap[slot];
      heap := Without(heap, slot);
      if items[id].removed {
        FreeRecord(id);
        expired := [];
      } else {
        items := items[id := items[id].(pending := true)];
        posted := posted + 1;
        expired := [id];
      }
    }

    /** One round of the scan on a due entry. */
    method PopDue(slot: nat, now: nat) returns (expired: seq<nat>, ghost m: nat)
      requires Valid() && state.scanning == Some(now) && slot < |heap|
      requires heap[slot] in items && items[heap[slot]].expire <= now
      modifies this
      ensures Enabled(old(state), ScanPop(slot, m))
      ensures Valid() && state == Do(old(state), ScanPop(slot, m)) && state.scanning == Some(now)
      ensures expired == if old(items)[old(heap)[slot]].removed then [] else [old(heap)[slot]]
      ensures posted == old(posted) + |expired|
      ensures forall x :: x in heap ==> x in old(heap) && x in items && items[x] == old(items)[x]
      ensures forall x :: x in old(heap) && x != old(heap)[slot] ==> x in heap
    {
      OnlyOnce(slot);
      HeapLive();
      m := UnusedName(state.msgs.Keys);
      expired := PopEntry(slot);
      StepPop(slot, m);
    }

    ghost method StepPop(slot: nat, m: nat)
      requires Inv(state) && Enabled(state, ScanPop(slot, m))
      modifies this`state
      ensures state == Do(old(state), ScanPop(slot, m)) && Inv(state)
      ensures state == ScanPopped(old(state), slot, m) && state.scanning == old(state).scanning
    {
      Step(ScanPop(slot, m));
    }

    /** Pops due entries until the top is not due; `expired` is the posting order. */
    method ScanRounds(now: nat) returns (expired: seq<nat>, ghost pops: seq<Action>)
      requires Valid() && state.scanning == Some(now)
      modifies this
      ensures Valid() && state.scanning == Some(now) && Exec(old(state), pops) == Reached(state)
      ensures posted == old(posted) + |expired| && forall a :: a in pops ==> a.ScanPop?
      ensures forall id :: id in heap ==>
        id in old(heap) && id in items && id in old(items) && items[id] == old(items)[id] && items[id].expire > now
      ensures forall id :: id in old(heap) && id in old(items) && old(items)[id].expire > now ==> id in heap
      ensures forall id :: id in expired <==>
        id in old(heap) && id in old(items) && old(items)[id].expire <= now && !old(items)[id].removed
    {
      expired, pops := [], [];
      HeapLive();
      ghost var heap0, items0 := heap, items;
      while |heap| > 0
        invariant Valid() && state.scanning == Some(now) && Exec(old(state), pops) == Reached(state)
        invariant posted == old(posted) + |expired| && forall a :: a in pops ==> a.ScanPop?
        invariant StillThere(heap0, items0)
        invariant Popped(heap0, items0, expired, now)
        decreases |heap|
      {
        var slot := Top();
        if items[heap[slot]].expire > now {
          break;
        }
        ghost var before := state;
        ghost var m;
        var due;
        due, m := PopDue(slot, now);
        ExecAppend(old(state), pops, before, ScanPop(slot, m));
        expired, pops := expired + due, pops + [ScanPop(slot, m)];
      }
    }

    /** What is left of the heap is as it was. */
    ghost predicate StillThere(heap0: seq<nat>, items0: map<nat, Item>)
      reads this
    {
      forall id :: id in heap ==> id in heap0 && id in items && id in items0 && items[id] == items0[id]
    }

    /** What has left the heap was due, and exactly the active ones of it are listed. */
    ghost predicate Popped(heap0: seq<nat>, items0: map<nat, Item>, expired: seq<nat>, now: nat)
      reads this
    {
      && (forall id :: id in heap0 && id in items0 && id !in heap ==> items0[id].expire <= now)
      && (forall id :: id in heap0 && id in items0 && id !in heap && !items0[id].removed ==> id in expired)
      && (forall id :: id in expired ==> id in heap0 && id in items0 && items0[id].expire <= now && !items0[id].removed)
    }

    /** idleCallBack: the whole scan under the mutex. */
    method Scan(now: nat) returns (expired: seq<nat>, ghost pops: seq<Action>)
      requires Valid() && Enabled(state, ScanBegin(now))
      modifies this
      ensures Valid() && LockFree(state)
      ensures Exec(Do(old(state), ScanBegin(now)), pops + [ScanEnd]) == Reached(state)
      ensures posted == old(posted) + |expired| && forall a :: a in pops ==> a.ScanPop?
      ensures forall id :: id in heap ==>
        id in old(heap) && id in items && id in old(items) && items[id] == old(items)[id] && items[id].expire > now
      ensures forall id :: id in old(heap) && id in old(items) && old(items)[id].expire > now ==> id in heap
      ensures forall id :: id in expired <==>
        id in old(heap) && id in old(items) && old(items)[id].expire <= now && !old(items)[id].removed
    {
      Step(ScanBegin(now));
      ghost var begun := state;
      expired, pops := ScanRounds(now);
      ExecAppend(begun, pops, state, ScanEnd);
      Step(ScanEnd);
    }

    // -----------------------------------------------------------------------
    // drain and destroy

    /** The active items of one worker, in the order the map is walked. */
    method CollectOwned(wid: nat) returns (list: seq<nat>)
      requires Valid() && !destroyRequested
      ensures forall id :: id in list <==> id in DrainList(state, wid)
      ensures forall i, j :: 0 <= i < j < |list| ==> list[i] != list[j]
    {
      IndexLive();
      list := [];
      var left := index.Keys;
      while left != {}
        invariant left <= index.Keys
        invariant forall id :: id in list <==> id in DrainList(state, wid) && items[id].key !in left
        invariant forall i, j :: 0 <= i < j < |list| ==> list[i] != list[j]
        decreases |left|
      {
        var key :| key in left;
        var id := index[key];
        assert id in items && items[id].key == key;
        if !items[id].removed && items[id].wid == wid {
          list := list + [id];
        }
        left := left - {key};
      }
    }

    /** The fields once the items in `done` are erased from the map. */
    ghost predicate ErasedSoFar(items0: map<nat, Item>, index0: map<nat, nat>, done: set<nat>)
      reads this
    {
      && items == (map id | id in items0 :: if id in done then DrainedItem(items0[id]) else items0[id])
      && index == (map k | k in index0 && index0[k] !in done :: index0[k])
    }

    method EraseOne(id: nat, ghost items0: map<nat, Item>, ghost index0: map<nat, nat>, ghost done: set<nat>)
      requires ErasedSoFar(items0, index0, done)
      requires id in items0 && id !in done && items0[id].key in index0 && index0[items0[id].key] == id
      requires forall k :: k in index0 ==> index0[k] in items0 && items0[index0[k]].key == k
      modifies this`items, this`index
      ensures ErasedSoFar(items0, index0, done + {id})
    {
      EraseFromMap(id);
      if items[id].pending {
        items := items[id := items[id].(attached := false)];
      }
    }

    /** Erases the listed items from the map, detaching those a message owns. */
    method EraseListed(list: seq<nat>, ghost gone: set<nat>)
      requires forall id :: id in list <==> id in gone
      requires forall i, j :: 0 <= i < j < |list| ==> list[i] != list[j]
      requires forall id :: id in list ==> id in items && items[id].key in index && index[items[id].key] == id
      requires forall k :: k in index ==> index[k] in items && items[index[k]].key == k
      modifies this`items, this`index
      ensures ErasedSoFar(old(items), old(index), gone)
    {
      ghost var items0, index0 := items, index;
      ghost var done: set<nat> := {};
      for i := 0 to |list|
        invariant done == set k | 0 <= k < i :: list[k]
        invariant ErasedSoFar(items0, index0, done)
      {
        EraseOne(list[i], items0, index0, done);
        done := done + {list[i]};
      }
      assert done == gone;
    }

    /** idleItemIsInDrainList */
    method IsInDrainList(id: nat, list: seq<nat>) returns (found: bool)
      ensures found <==> id in list
    {
      for i := 0 to |list|
        invariant id !in list[..i]
      {
        if list[i] == id {
          return true;
        }
      }
      assert list[..|list|] == list;
      return false;
    }

    /** Moves every entry that is not listed into a new heap of the same capacity. */
    method RebuildHeap(list: seq<nat>, ghost gone: set<nat>)
      requires forall id :: id in list <==> id in gone
      modifies this`heap
      ensures heap == Kept(old(heap), gone)
    {
      var kept: seq<nat>, rest := [], heap;
      while rest != []
        invariant kept + Kept(rest, gone) == Kept(old(heap), gone)
        decreases |rest|
      {
        var listed := IsInDrainList(rest[0], list);
        KeptFirst(kept, rest, gone);
        if !listed {
          kept := kept + [rest[0]];
        }
        rest := rest[1..];
      }
      assert kept + Kept(rest, gone) == kept;
      heap := kept;
    }

    ghost method StepDrain(wid: nat)
      requires Inv(state) && Enabled(state, Drain(wid))
      modifies this`state
      ensures state == Do(old(state), Drain(wid)) && Inv(state)
      ensures state == DrainStep(old(state), wid)
    {
      Step(Drain(wid));
    }

    /** What a drain does to the table: lists the worker's items and takes them out of map and heap. */
    method TakeOut(wid: nat) returns (list: seq<nat>)
      requires Valid() && !destroyRequested
      modifies this`items, this`index, this`heap
      ensures ErasedSoFar(state.items, state.index, DrainList(state, wid))
      ensures heap == Kept(state.heap, DrainList(state, wid))
      ensures forall id :: id in list <==> id in DrainList(state, wid)
      ensures forall i, j :: 0 <= i < j < |list| ==> list[i] != list[j]
    {
      IndexLive();
      list := CollectOwned(wid);
      ghost var gone := DrainList(state, wid);
      EraseListed(list, gone);
      RebuildHeap(list, gone);
    }

    /** Until destroy, an item that is not removed is mapped. */
    lemma ActiveIsMapped()
      requires Valid() && !destroyRequested
      ensures forall id :: id in items && !items[id].removed ==> Maps(state, id)
    {
      forall id | id in items && !items[id].removed ensures Maps(state, id) {
        assert ItemOk(state, id);
      }
    }

    /** The locked part of idletableDrainWorkerItems; it lists the items taken out of the table. */
    method DrainSection(wid: nat) returns (list: seq<nat>)
      requires Valid() && Enabled(state, Drain(wid))
      modifies this
      ensures Valid() && state == Do(old(state), Drain(wid))
      ensures forall id :: id in list <==> id in old(items) && !old(items)[id].removed && old(items)[id].wid == wid
      ensures forall i, j :: 0 <= i < j < |list| ==> list[i] != list[j]
    {
      ActiveIsMapped();
      list := TakeOut(wid);
      StepDrain(wid);
    }

    /** What idletableDrainWorkerItems does with one item it owns, after the section. */
    method ExpireDrained(id: nat)
      requires Valid() && id in state.drained && !state.drained[id]
      modifies this
      ensures Valid() && Enabled(old(state), DrainCall(id))
      ensures var called := Do(old(state), DrainCall(id));
        Enabled(called, DrainFree(id)) && state == Do(called, DrainFree(id))
      ensures state.starts[id] == old(state).starts[id] + 1 && state.frees[id] == 1 && id !in items
    {
      assert ItemOk(state, id);
      Step(DrainCall(id));
      Step(DrainFree(id));
      FreeRecord(id);
    }

    /** Marks every mapped item that a message owns as removed and detached. */
    method OrphanPending()
      requires Valid() && !destroyRequested
      modifies this`items
      ensures items == map id | id in state.items :: OrphanedItem(state, id)
    {
      IndexLive();
      var left := index.Keys;
      while left != {}
        invariant left <= index.Keys
        invariant items == map id | id in state.items ::
          if state.items[id].key in left then state.items[id] else OrphanedItem(state, id)
        decreases |left|
      {
        var key :| key in left;
        var id := index[key];
        assert id in state.items && state.items[id].key == key;
        if items[id].pending {
          items := items[id := items[id].(removed := true, attached := false)];
        }
        left := left - {key};
      }
    }

    /** Empties the heap, freeing what no message owns, each entry once. */
    method FreeHeap(ghost gone: set<nat>)
      requires forall id :: id in heap ==> id in items && (id in gone <==> !items[id].pending)
      requires forall i, j :: 0 <= i < j < |heap| ==> heap[i] != heap[j]
      modifies this`items, this`heap, this`freed
      ensures heap == []
      ensures items == UnownedFreed(old(items), old(heap))
      ensures freed == old(freed) + multiset(Listed(old(heap), gone))
    {
      ghost var entries, items0, freed0 := heap, items, freed;
      ghost var popped := [];
      while heap != []
        invariant entries == popped + heap
        invariant items == UnownedFreed(items0, popped)
        invariant freed == freed0 + multiset(Listed(popped, gone))
        decreases |heap|
      {
        var id := heap[0];
        assert id == entries[|popped|] && popped == entries[..|popped|];
        NextIsLeft(items0, entries, |popped|);
        PopOne(id, items0, freed0, popped, gone);
        Shift(popped, heap);
        popped := popped + [id];
        heap := heap[1..];
      }
      assert popped + heap == popped;
    }

    /** Frees a popped entry unless a message owns it. */
    method PopOne(id: nat, ghost items0: map<nat, Item>, ghost freed0: multiset<nat>, ghost popped: seq<nat>,
                  ghost gone: set<nat>)
      requires items == UnownedFreed(items0, popped) && freed == freed0 + multiset(Listed(popped, gone))
      requires id in items && (id in gone <==> !items0[id].pending)
      modifies this`items, this`freed
      ensures items == UnownedFreed(items0, popped + [id])
      ensures freed == freed0 + multiset(Listed(popped + [id], gone))
    {
      UnownedFreedLast(items0, popped, id);
      ListedCount(popped, id, gone);
      if !items[id].pending {
        FreeRecord(id);
      }
    }

    ghost method StepDestroy()
      requires Inv(state) && Enabled(state, Destroy)
      modifies this`state
      ensures state == Do(old(state), Destroy) && Inv(state)
      ensures old(state).teardown == 0 && state.teardown == (if state.posted == 0 then 1 else 0)
      ensures state.destroyed && state.heap == [] && state.index == old(state).index
      ensures state.capacity == old(state).capacity && state.posted == old(state).posted
      ensures state.frees == old(state).frees + multiset(Listed(old(state).heap, HeapOwned(old(state))))
      ensures var marked := map id | id in old(state).items :: OrphanedItem(old(state), id);
        state.items == UnownedFreed(marked, old(state).heap)
    {
      DestroyedItems(state);
      Step(Destroy);
    }

    /** What destroy does to the item records: orphans the pending ones, then frees the rest of the heap. */
    method EmptyTable()
      requires Valid() && !destroyRequested
      modifies this`items, this`heap, this`freed
      ensures heap == []
      ensures items == UnownedFreed(map id | id in state.items :: OrphanedItem(state, id), state.heap)
      ensures freed == state.frees + multiset(Listed(state.heap, HeapOwned(state)))
    {
      HeapLive();
      OrphanPending();
      FreeHeap(HeapOwned(state));
    }

    /** The locked part of idletableDestroy; true means no message is left and the caller frees the table. */
    method DestroySection() returns (freeNow: bool)
      requires Valid() && Enabled(state, Destroy)
      modifies this
      ensures Valid() && state == Do(old(state), Destroy)
      ensures freed == old(freed) + multiset(Listed(old(heap), HeapOwned(old(state))))
      ensures freeNow <==> state.teardown == 1
    {
      EmptyTable();
      destroyRequested := true;
      StepDestroy();
      freeNow := posted == 0;
    }
  }
}
