/**
 What the operations of the shared idle table achieve: the effect of each call, and the course of an
 expiration message that nobody interferes with, from its delivery or cancellation to its last step.
 */
module SharedIdleOutcomes {
  import opened Collections
  import opened SharedIdleTable
  import opened Totals

  lemma ExecFront(s: State, a: Action, rest: seq<Action>)
    requires Enabled(s, a)
    ensures Exec(s, [a] + rest) == Exec(Do(s, a), rest)
  {
    assert ([a] + rest)[1..] == rest;
  }

  // -------------------------------------------------------------------------
  // single calls

  /** Creation succeeds exactly with room, a key not in use and a map that can grow; the item is then active. */
  lemma CreateExact(s: State, a: Action)
    requires Inv(s) && Enabled(s, a) && a.Create?
    ensures var e := Do(s, a);
      var admitted := |s.heap| + s.posted < MAX_ENTRIES && a.hashFits && a.key !in s.index;
      && (a.id in e.items <==> admitted)
      && (admitted ==>
            && e.items[a.id].key == a.key && e.items[a.id].wid == a.wid && e.items[a.id].expire == a.expire
            && Registered(e, a.id) && e.items[a.id].attached && !e.items[a.id].pending && a.id in e.heap)
      && (!admitted ==> e.items == s.items && e.index == s.index && e.heap == s.heap && e.frees[a.id] == 1)
  {
  }

  /** Room for one more entry is made without giving any up, by half as much again where that is possible. */
  lemma GrowthExact(capacity: nat, heapEntries: nat, postedEntries: nat)
    requires capacity <= MAX_ENTRIES && CanAddEntry(heapEntries, postedEntries)
    ensures var required := heapEntries + postedEntries + 1;
      var grown := Grown(capacity, heapEntries, postedEntries);
      && capacity <= grown <= MAX_ENTRIES && required <= grown
      && (required <= capacity ==> grown == capacity)
      && (capacity < required <= capacity + capacity / 2 + 4 <= MAX_ENTRIES ==> grown == capacity + capacity / 2 + 4)
  {
  }

  /** Keeping an item moves its deadline to the later of the two, and nothing else. */
  lemma KeepExtends(s: State, id: nat, expire: nat)
    requires Enabled(s, Keep(id, expire))
    ensures var e := Do(s, Keep(id, expire));
      && e.items[id].expire >= expire && e.items[id].expire >= s.items[id].expire
      && e.items[id].expire in {expire, s.items[id].expire}
      && e == s.(items := e.items) && e.items == s.items[id := s.items[id].(expire := e.items[id].expire)]
  {
  }

  /** Removal by the item's worker takes the key out of the map; any other call leaves the table as it is. */
  lemma RemoveExact(s: State, wid: nat, key: nat)
    requires Inv(s) && Enabled(s, Remove(wid, key))
    ensures var e := Do(s, Remove(wid, key));
      if Removable(s, wid, key) then
        var id := s.index[key];
        && key !in e.index && e.items[id].removed && id in e.removals && e.heap == s.heap
        && (s.items[id].pending ==> !e.items[id].attached)
        && forall k :: k in s.index && k != key ==> k in e.index && e.index[k] == s.index[k]
      else e == s
  {
    if Removable(s, wid, key) {
      assert ItemOk(s, s.index[key]);
    }
  }

  /**
   A drain takes every active item of its worker out of map and heap: one that a message owns is left to
   the message, detached, and every other is the drain's, its callback still to come.
   */
  lemma DrainTakesAll(s: State, wid: nat, id: nat)
    requires Inv(s) && Enabled(s, Drain(wid)) && id in s.items && !s.items[id].removed && s.items[id].wid == wid
    ensures var e := Do(s, Drain(wid));
      && id in e.items && e.items[id].removed && id !in e.heap && !Maps(e, id)
      && (if s.items[id].pending then !e.items[id].attached && id !in e.drained
          else id in e.drained && !e.drained[id])
  {
    assert ItemOk(s, id);
    CountKept(s.heap, DrainList(s, wid), id);
    assert id in Kept(s.heap, DrainList(s, wid)) ==> Count(Kept(s.heap, DrainList(s, wid)), id) > 0;
  }

  /** And it takes nothing else. */
  lemma DrainSparesOthers(s: State, wid: nat, id: nat)
    requires Inv(s) && Enabled(s, Drain(wid)) && id in s.items && (s.items[id].removed || s.items[id].wid != wid)
    ensures var e := Do(s, Drain(wid));
      && id in e.items && e.items[id] == s.items[id] && (id in e.heap <==> id in s.heap)
      && (Maps(e, id) <==> Maps(s, id)) && (id in e.drained <==> id in s.drained)
  {
    assert ItemOk(s, id);
    CountKept(s.heap, DrainList(s, wid), id);
    assert id in Kept(s.heap, DrainList(s, wid)) <==> Count(Kept(s.heap, DrainList(s, wid)), id) > 0;
    assert id in s.heap <==> Count(s.heap, id) > 0;
  }

  /** A due entry that is popped becomes a queued message's, or is freed if it was removed before. */
  lemma PopExact(s: State, slot: nat, m: nat)
    requires Inv(s) && Enabled(s, ScanPop(slot, m))
    ensures var e := Do(s, ScanPop(slot, m));
      var id := s.heap[slot];
      && id in s.items && id !in e.heap && |e.heap| == |s.heap| - 1
      && (if s.items[id].removed then id !in e.items && e.frees[id] == 1 && e.msgs == s.msgs && e.posted == s.posted
          else
            && e.items[id] == s.items[id].(pending := true) && e.index == s.index && e.posted == s.posted + 1
            && e.msgs == s.msgs[m := Message(id, s.items[id].wid, Queued)])
  {
    var id := s.heap[slot];
    HeapIsLive(s);
    assert ItemOk(s, id);
    CountWithout(s.heap, slot, id);
    assert Count(s.heap, id) > 0;
    var rest := Without(s.heap, slot);
    assert Count(rest, id) == 0;
  }

  /** Destroy frees what the heap owns; what a message owns is removed and detached and left to the message. */
  lemma DestroyExact(s: State, id: nat)
    requires Inv(s) && Enabled(s, Destroy) && id in s.items && id !in s.drained
    ensures var e := Do(s, Destroy);
      && e.destroyed && e.heap == [] && e.msgs == s.msgs && e.posted == s.posted
      && (if s.items[id].pending then id in e.items && e.items[id].removed && e.frees[id] == 0
          else id !in e.items && e.frees[id] == 1)
      && (s.items[id].pending && !s.items[id].removed ==> !e.items[id].attached)
      && e.teardown == (if s.msgs == map[] then 1 else 0)
  {
    assert ItemOk(s, id);
    CountListed(s.heap, HeapOwned(s), id);
    assert id in s.heap <==> Count(s.heap, id) > 0;
    LastReference(s);
  }

  // -------------------------------------------------------------------------
  // the course of a message

  /** The message has handed its item back: in the heap again, not pending, with nothing else changed. */
  ghost predicate HandedBack(s: State, e: State, m: nat) {
    && m in s.msgs && s.msgs[m].item in s.items
    && e.heap == s.heap + [s.msgs[m].item]
    && e.items == s.items[s.msgs[m].item := s.items[s.msgs[m].item].(pending := false)]
    && e.index == s.index && e.frees == s.frees && AtStage(e, m, Releasing)
  }

  /** A delivered message whose item has been removed meanwhile goes straight to freeing it. */
  lemma RemovedIsFreed(s: State, m: nat)
    requires Inv(s) && Enabled(s, Deliver(m)) && !Usable(s, s.msgs[m].item)
    ensures var e := Do(s, Deliver(m)); e == s.(msgs := e.msgs) && AtStage(e, m, Freeing)
  {
  }

  /** A delivered message looks at the deadline: past it, the item goes back to the heap with no callback. */
  lemma EarlyIsHandedBack(s: State, m: nat, now: nat)
    requires Inv(s) && Enabled(s, Deliver(m)) && LockFree(s) && Usable(s, s.msgs[m].item)
    requires s.items[s.msgs[m].item].expire > now
    ensures var out := Exec(s, [Deliver(m)] + ([Decide(m, now)] + ([Restore(m)] + [])));
      out.Reached? && out.state.starts == s.starts && HandedBack(s, out.state, m)
  {
    var s1 := Do(s, Deliver(m));
    var s2 := Do(s1, Decide(m, now));
    ExecFront(s2, Restore(m), []);
    ExecFront(s1, Decide(m, now), [Restore(m)] + []);
    ExecFront(s, Deliver(m), [Decide(m, now)] + ([Restore(m)] + []));
  }

  /** A due one has its callback started, once. */
  lemma DueIsCalledBack(s: State, m: nat, now: nat)
    requires Inv(s) && Enabled(s, Deliver(m)) && Usable(s, s.msgs[m].item)
    requires s.items[s.msgs[m].item].expire <= now
    ensures var out := Exec(s, [Deliver(m)] + ([Decide(m, now)] + []));
      && out.Reached? && out.state == s.(msgs := out.state.msgs, starts := s.starts + multiset{s.msgs[m].item})
      && out.state.msgs == s.msgs[m := s.msgs[m].(stage := CallingBack(s.items[s.msgs[m].item].expire))]
  {
    OwnedIsLive(s, m);
    var s1 := Do(s, Deliver(m));
    ExecFront(s1, Decide(m, now), []);
    ExecFront(s, Deliver(m), [Decide(m, now)] + []);
    assert Do(s1, Decide(m, now)).msgs == s.msgs[m := s.msgs[m].(stage := CallingBack(s.items[s.msgs[m].item].expire))];
  }

  /** After the callback an extended item goes back to the heap; one that is not leaves the map to be freed. */
  lemma ReturnedIsSettled(s: State, m: nat, now: nat)
    requires Inv(s) && Enabled(s, Return(m, now)) && LockFree(s) && Usable(s, s.msgs[m].item)
    ensures var out := Exec(s, [Return(m, now)] + ([Finish(m)] + []));
      var expire := s.items[s.msgs[m].item].expire;
      && out.Reached? && out.state.starts == s.starts
      && (if expire != s.msgs[m].stage.since && expire > now then HandedBack(s, out.state, m)
          else
            && AtStage(out.state, m, Freeing) && out.state.heap == s.heap && out.state.frees == s.frees
            && s.msgs[m].item in out.state.items && out.state.items[s.msgs[m].item].removed
            && !Maps(out.state, s.msgs[m].item))
  {
    var s1 := Do(s, Return(m, now));
    ExecFront(s1, Finish(m), []);
    ExecFront(s, Return(m, now), [Finish(m)] + []);
  }

  /** A due item that its callback keeps alive past the clock is in heap and map afterwards, due that much later. */
  lemma KeptByCallbackStays(s: State, m: nat, now: nat, expire: nat, later: nat)
    requires Inv(s) && AtStage(s, m, Checked) && LockFree(s) && Usable(s, s.msgs[m].item)
    requires s.items[s.msgs[m].item].expire <= now <= later < expire
    requires Enabled(Do(s, Decide(m, now)), Keep(s.msgs[m].item, expire))
    ensures var id := s.msgs[m].item;
      var out := Exec(s, [Decide(m, now)] + ([Keep(id, expire)] + ([Return(m, later)] + ([Finish(m)] + []))));
      && out.Reached? && out.state.heap == s.heap + [id] && out.state.index == s.index && out.state.frees == s.frees
      && out.state.items == s.items[id := s.items[id].(expire := expire, pending := false)]
      && out.state.starts == s.starts + multiset{id} && AtStage(out.state, m, Releasing)
  {
    var id := s.msgs[m].item;
    OwnedIsLive(s, m);
    var s1 := Do(s, Decide(m, now));
    var s2 := Do(s1, Keep(id, expire));
    InvStep(s, Decide(m, now));
    InvStep(s1, Keep(id, expire));
    assert s1.msgs[m].stage == CallingBack(s.items[id].expire) && s2.items[id].expire == expire;
    ReturnedIsSettled(s2, m, later);
    ExecFront(s1, Keep(id, expire), [Return(m, later)] + ([Finish(m)] + []));
    ExecFront(s, Decide(m, now), [Keep(id, expire)] + ([Return(m, later)] + ([Finish(m)] + [])));
  }

  /** An item its callback, or anybody meanwhile, has removed is freed and not handed back. */
  lemma ReturnedRemovedIsFreed(s: State, m: nat, now: nat)
    requires Inv(s) && Enabled(s, Return(m, now)) && LockFree(s) && !Usable(s, s.msgs[m].item)
    ensures var out := Exec(s, [Return(m, now)] + ([Finish(m)] + []));
      out.Reached? && AtStage(out.state, m, Freeing) && out.state == s.(msgs := out.state.msgs)
  {
    var s1 := Do(s, Return(m, now));
    ExecFront(s1, Finish(m), []);
    ExecFront(s, Return(m, now), [Finish(m)] + []);
  }

  /** A message that is cancelled instead hands an active item of a live table back, and frees any other. */
  lemma CancelledIsSettled(s: State, m: nat)
    requires Inv(s) && Enabled(s, Cancel(m))
    ensures var e := Do(s, Cancel(m));
      && e.starts == s.starts
      && (if !s.destroyed && Usable(s, s.msgs[m].item) then HandedBack(s, e, m)
          else AtStage(e, m, Freeing) && e == s.(msgs := e.msgs))
  {
    OwnedIsLive(s, m);
    assert ItemOk(s, s.msgs[m].item);
  }

  /** A message about to free its item does so, once, and then gives its reference on the table up. */
  lemma FreeingEnds(s: State, m: nat)
    requires Inv(s) && AtStage(s, m, Freeing) && LockFree(s)
    ensures var out := Exec(s, [FreeItem(m)] + ([Release(m)] + []));
      && out.Reached? && s.msgs[m].item in s.items && out.state.items == s.items - {s.msgs[m].item}
      && out.state.frees == s.frees + multiset{s.msgs[m].item}
      && out.state.msgs == s.msgs - {m} && out.state.posted == s.posted - 1
  {
    OwnedIsLive(s, m);
    TotalAtLeast(s.msgs, One, m);
    var s1 := Do(s, FreeItem(m));
    ExecFront(s1, Release(m), []);
    ExecFront(s, FreeItem(m), [Release(m)] + []);
    assert s1.msgs - {m} == s.msgs - {m};
  }
}
