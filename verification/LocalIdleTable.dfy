/**
 The worker-local idle table of ww/base/local_widle_table.c: an indexed binary heap of items with
 back-pointers, a key map over the same items, and an expiry loop whose callbacks re-enter the
 table. A callback is an arbitrary script of table operations and clock ticks.
 */
module LocalIdleTable {
  import opened HeapOrder
  import opened PlainIdleTable

  const NO_INDEX: nat := 0xFFFF_FFFF_FFFF_FFFF

  class Item {
    const hash: nat
    var expireAt: nat
    var heapIndex: nat
    var table: Table?
    var removed: bool
    var expiring: bool

    constructor (hash: nat, expireAt: nat, table: Table)
      ensures this.hash == hash && this.expireAt == expireAt && heapIndex == NO_INDEX
      ensures this.table == table && !removed && !expiring
    {
      this.hash := hash;
      this.expireAt := expireAt;
      this.table := table;
      heapIndex, removed, expiring := NO_INDEX, false, false;
    }

    function KeyOf(): Key
      reads this
    {
      Key(expireAt, hash)
    }
  }

  class Table {
    var heap: array<Item?>
    var len: nat
    var index: map<nat, Item>
    var now: nat

    ghost var keys: seq<Key>     // the keys of the heap slots
    ghost var members: set<Item> // the items in the heap
    ghost var current: Item?     // the item whose callback is running
    ghost var freed: set<Item>   // items given back to the allocator
    ghost var view: Plain        // the deadline of each mapped key

    ghost function Owned(): set<Item>
      reads this
    {
      members + (if current == null then {} else {current})
    }

    /** Slots and back-pointers agree, in both directions. */
    ghost predicate Indexed()
      reads this`heap, this`len, this`keys, this`members, heap, members
    {
      && len <= heap.Length && heap.Length > 0 && |keys| == len
      && (forall i :: 0 <= i < len ==>
            heap[i] != null && heap[i] in members && heap[i].heapIndex == i && keys[i] == heap[i].KeyOf())
      && (forall x :: x in members ==> x.heapIndex < len && heap[x.heapIndex] == x)
    }

    /** The map holds the heap items and, until it is removed, the item being expired. */
    ghost predicate Mapped()
      reads this`index, this`view, this`members, this`current, this`freed, members, current
    {
      MappedBut(null)
    }

    /** The same, with one more item in the map that has just left the heap. */
    ghost predicate MappedBut(extra: Item?)
      reads this`index, this`view, this`members, this`current, this`freed, members, current, extra
    {
      && (forall x :: x in members ==>
            && x.hash in index && index[x.hash] == x && x.table == this && !x.removed && !x.expiring
            && x.hash in view && view[x.hash] == x.expireAt)
      && (forall k :: k in view ==> k in index)
      && (forall k :: k in index ==>
            index[k].hash == k && (index[k] in members || index[k] == current || index[k] == extra))
      && (extra != null ==>
            && extra.hash in index && index[extra.hash] == extra
            && extra.hash in view && view[extra.hash] == extra.expireAt)
      && (current != null ==>
            && current !in members && current.expiring && (current.table == this <==> !current.removed)
            && (!current.removed ==>
                  && current.hash in index && index[current.hash] == current
                  && current.hash in view && view[current.hash] == current.expireAt)
            && (current.removed ==> forall k :: k in index ==> index[k] != current))
      && members !! freed && (current != null ==> current !in freed)
    }

    ghost predicate Valid()
      reads this, heap, members, current
    {
      Indexed() && IsHeap(keys) && Mapped()
    }

    constructor (now: nat)
      ensures Valid() && index == map[] && members == {} && current == null && freed == {} && this.now == now
      ensures view == map[]
      ensures fresh(heap)
    {
      heap := new Item?[32](_ => null);
      len, index, keys, members, current, freed, view := 0, map[], [], {}, null, {}, map[];
      this.now := now;
    }

    /** Keys in the map are unique, so the heap order is strict. */
    lemma StrictHeap(i: nat)
      requires Valid() && 0 < i < len
      ensures Less(keys[Parent(i)], keys[i])
    {
      var item, parent := heap[i], heap[Parent(i)];
      assert Ordered(keys, i);
      assert item.heapIndex != parent.heapIndex && index[item.hash] == item && index[parent.hash] == parent;
    }

    // -----------------------------------------------------------------------
    // the indexed heap

    method HeapSwap(left: nat, right: nat)
      requires Indexed() && left < len && right < len && left != right
      modifies heap, members`heapIndex, this`keys
      ensures Indexed() && keys == Swapped(old(keys), left, right)
    {
      var temporary := heap[left];
      heap[left] := heap[right];
      heap[right] := temporary;
      heap[left].heapIndex := left;
      heap[right].heapIndex := right;
      keys := Swapped(keys, left, right);
    }

    method SiftUp(start: nat)
      requires Indexed() && start < len && HeapButUp(keys, start)
      modifies heap, members`heapIndex, this`keys
      ensures Indexed() && IsHeap(keys)
    {
      var i: nat := start;
      while i > 0
        invariant i < len && Indexed() && HeapButUp(keys, i)
      {
        var parent: nat := (i - 1) / 2;
        if !Less(heap[i].KeyOf(), heap[parent].KeyOf()) {
          break;
        }
        UpStep(keys, i);
        HeapSwap(i, parent);
        i := parent;
      }
      UpDone(keys, i);
    }

    method SiftDown(start: nat)
      requires Indexed() && start < len && HeapButDown(keys, start)
      modifies heap, members`heapIndex, this`keys
      ensures Indexed() && IsHeap(keys)
    {
      var i: nat := start;
      while true
        invariant i < len && Indexed() && HeapButDown(keys, i)
        decreases len - i
      {
        DownOnce(keys, i);
        if i * 2 + 1 >= len {
          return;
        }
        var smallest := Smallest(i);
        if !Less(heap[smallest].KeyOf(), heap[i].KeyOf()) {
          return;
        }
        HeapSwap(i, smallest);
        i := smallest;
      }
    }

    /** The smaller of the one or two children of a slot. */
    method Smallest(i: nat) returns (smallest: nat)
      requires Indexed() && i * 2 + 1 < len
      ensures smallest == SmallestChild(keys, i)
    {
      var left := i * 2 + 1;
      var right := left + 1;
      smallest := left;
      if right < len && Less(heap[right].KeyOf(), heap[left].KeyOf()) {
        smallest := right;
      }
    }

    /** Doubles a full heap array. */
    method Reserve()
      requires Indexed()
      modifies this`heap
      ensures Indexed() && len < heap.Length
      ensures if old(len < heap.Length) then heap == old(heap) else fresh(heap) && heap.Length == 2 * old(heap.Length)
    {
      if len < heap.Length {
        return;
      }
      var grown := new Item?[heap.Length * 2](_ => null);
      var i := 0;
      while i < len
        invariant i <= len <= heap.Length < grown.Length == 2 * heap.Length && heap == old(heap) && Indexed()
        invariant forall k :: 0 <= k < i ==> grown[k] == heap[k]
      {
        grown[i] := heap[i];
        i := i + 1;
      }
      heap := grown;
    }

    method HeapPush(item: Item)
      requires Indexed() && IsHeap(keys) && item !in members
      modifies this`heap, this`len, this`keys, this`members, heap, members`heapIndex, item`heapIndex
      ensures Indexed() && IsHeap(keys) && members == old(members) + {item}
      ensures heap == old(heap) || fresh(heap)
    {
      Reserve();
      PushOrder(keys, item.KeyOf());
      Append(item);
      SiftUp(item.heapIndex);
    }

    method Append(item: Item)
      requires Indexed() && item !in members && len < heap.Length
      modifies this`len, this`keys, this`members, heap, item`heapIndex
      ensures Indexed() && members == old(members) + {item} && keys == old(keys) + [item.KeyOf()]
      ensures len == old(len) + 1 && item.heapIndex == old(len)
    {
      item.heapIndex := len;
      heap[len] := item;
      keys := keys + [item.KeyOf()];
      members := members + {item};
      len := len + 1;
    }

    method RemoveAt(i: nat) returns (removed: Item)
      requires Indexed() && IsHeap(keys) && i < len
      modifies this`len, this`keys, this`members, heap, members`heapIndex
      ensures removed == old(heap[i]) && removed.heapIndex == NO_INDEX
      ensures Indexed() && IsHeap(keys) && members == old(members) - {removed} && removed in old(members)
    {
      if i == len - 1 {
        PrefixOrder(keys, i);
        removed := Unlink(i);
      } else {
        ReplaceOrder(keys, i);
        removed := Unlink(i);
        Sift(i);
      }
    }

    method Sift(i: nat)
      requires Indexed() && i < len && HeapButEither(keys, i)
      modifies heap, members`heapIndex, this`keys
      ensures Indexed() && IsHeap(keys)
    {
      if i > 0 && Less(heap[i].KeyOf(), heap[(i - 1) / 2].KeyOf()) {
        SiftUp(i);
      } else {
        SiftDown(i);
      }
    }

    /** Moves the last item into the freed slot; the order there is still open. */
    method Unlink(i: nat) returns (removed: Item)
      requires Indexed() && i < len
      modifies this`len, this`keys, this`members, heap, members`heapIndex
      ensures removed == old(heap[i]) && removed.heapIndex == NO_INDEX
      ensures members == old(members) - {removed} && removed in old(members)
      ensures Indexed() && len == old(len) - 1
      ensures keys == if i == len then old(keys)[..i] else Replaced(old(keys), i)
    {
      removed := heap[i];
      var last := len - 1;
      len := last;
      removed.heapIndex := NO_INDEX;
      members := members - {removed};
      if i == last {
        keys := keys[..last];
        return;
      }
      heap[i] := heap[last];
      heap[i].heapIndex := i;
      keys := Replaced(keys, i);
    }

    // -----------------------------------------------------------------------
    // the table operations

    /** Hands an item back to the allocator; an item that is indexed or already freed must not be. */
    method FreeItem(item: Item)
      requires item !in members && item != current && item !in freed
      modifies this`freed
      ensures freed == old(freed) + {item}
    {
      freed := freed + {item};
    }

    method FreeUnindexed(item: Item)
      requires Valid() && item !in Owned() && item !in freed
      modifies this`freed
      ensures Valid() && freed == old(freed) + {item}
    {
      FreeItem(item);
    }

    method NewItem(key: nat, age: nat) returns (item: Item)
      requires Valid()
      ensures Valid() && fresh(item) && item.hash == key && item.expireAt == DeadlineFromAge(now, age)
      ensures item.table == this && !item.removed && !item.expiring
    {
      item := new Item(key, DeadlineFromAge(now, age), this);
    }

    method CreateItem(key: nat, age: nat) returns (item: Item?)
      requires Valid()
      modifies this, heap, members`heapIndex
      ensures Valid() && current == old(current) && now == old(now)
      ensures heap == old(heap) || fresh(heap)
      ensures item == null <==> key in old(index)
      ensures view == Created(old(view), now, key, age)
      ensures item == null ==>
        && index == old(index) && members == old(members)
        && old(freed) <= freed && |freed - old(freed)| == 1 && fresh(freed - old(freed))
      ensures item != null ==>
        && fresh(item) && item.hash == key && item.expireAt == DeadlineFromAge(now, age)
        && index == old(index)[key := item] && members == old(members) + {item} && freed == old(freed)
    {
      assert key in index <==> key in view;
      var created := NewItem(key, age);
      if key in index {
        FreeUnindexed(created);
        assert freed - old(freed) == {created};
        return null;
      }
      Publish(created);
      return created;
    }

    /** Enters an item into both indexes. */
    method Publish(item: Item)
      requires Valid() && item !in Owned() && item !in freed && item.hash !in index
      requires item.table == this && !item.removed && !item.expiring
      modifies this`index, this`view, this`heap, this`len, this`keys, this`members
      modifies heap, members`heapIndex, item`heapIndex
      ensures Valid() && members == old(members) + {item} && index == old(index)[item.hash := item]
      ensures view == old(view)[item.hash := item.expireAt]
      ensures heap == old(heap) || fresh(heap)
    {
      EnterMap(item);
      Reenter(item);
    }

    method EnterMap(item: Item)
      requires Valid() && item !in Owned() && item.hash !in index
      modifies this`index, this`view
      ensures Indexed() && MappedBut(item)
      ensures index == old(index)[item.hash := item] && view == old(view)[item.hash := item.expireAt]
    {
      index := index[item.hash := item];
      view := view[item.hash := item.expireAt];
    }

    method GetItemByHash(key: nat) returns (item: Item?)
      requires Valid()
      ensures item == if key in index then index[key] else null
      ensures item != null ==> item in Owned() && !item.removed && item.hash == key
    {
      item := if key in index then index[key] else null;
    }

    /** Only ever extends a deadline. */
    method KeepForAtLeast(item: Item, age: nat)
      requires Valid() && item in Owned() && !item.removed
      modifies item`expireAt, heap, members`heapIndex, this`keys, this`view
      ensures Valid() && view == Kept(old(view), now, item.hash, age)
      ensures var d := DeadlineFromAge(now, age);
        item.expireAt == if d > old(item.expireAt) then d else old(item.expireAt)
    {
      var deadline := DeadlineFromAge(now, age);
      if deadline <= item.expireAt {
        return;
      }
      if item.expiring {
        ExtendCurrent(item, deadline);
      } else {
        ExtendActive(item, deadline);
      }
    }

    method ExtendCurrent(item: Item, deadline: nat)
      requires Valid() && item == current && !item.removed
      modifies item`expireAt, this`view
      ensures Valid() && item.expireAt == deadline && view == old(view)[item.hash := deadline]
    {
      item.expireAt := deadline;
      view := view[item.hash := deadline];
    }

    method ExtendActive(item: Item, deadline: nat)
      requires Valid() && item in members && deadline > item.expireAt
      modifies item`expireAt, heap, members`heapIndex, this`keys, this`view
      ensures Valid() && item.expireAt == deadline && view == old(view)[item.hash := deadline]
    {
      view := view[item.hash := deadline];
      ExtendIndexed(item, deadline);
    }

    method ExtendIndexed(item: Item, deadline: nat)
      requires Indexed() && IsHeap(keys) && item in members && deadline > item.expireAt
      modifies item`expireAt, heap, members`heapIndex, this`keys
      ensures Indexed() && IsHeap(keys) && item.expireAt == deadline
    {
      LaterOrder(keys, item.heapIndex, Key(deadline, item.hash));
      item.expireAt := deadline;
      keys := keys[item.heapIndex := item.KeyOf()];
      SiftDown(item.heapIndex);
    }

    /** Removes an active item of this table; the one being expired is only detached and freed by the expiry loop. */
    method RemoveItem(item: Item?) returns (removed: bool)
      requires Valid() && (item != null && item.table == this && !item.removed ==> item in Owned())
      modifies this, heap, Owned()
      ensures Valid() && current == old(current) && now == old(now) && heap == old(heap)
      ensures removed <==> item != null && old(item.table) == this && !old(item.removed)
      ensures !removed ==> index == old(index) && members == old(members) && freed == old(freed) && view == old(view)
      ensures removed ==>
        && index == old(index) - {item.hash} && item.removed
        && members == old(members) - {item} && view == old(view) - {item.hash}
        && freed == old(freed) + (if item == current then {} else {item})
      ensures forall x :: x in old(Owned()) ==> x.expireAt == old(x.expireAt)
      ensures current != null && item != current ==> current.removed == old(current.removed)
    {
      if item == null || item.table != this || item.removed {
        return false;
      }
      assert item.hash in index && index[item.hash] == item;
      if item.expiring {
        DetachCurrent(item);
      } else {
        RemoveIndexed(item);
      }
      return true;
    }

    method DetachCurrent(item: Item)
      requires Mapped() && item == current && !item.removed
      modifies this`index, this`view, item`removed, item`table
      ensures Mapped() && index == old(index) - {item.hash} && view == old(view) - {item.hash} && item.removed
    {
      index := index - {item.hash};
      view := view - {item.hash};
      item.removed := true;
      item.table := null;
    }

    method RemoveIndexed(item: Item)
      requires Valid() && item in members
      modifies this`index, this`view, this`len, this`keys, this`members, this`freed
      modifies heap, members`heapIndex, item`removed, item`table
      ensures Valid() && members == old(members) - {item} && freed == old(freed) + {item}
      ensures index == old(index) - {item.hash} && item.removed && item.table == null
      ensures view == old(view) - {item.hash}
    {
      assert item.heapIndex < len && heap[item.heapIndex] == item;
      var out := RemoveAt(item.heapIndex);
      Retire(item);
    }

    /** Takes an item that has left the heap out of the map. */
    method Unmap(item: Item)
      requires item !in members && item != current && MappedBut(item)
      modifies this`index, this`view, item`removed, item`table
      ensures Mapped() && index == old(index) - {item.hash} && view == old(view) - {item.hash}
      ensures item.removed && item.table == null
    {
      index := index - {item.hash};
      view := view - {item.hash};
      item.removed := true;
      item.table := null;
    }

    method Retire(item: Item)
      requires Indexed() && IsHeap(keys) && item !in members && item !in freed && item != current
      requires MappedBut(item)
      modifies this`index, this`view, this`freed, item`removed, item`table
      ensures Valid() && freed == old(freed) + {item} && index == old(index) - {item.hash}
      ensures item.removed && item.table == null && view == old(view) - {item.hash}
    {
      Unmap(item);
      FreeUnindexed(item);
    }

    // -----------------------------------------------------------------------
    // callbacks

    /**
     What any callback leaves behind: no item is lost, none is freed but items of this table, the
     clock does not go back, and the item being expired stays where it is with no earlier deadline.
     */
    twostate predicate Continued()
      reads this, members, current
    {
      && current == old(current) && now >= old(now)
      && (heap == old(heap) || fresh(heap))
      && fresh(members - old(members))
      && old(freed) <= freed && old(members) <= members + freed
      && (forall x :: x in freed ==> x in old(freed) || x in old(members) || fresh(x))
      && (current != null ==> current.expireAt >= old(current.expireAt) && (old(current.removed) ==> current.removed))
    }

    twostate lemma SameItems()
      requires members == old(members) && freed == old(freed) && current == old(current) && now == old(now)
      requires heap == old(heap)
      requires current != null ==> current.expireAt >= old(current.expireAt) && current.removed == old(current.removed)
      ensures Continued()
    {
    }

    method RunCreate(key: nat, age: nat)
      requires Valid()
      modifies this, heap, members`heapIndex
      ensures Valid() && Continued() && now == old(now) && view == Created(old(view), now, key, age)
    {
      var item := CreateItem(key, age);
    }

    method RunKeep(key: nat, age: nat)
      requires Valid()
      modifies heap, Owned(), this`keys, this`view
      ensures Valid() && Continued() && now == old(now) && view == Kept(old(view), now, key, age)
    {
      var item := GetItemByHash(key);
      if item != null {
        KeepForAtLeast(item, age);
      }
      SameItems();
    }

    method RunRemove(key: nat)
      requires Valid()
      modifies this, heap, Owned()
      ensures Valid() && Continued() && now == old(now) && view == old(view) - {key}
      ensures current != null && !old(current.removed) ==> (current.removed <==> key == current.hash)
    {
      var item := GetItemByHash(key);
      var removed := RemoveItem(item);
    }

    /** One step of a callback does to the plain table what it says, and only removal of its key removes `current`. */
    method RunOp(op: Op)
      requires Valid()
      modifies this, heap, Owned()
      ensures Valid() && Continued() && now == ClockAfter(old(now), op) && view == AfterOp(old(view), old(now), op)
      ensures current != null && !old(current.removed) ==> (current.removed <==> op == RemoveOp(current.hash))
    {
      match op
      case CreateOp(key, age) => RunCreate(key, age);
      case KeepOp(key, age) => RunKeep(key, age);
      case RemoveOp(key) => RunRemove(key);
      case Tick(ms) => now := now + ms;
    }

    method RunCallback(ops: seq<Op>)
      requires Valid()
      modifies this, heap, Owned()
      ensures Valid() && Continued()
      ensures now == ClockAfterAll(old(now), ops) && view == AfterAll(old(view), old(now), ops)
      ensures current != null && !old(current.removed) ==> (current.removed <==> RemoveOp(current.hash) in ops)
    {
      var i := 0;
      while i < |ops|
        invariant 0 <= i <= |ops| && Valid() && Continued()
        invariant ClockAfterAll(now, ops[i..]) == ClockAfterAll(old(now), ops)
        invariant AfterAll(view, now, ops[i..]) == AfterAll(old(view), old(now), ops)
        invariant current != null && !old(current.removed) ==> (current.removed <==> RemoveOp(current.hash) in ops[..i])
      {
        assert ops[i..][0] == ops[i] && ops[i..][1..] == ops[i + 1..] && ops[..i + 1] == ops[..i] + [ops[i]];
        RunOp(ops[i]);
        i := i + 1;
      }
    }

    // -----------------------------------------------------------------------
    // expiry

    /** Takes the first item out of the heap and hands it to the expiry loop; its key stays mapped. */
    method BeginExpiry() returns (item: Item)
      requires Valid() && current == null && len > 0
      modifies this`len, this`keys, this`members, this`current, heap, members`heapIndex, members`expiring
      ensures Valid() && item == old(heap[0]) && current == item && item in old(members) && !item.removed
      ensures members == old(members) - {item}
    {
      item := RemoveAt(0);
      Hold(item);
    }

    method Hold(item: Item)
      requires MappedBut(item) && current == null && item !in members && item !in freed
      requires item.table == this && !item.removed
      modifies this`current, item`expiring
      ensures Mapped() && current == item
    {
      item.expiring := true;
      current := item;
    }

    /** An item whose key is mapped goes into the heap. */
    method Reenter(item: Item)
      requires Indexed() && IsHeap(keys) && MappedBut(item) && item != current
      requires item !in members && item !in freed && item.table == this && !item.removed && !item.expiring
      modifies this`heap, this`len, this`keys, this`members, heap, members`heapIndex, item`heapIndex
      ensures Valid() && members == old(members) + {item} && (heap == old(heap) || fresh(heap))
    {
      HeapPush(item);
    }

    /** An item that has left the heap leaves the map, unless removal has taken it out, and is freed. */
    method Discard(item: Item)
      requires Indexed() && IsHeap(keys) && MappedBut(if item.removed then null else item) && current == null
      requires item !in members && item !in freed && (item.removed ==> forall k :: k in index ==> index[k] != item)
      modifies this`index, this`view, this`freed, item`removed, item`table
      ensures Valid() && freed == old(freed) + {item}
      ensures view == if old(item.removed) then old(view) else old(view) - {item.hash}
    {
      if !item.removed {
        Retire(item);
      } else {
        FreeItem(item);
      }
    }

    /** The expiry loop lets go of its item, whose key stays mapped unless it was removed. */
    method Release(item: Item)
      requires Valid() && current == item
      modifies this`current, item`expiring
      ensures Indexed() && IsHeap(keys) && MappedBut(if item.removed then null else item)
      ensures current == null && item !in members && item !in freed && !item.expiring
      ensures if item.removed then forall k :: k in index ==> index[k] != item else item.table == this
    {
      item.expiring := false;
      current := null;
    }

    /** After the callback: back into the heap if it was extended past the clock, else gone and freed. */
    method EndExpiry(item: Item, oldDeadline: nat) returns (kept: bool)
      requires Valid() && current == item
      modifies this, heap, members`heapIndex, item
      ensures Valid() && current == null && now == old(now) && (heap == old(heap) || fresh(heap))
      ensures kept <==> !old(item.removed) && old(item.expireAt) != oldDeadline && old(item.expireAt) > now
      ensures item.expireAt == old(item.expireAt)
      ensures view == if kept || old(item.removed) then old(view) else old(view) - {item.hash}
      ensures kept ==> members == old(members) + {item} && freed == old(freed)
      ensures !kept ==> members == old(members) && freed == old(freed) + {item}
    {
      Release(item);
      kept := Settle(item, oldDeadline);
    }

    method Settle(item: Item, oldDeadline: nat) returns (kept: bool)
      requires Indexed() && IsHeap(keys) && MappedBut(if item.removed then null else item) && current == null
      requires item !in members && item !in freed && !item.expiring && (!item.removed ==> item.table == this)
      requires item.removed ==> forall k :: k in index ==> index[k] != item
      modifies this`index, this`view, this`heap, this`len, this`keys, this`members, this`freed
      modifies heap, members`heapIndex, item
      ensures Valid() && (heap == old(heap) || fresh(heap))
      ensures kept <==> !old(item.removed) && old(item.expireAt) != oldDeadline && old(item.expireAt) > now
      ensures item.expireAt == old(item.expireAt)
      ensures view == if kept || old(item.removed) then old(view) else old(view) - {item.hash}
      ensures kept ==> members == old(members) + {item} && freed == old(freed)
      ensures !kept ==> members == old(members) && freed == old(freed) + {item}
    {
      kept := !item.removed && item.table == this && item.expireAt != oldDeadline && item.expireAt > now;
      if kept {
        Reenter(item);
      } else {
        Discard(item);
      }
    }

    /** The callback of the item being expired, and what becomes of the item. */
    method ExpireCurrent(item: Item, ops: seq<Op>)
      requires Valid() && current == item && !item.removed && item.expireAt <= now
      modifies this, heap, Owned()
      ensures Valid() && current == null && now >= old(now)
      ensures heap == old(heap) || fresh(heap)
      ensures fresh(members - old(Owned())) && old(freed) <= freed && old(Owned()) <= members + freed
      ensures forall x :: x in freed ==> x in old(freed) || x in old(Owned()) || fresh(x)
      ensures if item in members then item.hash in index && index[item.hash] == item && item.expireAt > now
              else item in freed && forall k :: k in index ==> index[k] != item
      ensures item in members <==> Extends(old(view), old(now), item.hash, ops)
      ensures view == Expired(old(view), old(now), item.hash, ops) && now == ClockAfterAll(old(now), ops)
      ensures item.expireAt > now && item !in members ==> RemoveOp(item.hash) in ops
    {
      var oldDeadline := item.expireAt;
      RunCallback(ops);
      var kept := EndExpiry(item, oldDeadline);
    }

    /**
     One round of the expiry loop on a due first item, which is the least key of the plain table. An
     item that its callback extended past the clock is lost only if the callback also removed it.
     */
    method ExpireFirst(ops: seq<Op>) returns (item: Item)
      requires Valid() && current == null && len > 0 && heap[0].expireAt <= now
      modifies this, heap, members
      ensures Valid() && Continued() && item == old(heap[0])
      ensures if item in members then item.hash in index && index[item.hash] == item && item.expireAt > now
              else item in freed && forall k :: k in index ==> index[k] != item
      ensures IsLeast(old(view), item.hash) && old(view)[item.hash] == old(heap[0].expireAt)
      ensures item in members <==> Extends(old(view), old(now), item.hash, ops)
      ensures view == Expired(old(view), old(now), item.hash, ops) && now == ClockAfterAll(old(now), ops)
      ensures item.expireAt > now && item !in members ==> RemoveOp(item.hash) in ops
    {
      FirstIsLeast();
      item := BeginExpiry();
      ExpireCurrent(item, ops);
    }

    /** A callback that only keeps its own item alive: the item stays indexed, due that much later. */
    method ExpireKept(age: nat) returns (item: Item)
      requires Valid() && current == null && len > 0 && heap[0].expireAt <= now && 0 < age <= UINT64_MAX - now
      modifies this, heap, members
      ensures Valid() && Continued() && item == old(heap[0])
      ensures item in members && item.expireAt == old(now) + age && view == old(view)[item.hash := old(now) + age]
    {
      FirstIsLeast();
      KeepAlive(view, now, heap[0].hash, age);
      item := ExpireFirst([KeepOp(heap[0].hash, age)]);
    }

    /** One round as the loop sees it. */
    method Round(ops: seq<Op>, ghost t: nat)
      requires Valid() && current == null && len > 0 && heap[0].expireAt <= t <= now
      modifies this, heap, members
      ensures Valid() && Continued()
      ensures IsRound(Moment(old(view), old(now)), Moment(view, now), t, ops)
    {
      var item := ExpireFirst(ops);
    }

    /** The rounds of the loop: `done` says that nothing is due at the scan time any more. */
    method RunRounds(limit: nat, scripts: nat -> seq<Op>) returns (done: bool, ghost course: seq<Moment>)
      requires Valid() && current == null
      modifies this, heap, members
      ensures Valid() && Continued()
      ensures IsScan(course, old(now), scripts)
      ensures course[0] == Moment(old(view), old(now)) && course[|course| - 1] == Moment(view, now)
      ensures done <==> Due(view, old(now)) == {}
      ensures !done ==> |course| == limit + 1
    {
      var scanTime := now;
      var k: nat := 0;
      course := [Moment(view, now)];
      while len > 0 && heap[0].expireAt <= scanTime
        invariant Valid() && Continued() && k <= limit
        invariant IsScan(course, scanTime, scripts) && |course| == k + 1
        invariant course[0] == Moment(old(view), old(now)) && course[k] == Moment(view, now)
        decreases limit - k
      {
        if k == limit {
          FirstIsLeast();
          assert heap[0].hash in Due(view, scanTime);
          return false, course;
        }
        Round(scripts(k), scanTime);
        AppendRound(course, Moment(view, now), scanTime, scripts);
        course := course + [Moment(view, now)];
        k := k + 1;
      }
      NothingDue(scanTime);
      return true, course;
    }

    /**
     The timer callback. `limit` bounds the rounds, so that scripts which keep adding due items are
     covered too: `done` says the loop reached its own end. Then nothing is due at the scan time, and
     the timeout is what the earliest deadline leaves of a second, counted from the scan time. The
     timer is armed at the clock after the callbacks, so it is on time exactly if that is still the
     scan time or no deadline is soon.
     */
    method Scan(limit: nat, scripts: nat -> seq<Op>) returns (done: bool, timeout: nat, ghost course: seq<Moment>)
      requires Valid() && current == null
      modifies this, heap, members
      ensures Valid() && Continued()
      ensures IsScan(course, old(now), scripts)
      ensures course[0] == Moment(old(view), old(now)) && course[|course| - 1] == Moment(view, now)
      ensures done <==> Due(view, old(now)) == {}
      ensures limit >= |Due(old(view), old(now))| && AllAddNoDue(scripts, old(now)) ==> done
      ensures done ==> Armed(view, old(now), timeout)
      ensures done ==>
        (OnTime(Moment(view, now), timeout) <==> now == old(now) || NoneSoon(Moment(view, now), old(now)))
      ensures done && NeverTick(scripts) ==> OnTime(Moment(view, now), timeout)
    {
      var scanTime := now;
      done, course := RunRounds(limit, scripts);
      if AllAddNoDue(scripts, scanTime) {
        ScanEnds(course, scanTime, scripts);
      }
      timeout := DEFAULT_TIMEOUT;
      if done {
        timeout := NextTimeout(scanTime);
        ScanTimer(course, scanTime, scripts, timeout);
      }
    }

    /** What is left of a second until the earliest deadline, from the scan time. */
    method NextTimeout(scanTime: nat) returns (timeout: nat)
      requires Valid() && current == null && Due(view, scanTime) == {}
      ensures Armed(view, scanTime, timeout)
    {
      timeout := DEFAULT_TIMEOUT;
      assert forall k :: k in view ==> k !in Due(view, scanTime);
      if len > 0 {
        FirstIsLeast();
        if heap[0].expireAt - scanTime < timeout {
          timeout := heap[0].expireAt - scanTime;
          assert view[heap[0].hash] == scanTime + timeout;
        }
      }
    }

    lemma NothingDue(t: nat)
      requires Valid() && current == null && (len > 0 ==> heap[0].expireAt > t)
      ensures Due(view, t) == {}
    {
      forall k | k in view ensures view[k] > t {
        assert index[k] in members;
        FirstIsLeast();
      }
    }

    /** The first slot holds the least key of the plain table. */
    lemma FirstIsLeast()
      requires Valid() && current == null && len > 0
      ensures heap[0] in members && IsLeast(view, heap[0].hash) && view[heap[0].hash] == heap[0].expireAt
    {
      forall k | k in view && k != heap[0].hash ensures Less(Key(view[heap[0].hash], heap[0].hash), Key(view[k], k)) {
        RootIsLeast(keys, index[k].heapIndex);
        assert keys[index[k].heapIndex] == index[k].KeyOf() && keys[0] == heap[0].KeyOf();
      }
    }

    // -----------------------------------------------------------------------
    // drain

    /** Takes the first item out of both indexes. */
    method Detach() returns (item: Item)
      requires Valid() && current == null && len > 0
      modifies this`len, this`keys, this`members, this`index, this`view, heap, members
      ensures Valid() && view == old(view) - {item.hash} && item == old(heap[0]) && item in old(members)
      ensures members == old(members) - {item} && item.removed && item.table == null
    {
      item := RemoveAt(0);
      Unmap(item);
    }

    /** Old members are still indexed or freed, new ones are new items, and nobody is being expired. */
    twostate predicate Shrunk()
      reads this
    {
      && current == null && (heap == old(heap) || fresh(heap))
      && (forall x :: x in members ==> x in old(members) || fresh(x))
      && old(freed) <= freed && old(members) <= members + freed
    }

    /** The callback of an item that is already out of both indexes, and its free. */
    method DrainItem(item: Item, ops: seq<Op>)
      requires Valid() && current == null && item !in members && item !in freed
      modifies this, heap, members
      ensures Valid() && Shrunk() && item in freed && item !in members
      ensures view == AfterAll(old(view), old(now), ops) && now == ClockAfterAll(old(now), ops)
    {
      RunCallback(ops);
      FreeUnindexed(item);
    }

    /** One round of the drain. */
    method DrainFirst(ops: seq<Op>)
      requires Valid() && current == null && len > 0
      modifies this, heap, members
      ensures Valid() && Shrunk()
      ensures IsDrainStep(Moment(old(view), old(now)), Moment(view, now), ops)
    {
      FirstIsLeast();
      var item := Detach();
      DrainItem(item, ops);
    }

    /**
     Worker shutdown: items leave both indexes, have their callbacks run, and are freed, those the
     callbacks create included. `limit` bounds the rounds; `done` says the loop reached its own end.
     */
    method Drain(limit: nat, scripts: nat -> seq<Op>) returns (done: bool, ghost course: seq<Moment>)
      requires Valid() && current == null
      modifies this, heap, members
      ensures Valid() && Shrunk()
      ensures IsDrain(course, scripts)
      ensures course[0] == Moment(old(view), old(now)) && course[|course| - 1] == Moment(view, now)
      ensures done ==> members == {} && index == map[] && view == map[] && old(members) <= freed
      ensures limit >= |old(view.Keys)| && NoneCreate(scripts) ==> done
    {
      var k: nat := 0;
      course := [Moment(view, now)];
      while len > 0
        invariant Valid() && Shrunk() && k <= limit
        invariant IsDrain(course, scripts) && |course| == k + 1
        invariant course[0] == Moment(old(view), old(now)) && course[k] == Moment(view, now)
        decreases limit - k
      {
        if k == limit {
          FirstIsLeast();
          if NoneCreate(scripts) {
            DrainCounts(course, scripts, k);
          }
          return false, course;
        }
        DrainFirst(scripts(k));
        AppendDrainStep(course, Moment(view, now), scripts);
        course := course + [Moment(view, now)];
        k := k + 1;
      }
      assert members == {};
      assert forall key :: key !in index;
      assert view == map[];
      return true, course;
    }
  }

  /** A table at 1000 with one item due and another due at 1100. */
  method TwoItems() returns (table: Table)
    ensures table.Valid() && table.current == null && table.now == 1000
    ensures fresh(table) && fresh(table.heap) && fresh(table.members)
    ensures table.view == map[1 := 1000, 2 := 1100]
  {
    table := new Table(1000);
    var first := table.CreateItem(1, 0);
    var second := table.CreateItem(2, 100);
  }

  /**
   A late timer: the scan at 1000 finds one key due, its callback lets the clock advance by 500, and
   the other key is due at 1100. The timer is armed for at most 100 ms, but after 1000.
   */
  method LateTimer() returns (table: Table, done: bool, timeout: nat)
    ensures table.Valid() && done && timeout <= 100 && table.now > 1000
    ensures 2 in table.view && table.view[2] == 1100 && !OnTime(Moment(table.view, table.now), timeout)
  {
    table := TwoItems();
    ghost var course;
    assert Due(table.view, 1000) == {1};
    OneTickQuiet(1000);
    done, timeout, course := table.Scan(1, OneTick);
    assert 1 in course[0].view && 2 in course[0].view;
    TicksMakeLate(course, 1000, OneTick, timeout, 2);
  }

  function OneTick(k: nat): seq<Op> { [Tick(500)] }

  lemma OneTickQuiet(t: nat)
    ensures AlwaysTick(OneTick) && AllAddNoDue(OneTick, t)
  {
    assert OneTick(0)[1..] == [];
  }
}
