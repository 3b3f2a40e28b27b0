/**
 The order of the worker-local expiration heap on plain sequences of keys: what a swap on the way
 up or down keeps, and what a heap says about its root.
 */
module HeapOrder {

  /** Items are ordered by deadline, then by hash; hashes are unique in a table. */
  datatype Key = Key(deadline: nat, hash: nat)

  predicate Less(a: Key, b: Key) {
    if a.deadline != b.deadline then a.deadline < b.deadline else a.hash < b.hash
  }

  function Parent(i: nat): nat
    requires i > 0
  {
    (i - 1) / 2
  }

  /** The pair of a slot and its parent is in order. */
  predicate Ordered(ks: seq<Key>, i: nat)
    requires 0 < i < |ks|
  {
    !Less(ks[i], ks[Parent(i)])
  }

  ghost predicate IsHeap(ks: seq<Key>) {
    forall i :: 0 < i < |ks| ==> Ordered(ks, i)
  }

  /** A heap but for slot k, which may be too small for its place. */
  ghost predicate HeapButUp(ks: seq<Key>, k: nat)
    requires k < |ks|
  {
    && (forall i :: 0 < i < |ks| && i != k ==> Ordered(ks, i))
    && (k > 0 ==> forall i :: 0 < i < |ks| && Parent(i) == k ==> !Less(ks[i], ks[Parent(k)]))
  }

  /** A heap but for slot k, which may be too large for its place. */
  ghost predicate HeapButDown(ks: seq<Key>, k: nat)
    requires k < |ks|
  {
    && (forall i :: 0 < i < |ks| && Parent(i) != k ==> Ordered(ks, i))
    && (k > 0 ==> forall i :: 0 < i < |ks| && Parent(i) == k ==> !Less(ks[i], ks[Parent(k)]))
  }

  function Swapped(ks: seq<Key>, i: nat, j: nat): seq<Key>
    requires i < |ks| && j < |ks|
  {
    ks[i := ks[j]][j := ks[i]]
  }

  lemma UpStep(ks: seq<Key>, k: nat)
    requires 0 < k < |ks| && HeapButUp(ks, k) && Less(ks[k], ks[Parent(k)])
    ensures HeapButUp(Swapped(ks, k, Parent(k)), Parent(k))
  {
    var p := Parent(k);
    var ks' := Swapped(ks, k, p);
    forall i | 0 < i < |ks'| && i != p ensures Ordered(ks', i) {
      if i != k {
        assert Ordered(ks, i);
      }
    }
    if p > 0 {
      assert Ordered(ks, p);
      forall i | 0 < i < |ks'| && Parent(i) == p ensures !Less(ks'[i], ks'[Parent(p)]) {
        if i != k {
          assert Ordered(ks, i);
        }
      }
    }
  }

  lemma UpDone(ks: seq<Key>, k: nat)
    requires k < |ks| && HeapButUp(ks, k) && (k > 0 ==> !Less(ks[k], ks[Parent(k)]))
    ensures IsHeap(ks)
  {
    forall i | 0 < i < |ks| ensures Ordered(ks, i) {
    }
  }

  /** c is the smaller child of k. */
  ghost predicate SmallerChild(ks: seq<Key>, k: nat, c: nat) {
    && 0 < c < |ks| && Parent(c) == k
    && forall i :: 0 < i < |ks| && Parent(i) == k ==> !Less(ks[i], ks[c])
  }

  function SmallestChild(ks: seq<Key>, k: nat): nat
    requires 2 * k + 1 < |ks|
  {
    if 2 * k + 2 < |ks| && Less(ks[2 * k + 2], ks[2 * k + 1]) then 2 * k + 2 else 2 * k + 1
  }

  /** The children of k are the slots 2k + 1 and 2k + 2, as far as they exist. */
  lemma ChildrenOf(ks: seq<Key>, k: nat)
    requires k < |ks|
    ensures 2 * k + 1 < |ks| ==> SmallerChild(ks, k, SmallestChild(ks, k))
    ensures 2 * k + 1 >= |ks| ==> forall i :: 0 < i < |ks| ==> Parent(i) != k
  {
    assert forall i :: 0 < i < |ks| && Parent(i) == k ==> i == 2 * k + 1 || i == 2 * k + 2;
  }

  lemma DownStep(ks: seq<Key>, k: nat, c: nat)
    requires k < |ks| && HeapButDown(ks, k) && SmallerChild(ks, k, c) && Less(ks[c], ks[k])
    ensures HeapButDown(Swapped(ks, k, c), c)
  {
    var ks' := Swapped(ks, k, c);
    forall i | 0 < i < |ks'| && Parent(i) != c ensures Ordered(ks', i) {
      if Parent(i) != k && i != k {
        assert Ordered(ks, i);
      }
    }
    forall i | 0 < i < |ks'| && Parent(i) == c ensures !Less(ks'[i], ks'[Parent(c)]) {
      assert Ordered(ks, i);
    }
  }

  lemma DownDone(ks: seq<Key>, k: nat)
    requires k < |ks| && HeapButDown(ks, k)
    requires forall i :: 0 < i < |ks| && Parent(i) == k ==> !Less(ks[i], ks[k])
    ensures IsHeap(ks)
  {
    forall i | 0 < i < |ks| ensures Ordered(ks, i) {
    }
  }

  /** Going down from k: either its smaller child moves up, or the heap is repaired. */
  lemma DownOnce(ks: seq<Key>, k: nat)
    requires k < |ks| && HeapButDown(ks, k)
    ensures if 2 * k + 1 < |ks| && Less(ks[SmallestChild(ks, k)], ks[k])
            then HeapButDown(Swapped(ks, k, SmallestChild(ks, k)), SmallestChild(ks, k))
            else IsHeap(ks)
  {
    ChildrenOf(ks, k);
    if 2 * k + 1 < |ks| && Less(ks[SmallestChild(ks, k)], ks[k]) {
      DownStep(ks, k, SmallestChild(ks, k));
    } else {
      DownDone(ks, k);
    }
  }

  /** The root is at or before every key. */
  lemma {:induction false} RootIsLeast(ks: seq<Key>, i: nat)
    requires IsHeap(ks) && i < |ks|
    ensures !Less(ks[i], ks[0])
    decreases i
  {
    if i > 0 {
      assert Ordered(ks, i);
      RootIsLeast(ks, Parent(i));
    }
  }

  /** Adding a key at the end leaves only that slot to sift up. */
  lemma PushOrder(ks: seq<Key>, key: Key)
    requires IsHeap(ks)
    ensures HeapButUp(ks + [key], |ks|)
  {
    forall i | 0 < i < |ks + [key]| && i != |ks| ensures Ordered(ks + [key], i) {
      assert Ordered(ks, i);
    }
  }

  lemma PrefixOrder(ks: seq<Key>, n: nat)
    requires IsHeap(ks) && n <= |ks|
    ensures IsHeap(ks[..n])
  {
    forall i | 0 < i < n ensures Ordered(ks[..n], i) {
      assert Ordered(ks, i);
    }
  }

  /** Sifting up or down, whichever the parent asks for, is enough to repair slot k. */
  ghost predicate HeapButEither(ks: seq<Key>, k: nat)
    requires k < |ks|
  {
    && (k > 0 && Less(ks[k], ks[Parent(k)]) ==> HeapButUp(ks, k))
    && (k == 0 || !Less(ks[k], ks[Parent(k)]) ==> HeapButDown(ks, k))
  }

  /** The last key moved into slot k. */
  function Replaced(ks: seq<Key>, k: nat): seq<Key>
    requires k < |ks|
  {
    ks[k := ks[|ks| - 1]][..|ks| - 1]
  }

  /** Moving the last key into slot k leaves only that slot to sift, up or down. */
  lemma ReplaceOrder(ks: seq<Key>, k: nat)
    requires IsHeap(ks) && k < |ks| - 1
    ensures HeapButEither(Replaced(ks, k), k)
  {
    var ks' := Replaced(ks, k);
    forall i | 0 < i < |ks'| && Parent(i) != k && i != k ensures Ordered(ks', i) {
      assert Ordered(ks, i);
    }
    if k > 0 {
      assert Ordered(ks, k);
      forall i | 0 < i < |ks'| && Parent(i) == k ensures !Less(ks'[i], ks'[Parent(k)]) {
        assert Ordered(ks, i);
      }
      if Less(ks'[k], ks'[Parent(k)]) {
        forall i | 0 < i < |ks'| && Parent(i) == k ensures Ordered(ks', i) {
          assert Ordered(ks, i);
        }
      }
    }
  }

  /** A later deadline at slot k leaves only that slot to sift down. */
  lemma LaterOrder(ks: seq<Key>, k: nat, key: Key)
    requires IsHeap(ks) && k < |ks| && Less(ks[k], key)
    ensures HeapButDown(ks[k := key], k)
  {
    var ks' := ks[k := key];
    forall i | 0 < i < |ks'| && Parent(i) != k ensures Ordered(ks', i) {
      assert Ordered(ks, i);
    }
    if k > 0 {
      assert Ordered(ks, k);
      forall i | 0 < i < |ks'| && Parent(i) == k ensures !Less(ks'[i], ks'[Parent(k)]) {
        assert Ordered(ks, i);
      }
    }
  }
}
