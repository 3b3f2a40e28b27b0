/**
 What the worker-local idle table of ww/base/local_widle_table.c means to its users, without heap,
 back-pointers or items: a deadline for every key, operations on it, and the expiry of keys in order.
 */
module PlainIdleTable {
  import opened HeapOrder

  const UINT64_MAX: nat := 0xFFFF_FFFF_FFFF_FFFF
  const DEFAULT_TIMEOUT: nat := 1000

  type Plain = map<nat, nat>

  /** What a callback may do: use the table, or let the clock advance. */
  datatype Op = CreateOp(key: nat, age: nat) | KeepOp(key: nat, age: nat) | RemoveOp(key: nat) | Tick(ms: nat)

  /** An age from now, saturating instead of wrapping. */
  function DeadlineFromAge(now: nat, age: nat): (d: nat)
    ensures d == if now + age <= UINT64_MAX then now + age else UINT64_MAX
  {
    if now <= UINT64_MAX && age <= UINT64_MAX - now then now + age else UINT64_MAX
  }

  function Created(view: Plain, clock: nat, key: nat, age: nat): Plain {
    if key in view then view else view[key := DeadlineFromAge(clock, age)]
  }

  function Kept(view: Plain, clock: nat, key: nat, age: nat): Plain {
    if key in view && DeadlineFromAge(clock, age) > view[key] then view[key := DeadlineFromAge(clock, age)] else view
  }

  function AfterOp(view: Plain, clock: nat, op: Op): Plain {
    match op
    case CreateOp(key, age) => Created(view, clock, key, age)
    case KeepOp(key, age) => Kept(view, clock, key, age)
    case RemoveOp(key) => view - {key}
    case Tick(ms) => view
  }

  function ClockAfter(clock: nat, op: Op): nat { if op.Tick? then clock + op.ms else clock }

  function AfterAll(view: Plain, clock: nat, ops: seq<Op>): Plain
    decreases |ops|
  {
    if ops == [] then view else AfterAll(AfterOp(view, clock, ops[0]), ClockAfter(clock, ops[0]), ops[1..])
  }

  function ClockAfterAll(clock: nat, ops: seq<Op>): nat
    decreases |ops|
  {
    if ops == [] then clock else ClockAfterAll(ClockAfter(clock, ops[0]), ops[1..])
  }

  /** The callback leaves its own key in the table, with a deadline that is new and lies ahead. */
  predicate Extends(view: Plain, clock: nat, key: nat, ops: seq<Op>) {
    var after := AfterAll(view, clock, ops);
    && RemoveOp(key) !in ops && key in view && key in after
    && after[key] != view[key] && after[key] > ClockAfterAll(clock, ops)
  }

  /** One expiry: the callback runs with its key still in the table, which then goes unless it was extended. */
  function Expired(view: Plain, clock: nat, key: nat, ops: seq<Op>): Plain {
    var after := AfterAll(view, clock, ops);
    if RemoveOp(key) in ops || Extends(view, clock, key, ops) then after else after - {key}
  }

  /** The key with the earliest deadline, the smaller key winning a tie. */
  ghost predicate IsLeast(view: Plain, key: nat) {
    key in view && forall k :: k in view ==> Less(Key(view[key], key), Key(view[k], k)) || k == key
  }

  ghost function Due(view: Plain, t: nat): set<nat> { set k | k in view && view[k] <= t }

  datatype Moment = Moment(view: Plain, clock: nat)

  /** One round of a scan at time t: the least key is due and expires. */
  ghost predicate IsRound(a: Moment, b: Moment, t: nat, ops: seq<Op>) {
    exists k {:trigger IsLeast(a.view, k)} :: IsLeast(a.view, k) && a.view[k] <= t &&
      b == Moment(Expired(a.view, a.clock, k, ops), ClockAfterAll(a.clock, ops))
  }

  ghost predicate RoundAt(course: seq<Moment>, t: nat, scripts: nat -> seq<Op>, i: nat)
    requires i + 1 < |course|
  {
    IsRound(course[i], course[i + 1], t, scripts(i))
  }

  /** A scan whose i-th callback is the i-th script. */
  ghost predicate IsScan(course: seq<Moment>, t: nat, scripts: nat -> seq<Op>) {
    course != [] && forall i: nat :: i + 1 < |course| ==> RoundAt(course, t, scripts, i)
  }

  /** One round of a drain: the least key goes first, then its callback runs. */
  ghost predicate IsDrainStep(a: Moment, b: Moment, ops: seq<Op>) {
    exists k {:trigger IsLeast(a.view, k)} :: IsLeast(a.view, k) &&
      b == Moment(AfterAll(a.view - {k}, a.clock, ops), ClockAfterAll(a.clock, ops))
  }

  ghost predicate DrainStepAt(course: seq<Moment>, scripts: nat -> seq<Op>, i: nat)
    requires i + 1 < |course|
  {
    IsDrainStep(course[i], course[i + 1], scripts(i))
  }

  ghost predicate IsDrain(course: seq<Moment>, scripts: nat -> seq<Op>) {
    course != [] && forall i: nat :: i + 1 < |course| ==> DrainStepAt(course, scripts, i)
  }

  lemma AppendRound(course: seq<Moment>, next: Moment, t: nat, scripts: nat -> seq<Op>)
    requires IsScan(course, t, scripts) && IsRound(course[|course| - 1], next, t, scripts(|course| - 1))
    ensures IsScan(course + [next], t, scripts)
  {
    var longer := course + [next];
    forall i: nat | i + 1 < |longer| ensures RoundAt(longer, t, scripts, i) {
      if i + 1 < |course| {
        assert RoundAt(course, t, scripts, i);
      }
    }
  }

  lemma AppendDrainStep(course: seq<Moment>, next: Moment, scripts: nat -> seq<Op>)
    requires IsDrain(course, scripts) && IsDrainStep(course[|course| - 1], next, scripts(|course| - 1))
    ensures IsDrain(course + [next], scripts)
  {
    var longer := course + [next];
    forall i: nat | i + 1 < |longer| ensures DrainStepAt(longer, scripts, i) {
      if i + 1 < |course| {
        assert DrainStepAt(course, scripts, i);
      }
    }
  }

  // -------------------------------------------------------------------------
  // one callback

  predicate Mentions(op: Op, key: nat) { !op.Tick? && op.key == key }

  ghost predicate Silent(ops: seq<Op>, key: nat) { forall i :: 0 <= i < |ops| ==> !Mentions(ops[i], key) }

  /** No key the script creates, starting at this clock, is already due at t. */
  ghost predicate AddsNoDue(ops: seq<Op>, clock: nat, t: nat)
    decreases |ops|
  {
    ops == [] ||
    ((ops[0].CreateOp? ==> DeadlineFromAge(clock, ops[0].age) > t) && AddsNoDue(ops[1..], ClockAfter(clock, ops[0]), t))
  }

  ghost predicate NoTick(ops: seq<Op>) { forall i :: 0 <= i < |ops| ==> !ops[i].Tick? }

  /** Nothing but clock ticks, and at least one that shows. */
  ghost predicate Ticks(ops: seq<Op>) {
    ops != [] && ops[0].Tick? && ops[0].ms > 0 && forall i :: 0 <= i < |ops| ==> ops[i].Tick?
  }

  ghost predicate CreatesNothing(ops: seq<Op>) { forall i :: 0 <= i < |ops| ==> !ops[i].CreateOp? }

  lemma {:induction false} ClockGrows(clock: nat, ops: seq<Op>)
    ensures ClockAfterAll(clock, ops) >= clock
    ensures NoTick(ops) ==> ClockAfterAll(clock, ops) == clock
    ensures Ticks(ops) ==> ClockAfterAll(clock, ops) > clock
    decreases |ops|
  {
    if ops != [] {
      ClockGrows(ClockAfter(clock, ops[0]), ops[1..]);
    }
  }

  /** A script that does not name a key leaves it as it is. */
  lemma {:induction false} SilentLeaves(view: Plain, clock: nat, ops: seq<Op>, key: nat)
    requires Silent(ops, key)
    ensures key in AfterAll(view, clock, ops) <==> key in view
    ensures key in view ==> AfterAll(view, clock, ops)[key] == view[key]
    decreases |ops|
  {
    if ops != [] {
      var next := AfterOp(view, clock, ops[0]);
      assert !Mentions(ops[0], key);
      assert key in next <==> key in view;
      SilentLeaves(next, ClockAfter(clock, ops[0]), ops[1..], key);
    }
  }

  /** Without a removal a key stays, and its deadline never comes nearer. */
  lemma {:induction false} StaysAndGrows(view: Plain, clock: nat, ops: seq<Op>, key: nat)
    requires key in view && RemoveOp(key) !in ops
    ensures key in AfterAll(view, clock, ops) && AfterAll(view, clock, ops)[key] >= view[key]
    decreases |ops|
  {
    if ops != [] {
      assert ops[0] != RemoveOp(key);
      var next := AfterOp(view, clock, ops[0]);
      assert key in next && next[key] >= view[key];
      StaysAndGrows(next, ClockAfter(clock, ops[0]), ops[1..], key);
    }
  }

  /** A due key whose callback does not remove it stays exactly if its deadline is past the clock in the end. */
  lemma ExtendedStays(view: Plain, clock: nat, key: nat, ops: seq<Op>)
    requires key in view && view[key] <= clock && RemoveOp(key) !in ops
    ensures key in AfterAll(view, clock, ops)
    ensures key in Expired(view, clock, key, ops) <==> AfterAll(view, clock, ops)[key] > ClockAfterAll(clock, ops)
    ensures key in Expired(view, clock, key, ops) ==>
      Expired(view, clock, key, ops)[key] == AfterAll(view, clock, ops)[key]
  {
    StaysAndGrows(view, clock, ops, key);
    ClockGrows(clock, ops);
  }

  /** A callback that only keeps its own item alive: the item stays, due that much later, unless the age is zero. */
  lemma KeepAlive(view: Plain, clock: nat, key: nat, age: nat)
    requires key in view && view[key] <= clock && clock + age <= UINT64_MAX
    ensures Expired(view, clock, key, [KeepOp(key, age)]) ==
            if age > 0 then view[key := clock + age] else view - {key}
  {
    var ops := [KeepOp(key, age)];
    assert ops[1..] == [];
    assert AfterAll(view, clock, ops) == Kept(view, clock, key, age) && ClockAfterAll(clock, ops) == clock;
    assert RemoveOp(key) !in ops;
    assert Kept(view, clock, key, age) - {key} == view - {key};
  }

  /** A callback that does nothing to its own key lets it go, and only it. */
  lemma SilentExpires(view: Plain, clock: nat, key: nat, ops: seq<Op>)
    requires Silent(ops, key)
    ensures Expired(view, clock, key, ops) == AfterAll(view, clock, ops) - {key}
  {
    SilentLeaves(view, clock, ops, key);
    assert Mentions(RemoveOp(key), key);
  }

  /** A key that is not due, or that the script removes, is not due afterwards. */
  lemma {:induction false} StaysNotDue(view: Plain, clock: nat, ops: seq<Op>, key: nat, t: nat)
    requires AddsNoDue(ops, clock, t) && ((key in view ==> view[key] > t) || RemoveOp(key) in ops)
    ensures key in AfterAll(view, clock, ops) ==> AfterAll(view, clock, ops)[key] > t
    decreases |ops|
  {
    if ops != [] {
      var next := AfterOp(view, clock, ops[0]);
      assert ops[0] == RemoveOp(key) ==> key !in next;
      assert RemoveOp(key) in ops ==> ops[0] == RemoveOp(key) || RemoveOp(key) in ops[1..];
      StaysNotDue(next, ClockAfter(clock, ops[0]), ops[1..], key, t);
    }
  }

  /** An expiry whose callback adds nothing due leaves one due key less, at least. */
  lemma DueShrinks(view: Plain, clock: nat, key: nat, ops: seq<Op>, t: nat)
    requires key in view && view[key] <= t <= clock && AddsNoDue(ops, clock, t)
    ensures Due(Expired(view, clock, key, ops), t) <= Due(view, t) - {key}
    ensures |Due(Expired(view, clock, key, ops), t)| < |Due(view, t)|
  {
    var after := Expired(view, clock, key, ops);
    ClockGrows(clock, ops);
    forall k | k in after && (k == key || k !in Due(view, t)) ensures after[k] > t {
      if k != key || RemoveOp(key) in ops {
        StaysNotDue(view, clock, ops, k, t);
      }
    }
    SubsetSize(Due(after, t), Due(view, t) - {key});
    assert key in Due(view, t);
  }

  lemma SubsetSize<T>(a: set<T>, b: set<T>)
    requires a <= b
    ensures |a| <= |b|
  {
    assert b == a + (b - a);
  }

  lemma {:induction false} KeysShrink(view: Plain, clock: nat, ops: seq<Op>)
    requires CreatesNothing(ops)
    ensures AfterAll(view, clock, ops).Keys <= view.Keys
    decreases |ops|
  {
    if ops != [] {
      assert !ops[0].CreateOp?;
      KeysShrink(AfterOp(view, clock, ops[0]), ClockAfter(clock, ops[0]), ops[1..]);
    }
  }

  // -------------------------------------------------------------------------
  // whole scans and drains

  ghost predicate AllSilent(scripts: nat -> seq<Op>, key: nat) { forall i: nat :: Silent(scripts(i), key) }

  /** From one view to a later one a key keeps its deadline, and goes only if it is due at t. */
  ghost predicate Leaves(before: Plain, after: Plain, t: nat, key: nat) {
    && (key in after ==> key in before && after[key] == before[key])
    && (key in before && before[key] > t ==> key in after)
  }

  /** A round that does not name a key takes it only if it is due, and changes nothing else about it. */
  lemma RoundLeaves(course: seq<Moment>, t: nat, scripts: nat -> seq<Op>, key: nat, i: nat)
    requires i + 1 < |course| && RoundAt(course, t, scripts, i) && Silent(scripts(i), key)
    ensures Leaves(course[i].view, course[i + 1].view, t, key)
  {
    var a, b, ops := course[i], course[i + 1], scripts(i);
    var k :| IsLeast(a.view, k) && a.view[k] <= t &&
      b == Moment(Expired(a.view, a.clock, k, ops), ClockAfterAll(a.clock, ops));
    SilentLeaves(a.view, a.clock, ops, key);
  }

  /** What no callback of a scan names is there in the end exactly if it was there and was not due. */
  lemma {:induction false} ScanExact(course: seq<Moment>, t: nat, scripts: nat -> seq<Op>, key: nat)
    requires IsScan(course, t, scripts) && AllSilent(scripts, key)
    requires var last := course[|course| - 1].view; forall k :: k in last ==> last[k] > t
    ensures var first, last := course[0].view, course[|course| - 1].view;
      && (key in last <==> key in first && first[key] > t)
      && (key in last ==> last[key] == first[key])
  {
    ScanLeaves(course, t, scripts, key, |course| - 1);
  }

  lemma {:induction false} ScanLeaves(course: seq<Moment>, t: nat, scripts: nat -> seq<Op>, key: nat, n: nat)
    requires IsScan(course, t, scripts) && AllSilent(scripts, key) && n < |course|
    ensures Leaves(course[0].view, course[n].view, t, key)
  {
    if n > 0 {
      ScanLeaves(course, t, scripts, key, n - 1);
      RoundLeaves(course, t, scripts, key, n - 1);
    }
  }

  /** Every key but a live one of our own comes after the bound. */
  ghost predicate Above(view: Plain, key: nat, live: bool, bound: Key) {
    forall k :: k in view && !(live && k == key) ==> Less(bound, Key(view[k], k))
  }

  lemma AboveStep(view: Plain, clock: nat, op: Op, key: nat, live: bool, bound: Key, t: nat)
    requires Above(view, key, live, bound) && bound.deadline <= t && (live ==> key in view)
    requires op.CreateOp? ==> DeadlineFromAge(clock, op.age) > t
    ensures Above(AfterOp(view, clock, op), key, live && op != RemoveOp(key), bound)
    ensures live && op != RemoveOp(key) ==> key in AfterOp(view, clock, op)
  {
    var next := AfterOp(view, clock, op);
    forall k | k in next && !(live && op != RemoveOp(key) && k == key) ensures Less(bound, Key(next[k], k)) {
      if k in view {
        assert next[k] >= view[k] && (live ==> k != key);
        assert Less(bound, Key(view[k], k));
      }
    }
  }

  /** A script that adds nothing due puts no key before the one being expired. */
  lemma {:induction false} AboveAll(view: Plain, clock: nat, ops: seq<Op>, key: nat, live: bool, bound: Key, t: nat)
    requires Above(view, key, live, bound) && bound.deadline <= t && (live ==> key in view)
    requires AddsNoDue(ops, clock, t)
    ensures Above(AfterAll(view, clock, ops), key, live && RemoveOp(key) !in ops, bound)
    decreases |ops|
  {
    if ops != [] {
      AboveStep(view, clock, ops[0], key, live, bound, t);
      AboveAll(AfterOp(view, clock, ops[0]), ClockAfter(clock, ops[0]), ops[1..], key,
               live && ops[0] != RemoveOp(key), bound, t);
      assert RemoveOp(key) in ops <==> ops[0] == RemoveOp(key) || RemoveOp(key) in ops[1..];
    }
  }

  /** After an expiry every key left, the expired one included if it is back, comes later in the order. */
  lemma ExpiryAdvances(view: Plain, clock: nat, key: nat, ops: seq<Op>, t: nat)
    requires IsLeast(view, key) && view[key] <= t <= clock && AddsNoDue(ops, clock, t)
    ensures forall k :: k in Expired(view, clock, key, ops) ==>
      Less(Key(view[key], key), Key(Expired(view, clock, key, ops)[k], k))
  {
    AboveAll(view, clock, ops, key, true, Key(view[key], key), t);
    ClockGrows(clock, ops);
  }

  /** Every key of the view comes after the bound. */
  ghost predicate After(view: Plain, bound: Key) { forall k :: k in view ==> Less(bound, Key(view[k], k)) }

  /** None of the callbacks of a scan creates a key that is already due. */
  ghost predicate Quiet(course: seq<Moment>, t: nat, scripts: nat -> seq<Op>) {
    forall i :: 0 <= i < |course| ==> course[i].clock >= t && AddsNoDue(scripts(i), course[i].clock, t)
  }

  lemma RoundAdvances(course: seq<Moment>, t: nat, scripts: nat -> seq<Op>, i: nat) returns (key: nat)
    requires i + 1 < |course| && RoundAt(course, t, scripts, i) && Quiet(course, t, scripts)
    ensures IsLeast(course[i].view, key) && After(course[i + 1].view, Key(course[i].view[key], key))
  {
    var a, b, ops := course[i], course[i + 1], scripts(i);
    key :| IsLeast(a.view, key) && a.view[key] <= t &&
      b == Moment(Expired(a.view, a.clock, key, ops), ClockAfterAll(a.clock, ops));
    ExpiryAdvances(a.view, a.clock, key, ops, t);
  }

  lemma OneLeast(view: Plain, key: nat, other: nat)
    requires IsLeast(view, key) && IsLeast(view, other)
    ensures key == other
  {
  }

  lemma AfterTrans(view: Plain, bound: Key, later: Key)
    requires After(view, later) && Less(bound, later)
    ensures After(view, bound)
  {
  }

  /**
   A scan takes keys in the order of their deadlines: whatever is in the table after the round that
   took a key, that key again included, comes after it.
   */
  lemma {:induction false} ScanInOrder(course: seq<Moment>, t: nat, scripts: nat -> seq<Op>, i: nat, j: nat, key: nat)
    requires IsScan(course, t, scripts) && Quiet(course, t, scripts) && i < j < |course|
    requires IsLeast(course[i].view, key)
    ensures After(course[j].view, Key(course[i].view[key], key))
    decreases j
  {
    var least := RoundAdvances(course, t, scripts, j - 1);
    if i < j - 1 {
      ScanInOrder(course, t, scripts, i, j - 1, key);
      AfterTrans(course[j].view, Key(course[i].view[key], key), Key(course[j - 1].view[least], least));
    } else {
      OneLeast(course[i].view, key, least);
    }
  }

  // -------------------------------------------------------------------------
  // how long scans and drains take

  ghost predicate AllAddNoDue(scripts: nat -> seq<Op>, t: nat) {
    forall k: nat, clock: nat :: clock >= t ==> AddsNoDue(scripts(k), clock, t)
  }

  ghost predicate NeverTick(scripts: nat -> seq<Op>) { forall k: nat :: NoTick(scripts(k)) }

  ghost predicate AlwaysTick(scripts: nat -> seq<Op>) { forall k: nat :: Ticks(scripts(k)) }

  ghost predicate NoneCreate(scripts: nat -> seq<Op>) { forall k: nat :: CreatesNothing(scripts(k)) }

  lemma RoundClock(course: seq<Moment>, t: nat, scripts: nat -> seq<Op>, i: nat)
    requires i + 1 < |course| && RoundAt(course, t, scripts, i)
    ensures course[i + 1].clock == ClockAfterAll(course[i].clock, scripts(i))
  {
  }

  lemma {:induction false} ScanClock(course: seq<Moment>, t: nat, scripts: nat -> seq<Op>, n: nat)
    requires IsScan(course, t, scripts) && n < |course|
    ensures course[n].clock >= course[0].clock
    ensures NeverTick(scripts) ==> course[n].clock == course[0].clock
    ensures AlwaysTick(scripts) && n > 0 ==> course[n].clock > course[0].clock
  {
    if n > 0 {
      ScanClock(course, t, scripts, n - 1);
      RoundClock(course, t, scripts, n - 1);
      ClockGrows(course[n - 1].clock, scripts(n - 1));
    }
  }

  lemma QuietScan(course: seq<Moment>, t: nat, scripts: nat -> seq<Op>)
    requires IsScan(course, t, scripts) && course[0].clock >= t && AllAddNoDue(scripts, t)
    ensures Quiet(course, t, scripts)
  {
    forall i | 0 <= i < |course| ensures course[i].clock >= t && AddsNoDue(scripts(i), course[i].clock, t) {
      ScanClock(course, t, scripts, i);
    }
  }

  lemma RoundDue(course: seq<Moment>, t: nat, scripts: nat -> seq<Op>, i: nat)
    requires i + 1 < |course| && RoundAt(course, t, scripts, i) && Quiet(course, t, scripts)
    ensures |Due(course[i + 1].view, t)| < |Due(course[i].view, t)|
  {
    var a, b, ops := course[i], course[i + 1], scripts(i);
    var key :| IsLeast(a.view, key) && a.view[key] <= t &&
      b == Moment(Expired(a.view, a.clock, key, ops), ClockAfterAll(a.clock, ops));
    DueShrinks(a.view, a.clock, key, ops, t);
  }

  lemma {:induction false} DueCounts(course: seq<Moment>, t: nat, scripts: nat -> seq<Op>, n: nat)
    requires IsScan(course, t, scripts) && Quiet(course, t, scripts) && n < |course|
    ensures |Due(course[n].view, t)| + n <= |Due(course[0].view, t)|
  {
    if n > 0 {
      DueCounts(course, t, scripts, n - 1);
      RoundDue(course, t, scripts, n - 1);
    }
  }

  /** A scan whose callbacks add nothing due has at most as many rounds as there are keys due. */
  lemma ScanEnds(course: seq<Moment>, t: nat, scripts: nat -> seq<Op>)
    requires IsScan(course, t, scripts) && course[0].clock >= t && AllAddNoDue(scripts, t)
    ensures |Due(course[|course| - 1].view, t)| + |course| - 1 <= |Due(course[0].view, t)|
  {
    QuietScan(course, t, scripts);
    DueCounts(course, t, scripts, |course| - 1);
  }

  lemma DrainStepShrinks(course: seq<Moment>, scripts: nat -> seq<Op>, i: nat)
    requires i + 1 < |course| && IsDrain(course, scripts) && NoneCreate(scripts)
    ensures |course[i + 1].view.Keys| < |course[i].view.Keys|
  {
    var a, b, ops := course[i], course[i + 1], scripts(i);
    assert DrainStepAt(course, scripts, i);
    var key :| IsLeast(a.view, key) &&
      b == Moment(AfterAll(a.view - {key}, a.clock, ops), ClockAfterAll(a.clock, ops));
    KeysShrink(a.view - {key}, a.clock, ops);
    SubsetSize(b.view.Keys, a.view.Keys - {key});
    assert key in a.view.Keys;
  }

  /** A drain whose callbacks create nothing has at most as many rounds as there are keys. */
  lemma {:induction false} DrainCounts(course: seq<Moment>, scripts: nat -> seq<Op>, n: nat)
    requires IsDrain(course, scripts) && n < |course| && NoneCreate(scripts)
    ensures |course[n].view.Keys| + n <= |course[0].view.Keys|
  {
    if n > 0 {
      DrainCounts(course, scripts, n - 1);
      DrainStepShrinks(course, scripts, n - 1);
    }
  }

  // -------------------------------------------------------------------------
  // the timer

  /**
   When a timer armed at `now` fires: wtimerReset takes timers of whole tenths of a second, from one
   second on, down to a tenth of a second.
   */
  function FiresAt(now: nat, timeout: nat): nat {
    if timeout >= 1000 && timeout % 100 == 0 then (now + timeout) / 100 * 100 else now + timeout
  }

  /** The timeout is what the earliest deadline leaves of a second from t on. */
  ghost predicate Armed(view: Plain, t: nat, timeout: nat) {
    && 1 <= timeout <= DEFAULT_TIMEOUT && (forall k :: k in view ==> t + timeout <= view[k])
    && (timeout == DEFAULT_TIMEOUT || exists k :: k in view && view[k] == t + timeout)
  }

  /** The timer, armed at the clock as it stands, fires no later than any deadline. */
  ghost predicate OnTime(m: Moment, timeout: nat) {
    forall k :: k in m.view ==> FiresAt(m.clock, timeout) <= m.view[k]
  }

  /** No deadline is within a second of t, nor before a one-second timer armed now fires. */
  ghost predicate NoneSoon(m: Moment, t: nat) {
    forall k :: k in m.view ==> t + DEFAULT_TIMEOUT <= m.view[k] && FiresAt(m.clock, DEFAULT_TIMEOUT) <= m.view[k]
  }

  lemma FiresWithin(now: nat, timeout: nat)
    ensures FiresAt(now, timeout) <= now + timeout
    ensures timeout < DEFAULT_TIMEOUT ==> FiresAt(now, timeout) == now + timeout
  {
  }

  /** A timer armed for what is left from t on is on time exactly if it is still t, or no deadline is soon. */
  lemma TimerExact(m: Moment, t: nat, timeout: nat)
    requires Armed(m.view, t, timeout) && t <= m.clock
    ensures OnTime(m, timeout) <==> m.clock == t || NoneSoon(m, t)
  {
    FiresWithin(m.clock, timeout);
    if timeout != DEFAULT_TIMEOUT {
      var k :| k in m.view && m.view[k] == t + timeout;
      assert m.clock != t ==> FiresAt(m.clock, timeout) > m.view[k];
    }
  }

  /** After a whole scan; callbacks that leave the clock alone never make the timer late. */
  lemma ScanTimer(course: seq<Moment>, t: nat, scripts: nat -> seq<Op>, timeout: nat)
    requires IsScan(course, t, scripts) && course[0].clock == t && Armed(course[|course| - 1].view, t, timeout)
    ensures var last := course[|course| - 1];
      && (OnTime(last, timeout) <==> last.clock == t || NoneSoon(last, t))
      && (NeverTick(scripts) ==> OnTime(last, timeout))
  {
    ScanClock(course, t, scripts, |course| - 1);
    TimerExact(course[|course| - 1], t, timeout);
  }

  /** Callbacks that only let time pass make the timer late for a key that comes due within the second. */
  lemma TicksMakeLate(course: seq<Moment>, t: nat, scripts: nat -> seq<Op>, timeout: nat, key: nat)
    requires IsScan(course, t, scripts) && AlwaysTick(scripts) && |course| > 1 && course[0].clock == t
    requires key in course[0].view && t < course[0].view[key] < t + DEFAULT_TIMEOUT
    requires Armed(course[|course| - 1].view, t, timeout)
    ensures var last := course[|course| - 1];
      last.clock > t && key in last.view && last.view[key] == course[0].view[key] && !OnTime(last, timeout)
  {
    var n := |course| - 1;
    ScanClock(course, t, scripts, n);
    forall i: nat ensures Silent(scripts(i), key) {
      assert Ticks(scripts(i));
    }
    ScanLeaves(course, t, scripts, key, n);
    TimerExact(course[n], t, timeout);
  }
}
