/**
 The token bucket of ww/base/rate_bucket.c. The class does the source's 64-bit arithmetic, every
 operation of which is proved to stay in range; its methods are proved against exact formulas over
 unbounded thousandths of a byte, and the laws of refilling and waiting are proved of those.
 */
module RateBucket {

  const MAX: nat := 0xFFFF_FFFF_FFFF_FFFF

  newtype uint64 = x: int | 0 <= x <= 0xFFFF_FFFF_FFFF_FFFF
  newtype uint32 = x: int | 0 <= x <= 0xFFFF_FFFF
  newtype uint16 = x: int | 0 <= x <= 0xFFFF

  // -------------------------------------------------------------------------
  // the exact specification

  datatype Bucket = Bucket(credit: nat, remainder: nat, last: nat, hasClock: bool) {
    /** Credit in thousandths of a byte. */
    function Thousandths(): nat { 1000 * credit + remainder }

    ghost predicate Valid() { remainder < 1000 }
  }

  function Min(a: nat, b: nat): nat { if a <= b then a else b }

  /** The bucket holding `t` thousandths. */
  function Holding(b: Bucket, t: nat): Bucket {
    b.(credit := t / 1000, remainder := t % 1000)
  }

  function Clamped(b: Bucket, capacity: nat): Bucket {
    Holding(b, Min(1000 * capacity, b.Thousandths()))
  }

  /** The part of the time since the last refill that is a whole number of steps. */
  function Aligned(b: Bucket, step: nat, now: nat): nat
    requires step > 0
  {
    if now <= b.last then 0 else (now - b.last) / step * step
  }

  /** The bucket after earning e thousandths while its clock advances by `elapsed`. */
  function Earning(b: Bucket, capacity: nat, e: nat, elapsed: nat): Bucket {
    Holding(b, Min(1000 * capacity, b.Thousandths() + e)).(last := b.last + elapsed)
  }

  function Refilled(b: Bucket, rate: nat, capacity: nat, step: nat, now: nat): Bucket
    requires step > 0
  {
    if !b.hasClock then Clamped(b, capacity).(last := now, hasClock := true)
    else
      var elapsed := Aligned(b, step, now);
      Earning(b, capacity, rate * elapsed, elapsed)
  }

  function GrantOf(b: Bucket, requested: nat, partial: bool): nat {
    if requested <= b.credit then requested else if partial then b.credit else 0
  }

  /** Milliseconds of refilling until the missing bytes are earned, rounded up. */
  function EarnMs(b: Bucket, rate: nat, requested: nat): nat
    requires b.credit < requested && rate > 0 && b.remainder < 1000
  {
    (1000 * (requested - b.credit) - b.remainder + rate - 1) / rate
  }

  function RoundUp(x: nat, step: nat): nat
    requires step > 0
  {
    (x + step - 1) / step * step
  }

  function Phase(b: Bucket, step: nat, now: nat): nat
    requires step > 0
  {
    if b.hasClock && now > b.last then (now - b.last) % step else 0
  }

  function RetryOf(b: Bucket, rate: nat, step: nat, now: nat, requested: nat): nat
    requires step > 0 && b.remainder < 1000
  {
    if b.credit >= requested then 0
    else if rate == 0 then MAX
    else
      var wait := EarnMs(b, rate, requested);
      var rounded := RoundUp(wait, step);
      if wait >= MAX then MAX
      else if rounded > MAX then (if MAX > Phase(b, step, now) then MAX - Phase(b, step, now) else 1)
      else if rounded > Phase(b, step, now) then rounded - Phase(b, step, now) else 1
  }

  // -------------------------------------------------------------------------
  // arithmetic

  lemma MulMono(a: nat, b: nat, k: nat)
    requires a <= b
    ensures a * k <= b * k
  {
  }

  /** a > b / k says the product a * k is above b, without forming it. */
  lemma DivGuard(a: nat, b: nat, k: nat)
    requires k > 0
    ensures a > b / k <==> a * k > b
  {
    assert b == b / k * k + b % k;
    if a > b / k {
      MulMono(b / k + 1, a, k);
      assert (b / k + 1) * k == b / k * k + k;
    } else {
      MulMono(a, b / k, k);
    }
  }

  /** The whole and fractional parts of the earnings, taken apart as the refill does. */
  lemma Decompose(rate: nat, elapsed: nat)
    ensures rate * elapsed
         == 1000 * (elapsed / 1000 * rate + elapsed % 1000 * (rate / 1000)) + elapsed % 1000 * (rate % 1000)
  {
    var s, m, w, f := elapsed / 1000, elapsed % 1000, rate / 1000, rate % 1000;
    calc {
      rate * elapsed;
      rate * (1000 * s + m);
      1000 * (s * rate) + m * rate;
      1000 * (s * rate) + m * (1000 * w + f);
      1000 * (s * rate) + 1000 * (m * w) + m * f;
    }
  }

  lemma ProductBelow(a: nat, x: nat, b: nat, y: nat)
    requires a <= x && b <= y
    ensures a * b <= x * y
  {
    MulMono(a, x, b);
    MulMono(b, y, x);
  }

  /** (q * d + r) / d == q for a proper remainder. */
  lemma DivModUnique(q: nat, r: nat, d: nat)
    requires r < d
    ensures (q * d + r) / d == q && (q * d + r) % d == r
  {
    var x := q * d + r;
    assert x == x / d * d + x % d;
    DivGuard(q + 1, x, d);
    assert (q + 1) * d == q * d + d;
    if q > 0 {
      DivGuard(q, x, d);
    }
  }

  /** x / d >= q exactly when x >= q * d. */
  lemma DivAtLeast(x: nat, q: nat, d: nat)
    requires d > 0
    ensures x / d >= q <==> x >= q * d
  {
    if q > 0 {
      DivGuard(q, x, d);
    }
  }

  lemma QuotientBound(a: nat, d: nat)
    requires d > 0
    ensures 0 <= a / d <= a
  {
    DivGuard(a + 1, a, d);
    MulMono(1, d, a + 1);
  }

  /** Taking off the odd milliseconds leaves a whole number of steps. */
  lemma AlignedDown(x: nat, step: nat)
    requires step > 0
    ensures x - x % step == x / step * step
  {
  }

  /** Clamping first does not change a refill: the cap applies to the sum anyway. */
  lemma ClampThenRefill(b: Bucket, rate: nat, capacity: nat, step: nat, now: nat)
    requires b.Valid() && step > 0
    ensures Refilled(Clamped(b, capacity), rate, capacity, step, now) == Refilled(b, rate, capacity, step, now)
  {
    var c := Clamped(b, capacity);
    assert c.Thousandths() == Min(1000 * capacity, b.Thousandths());
    assert Aligned(c, step, now) == Aligned(b, step, now);
  }

  /** A refill that advances nothing, earns nothing or finds a full bucket only moves the clock. */
  lemma RefillIdle(b: Bucket, rate: nat, capacity: nat, step: nat, now: nat)
    requires b.Valid() && step > 0 && b.Thousandths() <= 1000 * capacity
    ensures Holding(b, b.Thousandths()) == b
    ensures Clamped(b, capacity) == b
    ensures b.hasClock && (Aligned(b, step, now) == 0 || rate == 0 || b.credit == capacity) ==>
      Refilled(b, rate, capacity, step, now) == b.(last := b.last + Aligned(b, step, now))
  {
    DivModUnique(b.credit, b.remainder, 1000);
    if Aligned(b, step, now) == 0 || rate == 0 {
      assert rate * Aligned(b, step, now) == 0;
    }
  }

  /** The whole seconds alone fill the bucket, or their product is below the missing credit. */
  lemma SecondsGuard(credit: nat, remainder: nat, missing: nat, rate: nat, elapsed: nat)
    requires missing > 0
    ensures var seconds := elapsed / 1000;
      if seconds != 0 && rate > (missing - 1) / seconds
      then 1000 * credit + remainder + rate * elapsed >= 1000 * (credit + missing)
      else seconds * rate < missing
  {
    var seconds := elapsed / 1000;
    Decompose(rate, elapsed);
    if seconds != 0 {
      DivGuard(rate, missing - 1, seconds);
    }
  }

  /** Then the odd milliseconds at the whole rate fill it, or everything so far is below it. */
  lemma MillisGuard(credit: nat, remainder: nat, missing: nat, rate: nat, elapsed: nat)
    requires elapsed / 1000 * rate < missing
    ensures var earned, millis, whole := elapsed / 1000 * rate, elapsed % 1000, rate / 1000;
      if millis != 0 && whole > (missing - earned - 1) / millis
      then 1000 * credit + remainder + rate * elapsed >= 1000 * (credit + missing)
      else earned + millis * whole < missing
  {
    var earned, millis, whole := elapsed / 1000 * rate, elapsed % 1000, rate / 1000;
    Decompose(rate, elapsed);
    if millis != 0 {
      DivGuard(whole, missing - earned - 1, millis);
    }
  }

  /** The fraction of a whole byte rate over the odd milliseconds, with the old remainder, stays small. */
  lemma FractionBound(remainder: nat, rate: nat, elapsed: nat)
    requires remainder < 1000
    ensures elapsed % 1000 * (rate % 1000) + remainder < 1_000_000
  {
    ProductBelow(elapsed % 1000, 999, rate % 1000, 999);
  }

  /** Earnings of whole bytes and a part, on top of a credit and its remainder. */
  lemma Carry(credit: nat, remainder: nat, earnings: nat, earned: nat, part: nat, missing: nat)
    requires earnings == 1000 * earned + part
    ensures var total, fraction := 1000 * credit + remainder + earnings, part + remainder;
      && (total >= 1000 * (credit + missing) <==> earned + fraction / 1000 >= missing)
      && total / 1000 == credit + earned + fraction / 1000 && total % 1000 == fraction % 1000
  {
    DivModUnique(credit + earned + (part + remainder) / 1000, (part + remainder) % 1000, 1000);
  }

  /** Last the fractional part: its bytes fill the bucket, or the sum is exact. */
  lemma FractionGuard(credit: nat, remainder: nat, missing: nat, rate: nat, elapsed: nat)
    ensures var earned := elapsed / 1000 * rate + elapsed % 1000 * (rate / 1000);
      var fraction := elapsed % 1000 * (rate % 1000) + remainder;
      var total := 1000 * credit + remainder + rate * elapsed;
      && (total >= 1000 * (credit + missing) <==> earned + fraction / 1000 >= missing)
      && total / 1000 == credit + earned + fraction / 1000 && total % 1000 == fraction % 1000
  {
    Decompose(rate, elapsed);
    Carry(credit, remainder, rate * elapsed,
      elapsed / 1000 * rate + elapsed % 1000 * (rate / 1000), elapsed % 1000 * (rate % 1000), missing);
  }

  // -------------------------------------------------------------------------
  // the implementation

  function SaturatingAdd(a: uint64, b: uint64): (r: uint64)
    ensures r as int == Min(MAX, a as int + b as int)
  {
    if b > 0xFFFF_FFFF_FFFF_FFFF - a then 0xFFFF_FFFF_FFFF_FFFF else a + b
  }

  function SaturatingMultiply(a: uint64, b: uint64): (r: uint64)
    ensures r as int == Min(MAX, (a as int) * (b as int))
  {
    assert a != 0 ==> (b as int > MAX / (a as int) <==> (b as int) * (a as int) > MAX) by {
      if a != 0 {
        DivGuard(b as int, MAX, a as int);
      }
    }
    if a != 0 && b > 0xFFFF_FFFF_FFFF_FFFF / a then 0xFFFF_FFFF_FFFF_FFFF else a * b
  }

  class RateBucket {
    var credit: uint64
    var lastRefill: uint64
    var remainder: uint16
    var hasClock: bool

    ghost predicate Valid()
      reads this
    {
      remainder < 1000
    }

    function View(): Bucket
      reads this
    {
      Bucket(credit as int, remainder as int, lastRefill as int, hasClock)
    }

    constructor (initialCredit: uint64)
      ensures Valid() && View() == Bucket(initialCredit as int, 0, 0, false)
    {
      credit, lastRefill, remainder, hasClock := initialCredit, 0, 0, false;
    }

    method Clamp(capacity: uint64)
      requires Valid()
      modifies this
      ensures Valid() && View() == Clamped(old(View()), capacity as int)
      ensures View().Thousandths() == Min(1000 * capacity as int, old(View()).Thousandths())
      ensures lastRefill == old(lastRefill) && hasClock == old(hasClock)
    {
      if credit >= capacity {
        credit := capacity;
        remainder := 0;
      }
      DivModUnique(credit as int, remainder as int, 1000);
    }

    method Refill(rate: uint64, capacity: uint64, step: uint32, now: uint64)
      requires Valid() && step > 0
      modifies this
      ensures Valid() && View() == Refilled(old(View()), rate as int, capacity as int, step as int, now as int)
      ensures hasClock && (!old(hasClock) ==> lastRefill == now)
    {
      Clamp(capacity);
      ghost var clamped := View();
      ClampThenRefill(old(View()), rate as int, capacity as int, step as int, now as int);
      RefillIdle(clamped, rate as int, capacity as int, step as int, now as int);
      if !hasClock {
        lastRefill := now;
        hasClock := true;
        return;
      }
      if now <= lastRefill {
        return;
      }
      var elapsed := now - lastRefill;
      AlignedDown(elapsed as int, step as int);
      elapsed := elapsed - elapsed % step as uint64;
      lastRefill := lastRefill + elapsed;
      if elapsed == 0 || credit == capacity || rate == 0 {
        return;
      }
      RefillElapsed(rate, capacity, elapsed);
    }

    /** rate * elapsed / 1000 bytes, capped, without forming the product. */
    method RefillElapsed(rate: uint64, capacity: uint64, elapsed: uint64)
      requires Valid() && credit < capacity
      modifies this`credit, this`remainder
      ensures Valid()
      ensures View() == Earning(old(View()), capacity as int, rate as int * elapsed as int, 0)
    {
      ghost var c, m, r, e := credit as int, capacity as int - credit as int, rate as int, elapsed as int;
      DivModUnique(capacity as int, 0, 1000);
      var missing := capacity - credit;
      var seconds := elapsed / 1000;
      SecondsGuard(c, remainder as int, m, r, e);
      if seconds != 0 {
        QuotientBound(m - 1, seconds as int);
      }
      if seconds != 0 && rate > (missing - 1) / seconds {
        credit := capacity;
        remainder := 0;
        return;
      }
      AddMillis(rate, capacity, elapsed, seconds * rate);
    }

    /** The odd milliseconds at the whole part of the rate. */
    method AddMillis(rate: uint64, capacity: uint64, elapsed: uint64, earned: uint64)
      requires Valid() && credit < capacity
      requires earned as int == elapsed as int / 1000 * rate as int && earned < capacity - credit
      modifies this`credit, this`remainder
      ensures Valid()
      ensures View() == Earning(old(View()), capacity as int, rate as int * elapsed as int, 0)
    {
      DivModUnique(capacity as int, 0, 1000);
      var missing := capacity - credit;
      var millis := elapsed % 1000;
      var whole := rate / 1000;
      MillisGuard(credit as int, remainder as int, missing as int, rate as int, elapsed as int);
      if millis != 0 {
        QuotientBound(missing as int - earned as int - 1, millis as int);
      }
      if millis != 0 && whole > (missing - earned - 1) / millis {
        credit := capacity;
        remainder := 0;
        return;
      }
      AddFraction(rate, capacity, elapsed, earned + millis * whole);
    }

    /** The fractional rate over the odd milliseconds, carried with the old remainder. */
    method AddFraction(rate: uint64, capacity: uint64, elapsed: uint64, earned: uint64)
      requires Valid() && credit < capacity
      requires earned as int == elapsed as int / 1000 * rate as int + elapsed as int % 1000 * (rate as int / 1000)
      requires earned < capacity - credit
      modifies this`credit, this`remainder
      ensures Valid()
      ensures View() == Earning(old(View()), capacity as int, rate as int * elapsed as int, 0)
    {
      DivModUnique(capacity as int, 0, 1000);
      var missing := capacity - credit;
      FractionBound(remainder as int, rate as int, elapsed as int);
      FractionGuard(credit as int, remainder as int, missing as int, rate as int, elapsed as int);
      var fraction := elapsed % 1000 * (rate % 1000) + remainder as uint64;
      var extra := fraction / 1000;
      if extra >= missing - earned {
        credit := capacity;
        remainder := 0;
        return;
      }
      credit := credit + (earned + extra);
      remainder := (fraction % 1000) as uint16;
    }

    method Grant(requested: uint64, allowPartial: bool) returns (grant: uint64)
      requires Valid()
      modifies this`credit
      ensures Valid() && grant as int == GrantOf(old(View()), requested as int, allowPartial)
      ensures requested <= old(credit) ==> grant == requested
      ensures requested > old(credit) ==> grant == if allowPartial then old(credit) else 0
      ensures View() == old(View()).(credit := old(View()).credit - grant as int)
    {
      grant := requested;
      if grant > credit {
        grant := if allowPartial then credit else 0;
      }
      credit := credit - grant;
    }

    method RetryMs(rate: uint64, step: uint32, now: uint64, requested: uint64) returns (wait: uint64)
      requires Valid() && step > 0
      ensures wait as int == RetryOf(View(), rate as int, step as int, now as int, requested as int)
    {
      if credit >= requested {
        return 0;
      }
      if rate == 0 {
        return 0xFFFF_FFFF_FFFF_FFFF;
      }
      wait := EarningTime(rate, requested);
      if wait == 0xFFFF_FFFF_FFFF_FFFF {
        return;
      }
      wait := RoundToStep(wait, step, now);
    }

    /** Whole seconds by division, then the binary search for the suffix; saturating. */
    method EarningTime(rate: uint64, requested: uint64) returns (wait: uint64)
      requires Valid() && rate > 0 && credit < requested
      ensures wait as int == Min(MAX, EarnMs(View(), rate as int, requested as int))
    {
      var missing := requested - credit;
      QuotientBound(missing as int, rate as int);
      var seconds := missing / rate;
      var rem := missing % rate;
      if rem == 0 && seconds != 0 {
        seconds := seconds - 1;
        rem := rate;
      }
      assert 1 <= rem <= rate && missing as int == seconds as int * rate as int + rem as int;
      wait := SaturatingMultiply(seconds, 1000);
      var low := LeastMillis(rate, rem);
      EarnMsSplit(View(), rate as int, requested as int, seconds as int, rem as int, low as int);
      wait := SaturatingAdd(wait, low);
    }

    /** Up to a whole number of steps, less the part of the current step already gone. */
    method RoundToStep(wait: uint64, step: uint32, now: uint64) returns (r: uint64)
      requires step > 0
      ensures var rounded := Min(MAX, RoundUp(wait as int, step as int));
        var phase := Phase(View(), step as int, now as int);
        r as int == if rounded > phase then rounded - phase else 1
    {
      QuotientBound(wait as int, step as int);
      var steps := wait / step as uint64 + (if wait % step as uint64 != 0 then 1 else 0);
      RoundUpSteps(wait as int, step as int);
      var rounded := SaturatingMultiply(steps, step as uint64);
      var phase := if hasClock && now > lastRefill then (now - lastRefill) % step as uint64 else 0;
      r := if rounded > phase then rounded - phase else 1;
    }

    /** The binary search over the 0..1000 millisecond suffix finds the least sufficient value. */
    method LeastMillis(rate: uint64, rem: uint64) returns (low: uint64)
      requires Valid() && 1 <= rem <= rate
      ensures 1 <= low <= 1000
      ensures rate as int * low as int + remainder as int >= 1000 * rem as int
      ensures rate as int * (low as int - 1) + remainder as int < 1000 * rem as int
    {
      low := 0;
      var high: uint64 := 1000;
      while low < high
        invariant low <= high <= 1000
        invariant rate as int * high as int + remainder as int >= 1000 * rem as int
        invariant low > 0 ==> rate as int * (low as int - 1) + remainder as int < 1000 * rem as int
      {
        var middle := low + (high - low) / 2;
        var whole := SuffixEarned(rate, middle);
        DivAtLeast(rate as int * middle as int + remainder as int, rem as int, 1000);
        if whole >= rem {
          high := middle;
        } else {
          low := middle + 1;
        }
      }
    }

    method SuffixEarned(rate: uint64, middle: uint64) returns (whole: uint64)
      requires Valid() && middle < 1000
      ensures whole as int == (rate as int * middle as int + remainder as int) / 1000
    {
      SuffixWhole(rate as int, middle as int, remainder as int);
      whole := (rate / 1000) * middle;
      var part := (rate % 1000) * middle + remainder as uint64;
      whole := whole + part / 1000;
    }
  }

  /** The suffix earnings computed in parts equal the exact quotient and stay within 64 bits. */
  lemma SuffixWhole(rate: nat, middle: nat, remainder: nat)
    requires middle < 1000 && remainder < 1000 && rate <= MAX
    ensures rate / 1000 * middle + (rate % 1000 * middle + remainder) / 1000 == (rate * middle + remainder) / 1000
    ensures rate / 1000 * middle + (rate % 1000 * middle + remainder) / 1000 <= MAX
    ensures rate % 1000 * middle + remainder <= MAX
  {
    var w, f := rate / 1000, rate % 1000;
    assert rate * middle == (1000 * w + f) * middle == 1000 * (w * middle) + f * middle;
    ProductBelow(f, 999, middle, 999);
    ProductBelow(w, w, middle, 999);
    var part := f * middle + remainder;
    assert rate * middle + remainder == (w * middle + part / 1000) * 1000 + part % 1000;
    DivModUnique(w * middle + part / 1000, part % 1000, 1000);
  }

  /** Whole seconds plus the least suffix are the least number of milliseconds. */
  lemma EarnMsSplit(b: Bucket, rate: nat, requested: nat, seconds: nat, rem: nat, low: nat)
    requires b.Valid() && b.credit < requested && rate > 0
    requires 1 <= rem <= rate && requested - b.credit == seconds * rate + rem
    requires low >= 1 && rate * low + b.remainder >= 1000 * rem && rate * (low - 1) + b.remainder < 1000 * rem
    ensures EarnMs(b, rate, requested) == seconds * 1000 + low
  {
    var w := seconds * 1000 + low;
    var need := 1000 * (requested - b.credit) - b.remainder;
    assert rate * w == 1000 * (seconds * rate) + rate * low;
    assert rate * (w - 1) == 1000 * (seconds * rate) + rate * (low - 1);
    CeilUnique(need, rate, w);
  }

  /** The rounded-up quotient is the only w with rate * (w - 1) < need <= rate * w. */
  lemma CeilUnique(need: nat, rate: nat, w: nat)
    requires rate > 0 && w >= 1 && rate * (w - 1) < need <= rate * w
    ensures (need + rate - 1) / rate == w
  {
    var r := need + rate - 1 - w * rate;
    assert rate * (w - 1) == w * rate - rate;
    DivModUnique(w, r, rate);
  }

  /** Ceiling bounds: the converse reading of CeilUnique. */
  lemma CeilBounds(need: nat, rate: nat)
    requires rate > 0 && need > 0
    ensures var w := (need + rate - 1) / rate; w >= 1 && rate * (w - 1) < need <= rate * w
  {
    var x := need + rate - 1;
    var w := x / rate;
    assert x == w * rate + x % rate;
    DivAtLeast(x, 1, rate);
    assert rate * (w - 1) == w * rate - rate;
  }

  /** Above the ceiling the product reaches the need, below it does not. */
  lemma CeilThreshold(need: nat, rate: nat, w: nat, e: nat)
    requires w >= 1 && rate * (w - 1) < need <= rate * w
    ensures rate * e >= need <==> e >= w
  {
    if e >= w {
      MulMono(w, e, rate);
    } else {
      MulMono(e, w - 1, rate);
    }
  }

  lemma RoundUpSteps(wait: nat, step: nat)
    requires step > 0
    ensures RoundUp(wait, step) == (wait / step + (if wait % step != 0 then 1 else 0)) * step
    ensures RoundUp(wait, step) >= wait
  {
    var q, r := wait / step, wait % step;
    assert wait == q * step + r;
    if r == 0 {
      DivModUnique(q, step - 1, step);
    } else {
      assert wait + step - 1 == (q + 1) * step + (r - 1);
      DivModUnique(q + 1, r - 1, step);
    }
  }

  // -------------------------------------------------------------------------
  // what one refill and one grant are

  /** The time a refill counts is the largest whole number of steps since the last one. */
  lemma AlignedIsLargest(b: Bucket, step: nat, now: nat, k: nat)
    requires step > 0 && b.last <= now
    ensures Aligned(b, step, now) % step == 0 && Aligned(b, step, now) <= now - b.last
    ensures k * step <= now - b.last ==> k * step <= Aligned(b, step, now)
  {
    var x := now - b.last;
    AlignedDown(x, step);
    DivModUnique(x / step, 0, step);
    if k * step <= x {
      DivAtLeast(x, k, step);
      MulMono(k, x / step, step);
    }
  }

  /**
   A refill on a running clock adds the rate for the counted time, up to the capacity, and moves the
   clock by that time; before the first one there is no time to count, and a clock that went back counts
   nothing.
   */
  lemma RefillExact(b: Bucket, rate: nat, capacity: nat, step: nat, now: nat)
    requires b.Valid() && step > 0
    ensures var r := Refilled(b, rate, capacity, step, now);
      && r.Valid() && r.hasClock
      && (b.hasClock ==>
            && r.Thousandths() == Min(1000 * capacity, b.Thousandths() + rate * Aligned(b, step, now))
            && r.last == b.last + Aligned(b, step, now))
      && (!b.hasClock ==> r.Thousandths() == Min(1000 * capacity, b.Thousandths()) && r.last == now)
      && (b.hasClock && now <= b.last ==> r.last == b.last && r.Thousandths() == Min(1000 * capacity, b.Thousandths()))
  {
    if b.hasClock && now <= b.last {
      assert rate * Aligned(b, step, now) == 0;
    }
  }

  /** A grant is the most the credit allows: all of the request, or with partial grants as much of it as there is. */
  lemma GrantIsMost(b: Bucket, requested: nat, partial: bool, g: nat)
    ensures GrantOf(b, requested, partial) <= requested && GrantOf(b, requested, partial) <= b.credit
    ensures partial && g <= requested && g <= b.credit ==> g <= GrantOf(b, requested, partial)
    ensures !partial ==> GrantOf(b, requested, partial) in {0, requested}
    ensures requested <= b.credit ==> GrantOf(b, requested, partial) == requested
  {
  }

  // -------------------------------------------------------------------------
  // splitting refills changes nothing

  /** Rounding down to steps can be done in two stretches. */
  lemma FloorSplit(x: nat, y: nat, step: nat)
    requires step > 0 && x <= y
    ensures var a := x / step * step; 0 <= a <= x && y / step * step == a + (y - a) / step * step
  {
    var q, p := x / step, y / step;
    assert x == q * step + x % step;
    assert y == p * step + y % step;
    DivAtLeast(y, q, step);
    assert (p - q) * step == p * step - q * step;
    DivModUnique(p - q, y % step, step);
  }

  lemma AlignedSplit(b: Bucket, step: nat, t1: nat, t2: nat)
    requires step > 0 && t1 <= t2
    ensures Aligned(b, step, t2) == Aligned(b, step, t1) + Aligned(b.(last := b.last + Aligned(b, step, t1)), step, t2)
  {
    if t1 > b.last {
      FloorSplit(t1 - b.last, t2 - b.last, step);
      if t2 == b.last + Aligned(b, step, t1) {
        assert 0 / step == 0;
      }
    }
  }

  lemma EarnTwice(b: Bucket, capacity: nat, e1: nat, a1: nat, e2: nat, a2: nat)
    ensures Earning(Earning(b, capacity, e1, a1), capacity, e2, a2) == Earning(b, capacity, e1 + e2, a1 + a2)
  {
    var t := Min(1000 * capacity, b.Thousandths() + e1);
    assert Earning(b, capacity, e1, a1).Thousandths() == t;
  }

  lemma Distribute(rate: nat, a1: nat, a2: nat)
    ensures rate * (a1 + a2) == rate * a1 + rate * a2
  {
  }

  /** Refilling in between leaves a later refill unchanged. */
  lemma RefillSplit(b: Bucket, rate: nat, capacity: nat, step: nat, t1: nat, t2: nat)
    requires b.Valid() && b.hasClock && step > 0 && t1 <= t2
    ensures Refilled(Refilled(b, rate, capacity, step, t1), rate, capacity, step, t2)
         == Refilled(b, rate, capacity, step, t2)
  {
    var a1 := Aligned(b, step, t1);
    var mid := Refilled(b, rate, capacity, step, t1);
    var a2 := Aligned(mid, step, t2);
    assert Aligned(b, step, t2) == a1 + a2 by {
      AlignedSplit(b, step, t1, t2);
      assert a2 == Aligned(b.(last := b.last + a1), step, t2);
    }
    Distribute(rate, a1, a2);
    EarnTwice(b, capacity, rate * a1, a1, rate * a2, a2);
  }

  function RefillAll(b: Bucket, rate: nat, capacity: nat, step: nat, times: seq<nat>): Bucket
    requires step > 0
    decreases |times|
  {
    if times == [] then b
    else RefillAll(Refilled(b, rate, capacity, step, times[0]), rate, capacity, step, times[1..])
  }

  /** Any number of earlier refills, in any order of clock readings, changes nothing. */
  lemma {:induction false} RefillsCollapse(b: Bucket, rate: nat, capacity: nat, step: nat, times: seq<nat>, now: nat)
    requires b.Valid() && b.hasClock && step > 0
    requires forall i :: 0 <= i < |times| ==> times[i] <= now
    ensures Refilled(RefillAll(b, rate, capacity, step, times), rate, capacity, step, now)
         == Refilled(b, rate, capacity, step, now)
    decreases |times|
  {
    if times != [] {
      RefillSplit(b, rate, capacity, step, times[0], now);
      RefillsCollapse(Refilled(b, rate, capacity, step, times[0]), rate, capacity, step, times[1..], now);
    }
  }

  // -------------------------------------------------------------------------
  // grants are paid for

  datatype Op =
    | RefillOp(rate: nat, capacity: nat, step: nat, now: nat)
    | ClampOp(capacity: nat)
    | GrantOp(requested: nat, partial: bool)

  predicate OpValid(op: Op) { op.RefillOp? ==> op.step > 0 }

  predicate AllValid(ops: seq<Op>) { forall i :: 0 <= i < |ops| ==> OpValid(ops[i]) }

  function After(b: Bucket, op: Op): Bucket
    requires OpValid(op)
  {
    match op
    case RefillOp(rate, capacity, step, now) => Refilled(b, rate, capacity, step, now)
    case ClampOp(capacity) => Clamped(b, capacity)
    case GrantOp(requested, partial) => b.(credit := b.credit - GrantOf(b, requested, partial))
  }

  function AfterAll(b: Bucket, ops: seq<Op>): Bucket
    requires AllValid(ops)
    decreases |ops|
  {
    if ops == [] then b else AfterAll(After(b, ops[0]), ops[1..])
  }

  /** Bytes handed out along the run. */
  function Granted(b: Bucket, ops: seq<Op>): nat
    requires AllValid(ops)
    decreases |ops|
  {
    if ops == [] then 0
    else
      (if ops[0].GrantOp? then GrantOf(b, ops[0].requested, ops[0].partial) else 0)
      + Granted(After(b, ops[0]), ops[1..])
  }

  /** Thousandths earned: each refill's rate times the time it advanced a running clock. */
  function Earned(b: Bucket, ops: seq<Op>): nat
    requires AllValid(ops)
    decreases |ops|
  {
    if ops == [] then 0
    else
      assert OpValid(ops[0]);
      (if ops[0].RefillOp? && b.hasClock then ops[0].rate * Aligned(b, ops[0].step, ops[0].now) else 0)
      + Earned(After(b, ops[0]), ops[1..])
  }

  /** Over any run, grants plus what is left never exceed the starting credit plus the earnings. */
  lemma {:induction false} GrantsArePaidFor(b: Bucket, ops: seq<Op>)
    requires b.Valid() && AllValid(ops)
    ensures 1000 * Granted(b, ops) + AfterAll(b, ops).Thousandths() <= b.Thousandths() + Earned(b, ops)
    ensures AfterAll(b, ops).Valid()
    decreases |ops|
  {
    if ops != [] {
      GrantsArePaidFor(After(b, ops[0]), ops[1..]);
    }
  }

  /** At one constant rate the earnings are the rate times the time the clock advanced. */
  lemma {:induction false} EarnedAtConstantRate(b: Bucket, ops: seq<Op>, rate: nat)
    requires b.hasClock && AllValid(ops)
    requires forall i :: 0 <= i < |ops| && ops[i].RefillOp? ==> ops[i].rate == rate
    ensures AfterAll(b, ops).last >= b.last
    ensures Earned(b, ops) == rate * (AfterAll(b, ops).last - b.last)
    decreases |ops|
  {
    if ops != [] {
      var b1 := After(b, ops[0]);
      EarnedAtConstantRate(b1, ops[1..], rate);
      var last := AfterAll(b, ops).last;
      assert rate * (last - b.last) == rate * (last - b1.last) + rate * (b1.last - b.last);
    }
  }

  // -------------------------------------------------------------------------
  // the retry time is the least wait

  ghost predicate Suffices(b: Bucket, rate: nat, capacity: nat, step: nat, now: nat, requested: nat, wait: nat)
    requires step > 0
  {
    Refilled(b, rate, capacity, step, now + wait).credit >= requested
  }

  ghost predicate IsLeastWait(b: Bucket, rate: nat, capacity: nat, step: nat, now: nat, requested: nat, wait: nat)
    requires step > 0
  {
    && Suffices(b, rate, capacity, step, now, requested, wait)
    && forall v: nat :: v < wait ==> !Suffices(b, rate, capacity, step, now, requested, v)
  }

  /** A bucket refilled at `now` under this step: the clock is running and less than a step behind. */
  ghost predicate JustRefilled(b: Bucket, step: nat, now: nat) {
    b.Valid() && b.hasClock && b.last <= now < b.last + step
  }

  /** A refill on a running clock that has not passed `now`, or the first refill, leaves the bucket just refilled. */
  lemma RefillEstablishes(b: Bucket, rate: nat, capacity: nat, step: nat, now: nat)
    requires b.Valid() && step > 0 && (b.hasClock ==> b.last <= now)
    ensures JustRefilled(Refilled(b, rate, capacity, step, now), step, now)
  {
    if b.hasClock {
      AlignedDown(now - b.last, step);
    }
  }

  /** The credit covers the request exactly when the earnings cover what is missing. */
  lemma EarningsCover(b: Bucket, capacity: nat, requested: nat, earned: nat)
    requires b.credit < requested <= capacity
    ensures Holding(b, Min(1000 * capacity, b.Thousandths() + earned)).credit >= requested
       <==> earned >= 1000 * (requested - b.credit) - b.remainder
  {
    DivAtLeast(b.Thousandths() + earned, requested, 1000);
    DivAtLeast(1000 * capacity, requested, 1000);
  }

  /** Time rounded down to steps reaches w exactly when the time reaches w rounded up. */
  lemma FloorReaches(x: nat, w: nat, step: nat)
    requires step > 0 && w > 0
    ensures x / step * step >= w <==> x >= RoundUp(w, step)
  {
    var k := (w + step - 1) / step;
    CeilBounds(w, step);
    DivAtLeast(x, k, step);
    CeilThreshold(w, step, k, x / step);
  }

  /** Waiting v is enough exactly when the phase plus v reaches the rounded-up earning time. */
  lemma SufficesExactly(b: Bucket, rate: nat, capacity: nat, step: nat, now: nat, requested: nat, v: nat)
    requires step > 0 && rate > 0 && JustRefilled(b, step, now)
    requires b.credit < requested <= capacity
    ensures Suffices(b, rate, capacity, step, now, requested, v)
       <==> now - b.last + v >= RoundUp(EarnMs(b, rate, requested), step)
  {
    var need := 1000 * (requested - b.credit) - b.remainder;
    var w := EarnMs(b, rate, requested);
    CeilBounds(need, rate);
    var x := now - b.last + v;
    var e := Aligned(b, step, now + v);
    assert e == x / step * step by {
      if x == 0 {
        assert 0 / step == 0;
      }
    }
    EarningsCover(b, capacity, requested, rate * e);
    CeilThreshold(need, rate, w, e);
    FloorReaches(x, w, step);
  }

  /**
   Right after a refill, and for a request the bucket can hold, the retry time is the least wait
   after which a refill covers the request -- exactly when neither the earning time nor its
   rounding leaves 64 bits (past that, only when the least wait happens to equal UINT64_MAX).
   */
  lemma RetryIsLeastWait(b: Bucket, rate: nat, capacity: nat, step: nat, now: nat, requested: nat)
    requires step > 0 && step <= 0xFFFF_FFFF && rate > 0 && JustRefilled(b, step, now)
    requires b.credit < requested <= capacity
    ensures var w := EarnMs(b, rate, requested);
      var rounded := RoundUp(w, step);
      IsLeastWait(b, rate, capacity, step, now, requested, RetryOf(b, rate, step, now, requested))
      <==> if w < MAX then rounded <= MAX else rounded - (now - b.last) == MAX
  {
    var w := EarnMs(b, rate, requested);
    var rounded := RoundUp(w, step);
    var phase := now - b.last;
    CeilBounds(1000 * (requested - b.credit) - b.remainder, rate);
    RoundUpSteps(w, step);
    FirstStep(w, step);
    if now > b.last {
      DivModUnique(0, phase, step);
    }
    assert Phase(b, step, now) == phase;
    var least: nat := rounded - phase;
    forall v: nat
      ensures Suffices(b, rate, capacity, step, now, requested, v) <==> v >= least
    {
      SufficesExactly(b, rate, capacity, step, now, requested, v);
    }
    var r := RetryOf(b, rate, step, now, requested);
    assert IsLeastWait(b, rate, capacity, step, now, requested, r) <==> r == least by {
      if r < least {
        assert !Suffices(b, rate, capacity, step, now, requested, r);
      } else if r > least {
        assert Suffices(b, rate, capacity, step, now, requested, least);
      }
    }
  }

  /** Once the earning time leaves 64 bits, the returned time is too short to be enough. */
  lemma SaturatedRetryIsShort(b: Bucket, rate: nat, capacity: nat, step: nat, now: nat, requested: nat)
    requires step > 0 && rate > 0 && JustRefilled(b, step, now) && b.credit < requested <= capacity
    requires EarnMs(b, rate, requested) >= MAX && RoundUp(EarnMs(b, rate, requested), step) > MAX + (now - b.last)
    ensures RetryOf(b, rate, step, now, requested) == MAX
    ensures !Suffices(b, rate, capacity, step, now, requested, MAX)
  {
    SufficesExactly(b, rate, capacity, step, now, requested, MAX);
  }

  lemma ByteASecond(n: nat)
    requires n > 0
    ensures EarnMs(Bucket(0, 0, 0, true), 1, n) == 1000 * n && RoundUp(1000 * n, 1) == 1000 * n
  {
  }

  /** An input that does: all of a full-size bucket, missing at a byte a second. */
  lemma WholeBucketIsShort()
    ensures var b := Bucket(0, 0, 0, true);
      && JustRefilled(b, 1, 0) && RetryOf(b, 1, 1, 0, MAX) == MAX
      && !Suffices(b, 1, MAX, 1, 0, MAX, MAX)
  {
    ByteASecond(MAX);
    SaturatedRetryIsShort(Bucket(0, 0, 0, true), 1, MAX, 1, 0, MAX);
  }

  /** Enough credit needs no wait; at rate zero no wait is ever enough, and the answer is the largest number. */
  lemma RetryAtTheEnds(b: Bucket, rate: nat, capacity: nat, step: nat, now: nat, requested: nat, wait: nat)
    requires step > 0 && b.Valid() && b.hasClock
    ensures requested <= b.credit ==> RetryOf(b, rate, step, now, requested) == 0
    ensures b.credit < requested && rate == 0 ==> RetryOf(b, rate, step, now, requested) == MAX
    ensures b.credit < requested && rate == 0 ==> !Suffices(b, rate, capacity, step, now, requested, wait)
  {
    if rate == 0 {
      RefillExact(b, rate, capacity, step, now + wait);
      assert rate * Aligned(b, step, now + wait) == 0;
    }
  }

  lemma FirstStep(w: nat, step: nat)
    requires w > 0 && step > 0
    ensures RoundUp(w, step) >= step
  {
    CeilBounds(w, step);
    MulMono(1, (w + step - 1) / step, step);
  }

  /** The last `: 1` of the retry is never taken: the rounded wait always exceeds the phase. */
  lemma FallbackUnreachable(b: Bucket, rate: nat, step: nat, now: nat, requested: nat)
    requires step > 0 && step <= 0xFFFF_FFFF && b.Valid() && rate > 0 && b.credit < requested
    ensures Min(MAX, RoundUp(EarnMs(b, rate, requested), step)) > Phase(b, step, now)
  {
    CeilBounds(1000 * (requested - b.credit) - b.remainder, rate);
    FirstStep(EarnMs(b, rate, requested), step);
  }
}
