/** Adjusting the time-of-day clock, drivers/ptp/ptp_dfl_tod.c: its rate (a period with a fractional part
    and a periodic drift correction) and its offset. */
module PtpTod {
  import opened Arithmetic

  const U32: nat := 0x1_0000_0000
  const U64: nat := 0x1_0000_0000_0000_0000
  const GIGA: nat := 1_000_000_000
  const MAX_ADJ: nat := 500_000_000
  const FRAC: nat := 0x1_0000
  const PERIOD_MAX: nat := 0xF_FFFF
  const DRIFT_MAX: nat := 0xFFFF
  const COUNT_MAX: nat := 0xF_FFFF
  const ERANGE: int := 34

  // ---------------------------------------------------------------- the period

  /** The quotient is cut to 32 bits before it is compared with the largest period. */
  predicate PeriodAccepted(ppb: nat, rate: nat)
    requires rate > 0
  {
    Cycle(ppb, rate) % U32 <= PERIOD_MAX
  }

  /** A clock period in ns/2^16, and what the division leaves. */
  function Cycle(ppb: nat, rate: nat): nat
    requires rate > 0
  {
    ppb * FRAC / rate
  }

  function CycleRest(ppb: nat, rate: nat): (rem: nat)
    requires rate > 0
    ensures rem < rate
  {
    ppb * FRAC % rate
  }

  lemma CycleMeans(ppb: nat, rate: nat)
    requires rate > 0
    ensures Cycle(ppb, rate) * rate + CycleRest(ppb, rate) == ppb * 0x1_0000
  {
  }

  predicate PeriodFits(ppb: nat, rate: nat)
    requires rate > 0
  {
    Cycle(ppb, rate) <= PERIOD_MAX
  }

  predicate PpbInRange(ppb: nat) {
    GIGA - MAX_ADJ <= ppb <= GIGA + MAX_ADJ
  }

  const SLOWEST_CLOCK: nat := 22889

  /** The range check is right for every adjustment the clock advertises exactly when the clock runs at
      22889 Hz or more; below that some adjustment is accepted with a period of 0. */
  lemma RangeCheckExact(rate: nat)
    requires rate > 0
    ensures (forall ppb: nat :: PpbInRange(ppb) ==> PeriodAccepted(ppb, rate) == PeriodFits(ppb, rate))
            <==> rate >= SLOWEST_CLOCK
  {
    if rate >= SLOWEST_CLOCK {
      forall ppb: nat | PpbInRange(ppb)
        ensures PeriodAccepted(ppb, rate) == PeriodFits(ppb, rate)
      {
        QuotientFits(ppb, rate);
      }
    } else {
      var ppb := WrongPeriod(rate);
      assert PpbInRange(ppb) && PeriodAccepted(ppb, rate) && !PeriodFits(ppb, rate);
    }
  }

  lemma DivBelow(n: nat, d: nat, bound: nat)
    requires d > 0 && n < bound * d
    ensures n / d < bound
  {
    if n / d >= bound { DivAtLeast(n, d, bound); }
  }

  lemma DivAtLeast(n: nat, d: nat, bound: nat)
    requires d > 0 && n / d >= bound
    ensures n >= bound * d
  {
    Monotone(bound, n / d, d);
    assert n == (n / d) * d + n % d;
  }

  lemma QuotientFits(ppb: nat, rate: nat)
    requires PpbInRange(ppb) && rate >= SLOWEST_CLOCK
    ensures Cycle(ppb, rate) < U32
  {
    assert ppb * FRAC <= 1_500_000_000 * FRAC;
    assert 1_500_000_000 * FRAC < U32 * SLOWEST_CLOCK;
    assert U32 * SLOWEST_CLOCK <= U32 * rate;
    DivBelow(ppb * FRAC, rate, U32);
  }

  /** An adjustment whose quotient is a multiple of 2^32. */
  lemma WrongPeriod(rate: nat) returns (ppb: nat)
    requires 0 < rate < SLOWEST_CLOCK
    ensures PpbInRange(ppb) && PeriodAccepted(ppb, rate) && !PeriodFits(ppb, rate)
  {
    var unit := FRAC * rate;
    var m := if unit > GIGA then 1 else MAX_ADJ / unit + 1;
    ppb := m * unit;
    if unit <= GIGA {
      assert MAX_ADJ == unit * (MAX_ADJ / unit) + MAX_ADJ % unit;
      assert m * unit == unit * (MAX_ADJ / unit) + unit;
    }
    assert ppb * FRAC == (m * U32) * rate by { Regroup(m, rate); }
    Exact(m * U32, rate);
    Whole(m);
  }

  lemma Regroup(m: nat, rate: nat)
    ensures (m * (FRAC * rate)) * FRAC == (m * U32) * rate
  {
  }

  lemma Exact(q: nat, d: nat)
    requires d > 0
    ensures q * d / d == q
  {
    DivUnique(q * d, d, q);
  }

  lemma Whole(m: nat)
    ensures (m * U32) % U32 == 0
  {
  }

  // ---------------------------------------------------------------- the drift correction

  function Gcd(a: nat, b: nat): (g: nat)
    ensures b > 0 ==> g > 0
    decreases b
  {
    if b == 0 then a else Gcd(b, a % b)
  }

  ghost predicate Divides(d: nat, x: nat) {
    exists k: nat :: x == d * k
  }

  lemma DividesSum(d: nat, x: nat, q: nat, y: nat)
    requires Divides(d, x) && Divides(d, y)
    ensures Divides(d, x * q + y)
  {
    var k: nat :| x == d * k;
    var j: nat :| y == d * j;
    Distribute(d, k, q, j);
    assert x * q + y == d * (k * q + j);
  }

  lemma Distribute(g: nat, k: nat, q: nat, j: nat)
    ensures (g * k) * q + g * j == g * (k * q + j)
  {
  }

  lemma {:induction false} GcdDivides(a: nat, b: nat)
    ensures Divides(Gcd(a, b), a) && Divides(Gcd(a, b), b)
    decreases b
  {
    if b == 0 {
      assert a == a * 1 && b == a * 0;
    } else {
      var g, r := Gcd(a, b), a % b;
      assert g == Gcd(b, r);
      GcdDivides(b, r);
      assert a == b * (a / b) + r;
      hide Gcd; hide Divides;
      DividesSum(g, b, a / b, r);
    }
  }

  /** Every common divisor divides it, so it is the greatest. */
  lemma {:induction false} GcdGreatest(a: nat, b: nat, d: nat)
    requires d > 0 && Divides(d, a) && Divides(d, b)
    ensures Divides(d, Gcd(a, b))
    decreases b
  {
    if b > 0 {
      var k: nat :| a == d * k;
      var j: nat :| b == d * j;
      var q := a / b;
      assert a == b * q + a % b;
      Difference(d, k, j, q, a % b);
      assert a % b == d * (k - j * q);
      hide Divides;
      DividesTimes(d, a % b, k - j * q);
      GcdGreatest(b, a % b, d);
    }
  }

  lemma Difference(d: nat, k: nat, j: nat, q: nat, r: nat)
    requires d > 0 && d * k == d * j * q + r
    ensures k >= j * q && r == d * (k - j * q)
  {
    assert d * j * q == d * (j * q);
    if k < j * q { StrictlyMore(k, j * q, d); }
    assert d * (k - j * q) == d * k - d * (j * q);
  }

  lemma DividesTimes(d: nat, x: nat, k: nat)
    requires x == d * k
    ensures Divides(d, x)
  {
  }

  function Pow2(h: nat): (p: nat)
    ensures p > 0
  {
    if h == 0 then 1 else 2 * Pow2(h - 1)
  }

  /** Both registers hold this many halvings of the reduced fraction, and no fewer would have made it fit. */
  ghost predicate Halved(rem: nat, rate: nat, fns: nat, every: nat, h: nat)
    requires rem < rate
  {
    var g := Gcd(rem, rate);
    g > 0 && fns == rem / g / Pow2(h) && every == rate / g / Pow2(h) && fns <= DRIFT_MAX && every <= DRIFT_MAX &&
    (h > 0 ==> TooLarge(rem / g, rate / g, h - 1))
  }

  lemma QuotientBack(g: nat, x: nat)
    requires g > 0 && Divides(g, x)
    ensures x == g * (x / g)
  {
    var k: nat :| x == g * k;
    Exact(k, g);
    assert g * k == k * g;
  }

  lemma Order(g: nat, j: nat, k: nat)
    requires g * j < g * k
    ensures j < k
  {
    if j >= k { Monotone(k, j, g); }
  }

  /** Quotients of a fraction by the greatest common divisor stand in the same ratio. */
  lemma Reduced(rem: nat, rate: nat)
    requires rem < rate
    ensures var g := Gcd(rem, rate);
      g > 0 && rem == g * (rem / g) && rate == g * (rate / g) && rem / g < rate / g
  {
    hide Divides;
    var g := Gcd(rem, rate);
    GcdDivides(rem, rate);
    hide Gcd;
    QuotientBack(g, rem);
    QuotientBack(g, rate);
    Order(g, rem / g, rate / g);
  }

  /** The clock of 156.25 MHz at its nominal rate: two units of 2^-16 ns every five cycles. */
  lemma NominalDrift()
    ensures Cycle(GIGA, 156_250_000) == 0x6_6666 && Halved(CycleRest(GIGA, 156_250_000), 156_250_000, 2, 5, 0)
  {
    hide Gcd;
    GcdStep(62_500_000, 156_250_000);
    GcdStep(156_250_000, 62_500_000);
    GcdStep(62_500_000, 31_250_000);
    GcdStep(31_250_000, 0);
    assert Pow2(0) == 1;
  }

  lemma GcdStep(a: nat, b: nat)
    ensures Gcd(a, b) == if b == 0 then a else Gcd(b, a % b)
  {
  }

  /** One step of the halving loop: a and b are A and B without their low bits. */
  lemma HalveStep(whole: nat, a: nat, scale: nat, low: nat)
    requires whole == a * scale + low && low < scale
    ensures whole == (a / 2) * (2 * scale) + (a % 2) * scale + low && (a % 2) * scale + low < 2 * scale
  {
    var h := a / 2;
    assert a == 2 * h + a % 2;
    assert a * scale == h * (2 * scale) + (a % 2) * scale;
  }

  function Abs(x: int): nat {
    if x < 0 then -x else x
  }

  /** Dropping the low bits of both moves the ratio by less than one over the smaller denominator. */
  lemma HalvedRatio(wholeA: nat, wholeB: nat, a: nat, b: nat, scale: nat, lowA: nat, lowB: nat)
    requires wholeA == a * scale + lowA && lowA < scale && wholeB == b * scale + lowB && lowB < scale
    requires wholeA < wholeB && b > 0
    ensures Abs(a * wholeB - wholeA * b) < wholeB
  {
    Larger(wholeA, wholeB, a, b, scale, lowA, lowB);
    Cross(a, b, scale, lowA, lowB);
    LowPart(a, b, scale, lowB);
    LowPart(b, b, scale, lowA);
    assert lowA * b == b * lowA;
  }

  lemma LowPart(a: nat, b: nat, scale: nat, low: nat)
    requires a <= b && b > 0 && low < scale
    ensures 0 <= a * low < b * scale
  {
    Monotone(a, b, low);
    assert b * low + b * (scale - low) == b * scale;
    assert b * (scale - low) > 0;
  }

  lemma Cross(a: nat, b: nat, scale: nat, lowA: nat, lowB: nat)
    ensures a * (b * scale + lowB) - (a * scale + lowA) * b == a * lowB - lowA * b
  {
    assert a * (b * scale + lowB) == a * (b * scale) + a * lowB;
    assert (a * scale + lowA) * b == (a * scale) * b + lowA * b;
    assert a * (b * scale) == (a * scale) * b;
  }

  lemma ScaleUp(g: nat, a: nat, wholeA: nat, b: nat, wholeB: nat)
    requires g > 0 && Abs(a * wholeB - wholeA * b) < wholeB
    ensures Abs(a * (g * wholeB) - (g * wholeA) * b) < g * wholeB
  {
    var d := a * wholeB - wholeA * b;
    assert a * (g * wholeB) == g * (a * wholeB);
    assert (g * wholeA) * b == g * (wholeA * b);
    assert g * (a * wholeB) - g * (wholeA * b) == g * d;
    ScaleBound(g, d, wholeB);
  }

  lemma Grows(g: nat, bound: int, d: int)
    requires g > 0 && d < bound
    ensures g * d < g * bound
  {
    assert g * bound == g * d + g * (bound - d);
  }

  lemma ScaleBound(g: nat, d: int, bound: nat)
    requires g > 0 && Abs(d) < bound
    ensures Abs(g * d) < g * bound
  {
    Grows(g, bound, d);
    Grows(g, bound, -d);
    assert g * (-d) == -(g * d);
  }

  /** The registers of the clock: its period in ns/2^16, the drift correction, the time, and what offset
      adjustments have been programmed so far, in ns/2^16. */
  class Tod {
    var period: nat
    var driftFns: nat
    var driftRate: nat
    var seconds: nat
    var nanosec: nat
    ghost var programmed: int

    ghost predicate Valid()
      reads this
    {
      period <= PERIOD_MAX && nanosec < GIGA
    }

    /** The gcd and halving part of dfl_tod_adjust_fine: both values fit 16 bits; they give rem/rate
        exactly when no halving is needed and otherwise up to less than one over the halved rate. */
    method DriftFor(rem: nat, rate: nat) returns (fns: nat, every: nat, ghost h: nat)
      requires rem < rate < U32
      ensures Halved(rem, rate, fns, every, h)
      ensures fns <= DRIFT_MAX && 0 < every <= DRIFT_MAX
      ensures Abs(fns * rate - rem * every) < rate
      ensures rate / Gcd(rem, rate) <= DRIFT_MAX ==> fns * rate == rem * every
    {
      hide Gcd; hide Abs; hide Halving; hide Pow2; hide Halved;
      var g := Gcd(rem, rate);
      Reduced(rem, rate);
      fns := rem / g;
      every := rate / g;
      ghost var wholeA, wholeB := fns, every;
      ghost var low := (0, 0);
      h := 0;
      NotHalved(fns, every);
      while fns > DRIFT_MAX || every > DRIFT_MAX
        invariant every > 0 && Halving(wholeA, wholeB, fns, every, low, h)
        invariant h > 0 ==> TooLarge(wholeA, wholeB, h - 1)
        decreases fns + every
      {
        low := HalveBoth(wholeA, wholeB, fns, every, low, h);
        h := h + 1;
        fns := fns / 2;
        every := every / 2;
      }
      HalvingDone(rem, rate, fns, every, low, h);
    }

    /** dfl_tod_adjust_fine, for a total rate of `ppb` (the nominal billion included). */
    method AdjustFine(ppb: nat, rate: nat) returns (ret: int, ghost every: nat, ghost h: nat)
      requires 0 < rate < U32 && PpbInRange(ppb)
      modifies this`period, this`driftFns, this`driftRate
      ensures ret == 0 || ret == -ERANGE
      ensures ret == 0 <==> PeriodAccepted(ppb, rate)
      ensures ret != 0 ==> period == old(period) && driftFns == old(driftFns) && driftRate == old(driftRate)
      ensures ret == 0 ==> period <= PERIOD_MAX && driftFns <= DRIFT_MAX && driftRate <= DRIFT_MAX
      ensures ret == 0 ==> period == Cycle(ppb, rate) % U32
      ensures ret == 0 && rate >= SLOWEST_CLOCK ==>
        period * rate <= ppb * 0x1_0000 < period * rate + rate && CycleRest(ppb, rate) == ppb * 0x1_0000 - period * rate
      ensures ret == 0 && driftRate > 0 ==> Abs(driftFns * rate - CycleRest(ppb, rate) * driftRate) < rate
      ensures ret == 0 ==> Halved(CycleRest(ppb, rate), rate, driftFns, every, h)
      ensures ret == 0 ==> driftRate == if driftFns == 0 then 0 else every
    {
      hide Halved; hide Cycle; hide CycleRest; hide Abs; hide Gcd; hide PeriodFits;
      var quotient, rem := Cycle(ppb, rate), CycleRest(ppb, rate);
      var todPeriod := quotient % U32;
      CycleMeans(ppb, rate);
      if rate >= SLOWEST_CLOCK { QuotientFits(ppb, rate); }
      every, h := 0, 0;
      if todPeriod > PERIOD_MAX {
        return -ERANGE, 0, 0;
      }
      var fns, drift;
      fns, drift, h := DriftFor(rem, rate);
      every := drift;
      period := todPeriod;
      driftFns := fns;
      driftRate := if fns == 0 then 0 else drift;
      ret := 0;
    }

    /** fine_adjust_tod_clock: the period is replaced for `count` cycles. */
    method FineAdjust(adjPeriod: nat, count: nat) returns (ret: int)
      requires adjPeriod <= PERIOD_MAX && 0 < count <= COUNT_MAX
      modifies this`programmed
      ensures programmed == old(programmed) + count * (adjPeriod - period)
    {
      programmed := programmed + count * (adjPeriod - period);
      ret := *;
    }

    /** coarse_adjust_tod_clock: adds to the time, in whole seconds and nanoseconds. */
    method CoarseAdjust(delta: nat)
      requires Valid() && seconds * GIGA + nanosec + delta < U64
      modifies this`seconds, this`nanosec
      ensures nanosec < GIGA && seconds * GIGA + nanosec == old(seconds * GIGA + nanosec) + delta
    {
      if delta == 0 {
        return;
      }
      var now := seconds * GIGA + nanosec + delta;
      seconds := now / GIGA;
      nanosec := now % GIGA;
    }

    /** The time, fine adjustments included, in ns/2^16. */
    ghost function Now(): int
      reads this
    {
      FRAC * (seconds * GIGA + nanosec) + programmed
    }

    /** dfl_tod_adjust_time. The clock moves by exactly the offset asked for, unless the offset is negative
        and too large for a fine adjustment: then it moves as far in the other direction. */
    method AdjustTime(delta: int) returns (ret: int)
      requires Valid() && StepFor(period, delta) > 0
      requires seconds * GIGA + nanosec + Abs(delta) < U64
      modifies this`seconds, this`nanosec, this`programmed
      ensures Valid() && period == old(period)
      ensures Now() - old(Now()) == FRAC * Moved(period, delta)
      ensures Now() - old(Now()) == FRAC * delta <==> delta >= 0 || IsFine(period, delta)
      ensures delta < 0 ==> (IsFine(period, delta) <==> -delta / (period / 0x1_0000) <= 0xF_FFFF)
      ensures delta >= 0 ==> (IsFine(period, delta) <==> delta / ((0xF_FFFF - period) / 0x1_0000) <= 0xF_FFFF)
      ensures IsFine(period, delta) ==> seconds == old(seconds) && nanosec == old(nanosec)
      ensures !IsFine(period, delta) ==> programmed == old(programmed)
    {
      hide StepFor; hide Abs; hide CyclesFor; hide RestFor;
      AbsFacts(delta);
      FineMeans(period, delta);
      var neg := delta < 0;
      var magnitude := Abs(delta);
      var diff := StepFor(period, delta);
      var count, rem := CyclesFor(period, delta), RestFor(period, delta);
      StepBounds(period, delta);
      if count > COUNT_MAX {
        CoarseAdjust(magnitude);
        return 0;
      }
      Parts(period, delta);
      ret := FineOffset(neg, diff, count, rem);
    }

    /** The fine path of dfl_tod_adjust_time: `count` cycles of the largest step and one of the rest. */
    method FineOffset(neg: bool, diff: nat, count: nat, rem: nat) returns (ret: int)
      requires period <= PERIOD_MAX && rem < diff && count <= COUNT_MAX
      requires if neg then diff * FRAC <= period else period + diff * FRAC <= PERIOD_MAX
      modifies this`programmed
      ensures programmed == old(programmed) + (if neg then -1 else 1) * (FRAC * (count * diff + rem))
    {
      ret := 0;
      var adjPeriod := if neg then period - diff * FRAC else period + diff * FRAC;
      var remPeriod := if neg then period - rem * FRAC else period + rem * FRAC;
      Scaled(count, diff);
      if count > 0 {
        ret := FineAdjust(adjPeriod, count);
      }
      if rem > 0 {
        ret := FineAdjust(remPeriod, 1);
      }
    }
  }

  predicate TooLarge(wholeA: nat, wholeB: nat, h: nat) {
    wholeA / Pow2(h) > DRIFT_MAX || wholeB / Pow2(h) > DRIFT_MAX
  }

  /** a and b are A and B without their low h bits. */
  ghost predicate Halving(wholeA: nat, wholeB: nat, a: nat, b: nat, low: (nat, nat), h: nat) {
    wholeA == a * Pow2(h) + low.0 && low.0 < Pow2(h) && wholeB == b * Pow2(h) + low.1 && low.1 < Pow2(h)
  }

  lemma NotHalved(a: nat, b: nat)
    ensures Halving(a, b, a, b, (0, 0), 0)
  {
    assert Pow2(0) == 1;
  }

  lemma HalveBoth(wholeA: nat, wholeB: nat, a: nat, b: nat, low: (nat, nat), h: nat) returns (low': (nat, nat))
    requires Halving(wholeA, wholeB, a, b, low, h) && wholeA < wholeB && (a > DRIFT_MAX || b > DRIFT_MAX)
    ensures Halving(wholeA, wholeB, a / 2, b / 2, low', h + 1) && TooLarge(wholeA, wholeB, h) && b / 2 > 0
  {
    var scale := Pow2(h);
    HalveStep(wholeA, a, scale, low.0);
    HalveStep(wholeB, b, scale, low.1);
    low' := ((a % 2) * scale + low.0, (b % 2) * scale + low.1);
    assert Pow2(h + 1) == 2 * scale;
    Larger(wholeA, wholeB, a, b, scale, low.0, low.1);
    DivUnique(wholeA, scale, a);
    DivUnique(wholeB, scale, b);
  }

  lemma HalvingDone(rem: nat, rate: nat, fns: nat, every: nat, low: (nat, nat), h: nat)
    requires rem < rate && fns <= DRIFT_MAX && 0 < every <= DRIFT_MAX && Gcd(rem, rate) > 0
    requires Halving(rem / Gcd(rem, rate), rate / Gcd(rem, rate), fns, every, low, h)
    requires h > 0 ==> TooLarge(rem / Gcd(rem, rate), rate / Gcd(rem, rate), h - 1)
    ensures Halved(rem, rate, fns, every, h)
    ensures Abs(fns * rate - rem * every) < rate
    ensures rate / Gcd(rem, rate) <= DRIFT_MAX ==> fns * rate == rem * every
  {
    hide Gcd; hide Abs;
    var g := Gcd(rem, rate);
    Reduced(rem, rate);
    var wholeA, wholeB, scale := rem / g, rate / g, Pow2(h);
    DivUnique(wholeA, scale, fns);
    DivUnique(wholeB, scale, every);
    HalvedRatio(wholeA, wholeB, fns, every, scale, low.0, low.1);
    ScaleUp(g, fns, wholeA, every, wholeB);
    if wholeB <= DRIFT_MAX {
      if h > 0 { NotTooLarge(wholeA, wholeB, h - 1); }
      assert Pow2(0) == 1;
      Same(g, wholeA, wholeB);
    }
  }

  lemma NotTooLarge(wholeA: nat, wholeB: nat, h: nat)
    requires wholeA < wholeB <= DRIFT_MAX
    ensures !TooLarge(wholeA, wholeB, h)
  {
    Smaller(wholeA, Pow2(h));
    Smaller(wholeB, Pow2(h));
  }

  lemma Smaller(x: nat, d: nat)
    requires d > 0
    ensures x / d <= x
  {
    assert x == d * (x / d) + x % d;
    Monotone(1, d, x / d);
  }

  lemma AbsFacts(x: int)
    ensures Abs(x) == if x < 0 then -x else x
  {
  }

  /** The most whole nanoseconds one cycle can be stretched or shortened by. */
  function StepFor(period: nat, delta: int): nat
    requires period <= PERIOD_MAX
  {
    if delta < 0 then period / FRAC else (PERIOD_MAX - period) / FRAC
  }

  /** Cycles of the largest step, and the nanoseconds left for one more cycle. */
  function CyclesFor(period: nat, delta: int): nat
    requires period <= PERIOD_MAX && StepFor(period, delta) > 0
  {
    Abs(delta) / StepFor(period, delta)
  }

  function RestFor(period: nat, delta: int): (rem: nat)
    requires period <= PERIOD_MAX && StepFor(period, delta) > 0
    ensures rem < StepFor(period, delta)
  {
    Abs(delta) % StepFor(period, delta)
  }

  predicate IsFine(period: nat, delta: int)
    requires period <= PERIOD_MAX && StepFor(period, delta) > 0
  {
    CyclesFor(period, delta) <= COUNT_MAX
  }

  /** The steps a fine adjustment takes, in numbers: no more than 0xFFFFF of what the period leaves room for. */
  lemma FineMeans(period: nat, delta: int)
    requires period <= PERIOD_MAX && StepFor(period, delta) > 0
    ensures delta < 0 ==> (IsFine(period, delta) <==> -delta / (period / 0x1_0000) <= 0xF_FFFF)
    ensures delta >= 0 ==> (IsFine(period, delta) <==> delta / ((0xF_FFFF - period) / 0x1_0000) <= 0xF_FFFF)
  {
  }

  /** How far the clock moves when asked to move by delta. */
  function Moved(period: nat, delta: int): int
    requires period <= PERIOD_MAX && StepFor(period, delta) > 0
  {
    if IsFine(period, delta) then delta else Abs(delta)
  }

  /** At a period of 6.4 ns, turning the clock back by some 6.3 ms turns it forward by as much. */
  lemma WrongDirection()
    ensures StepFor(0x6_6666, -6_291_456) == 6 && Moved(0x6_6666, -6_291_456) == 6_291_456
  {
  }

  lemma StepBounds(period: nat, delta: int)
    requires period <= PERIOD_MAX
    ensures delta < 0 ==> StepFor(period, delta) * FRAC <= period
    ensures delta >= 0 ==> period + StepFor(period, delta) * FRAC <= PERIOD_MAX
  {
  }

  lemma Parts(period: nat, delta: int)
    requires period <= PERIOD_MAX && StepFor(period, delta) > 0
    ensures Abs(delta) == CyclesFor(period, delta) * StepFor(period, delta) + RestFor(period, delta)
  {
    hide StepFor; hide Abs;
  }

  lemma Scaled(count: nat, diff: nat)
    ensures count * (diff * FRAC) == FRAC * (count * diff) && count * (-(diff * FRAC)) == -(FRAC * (count * diff))
  {
  }

  lemma Same(g: nat, a: nat, b: nat)
    ensures a * (g * b) == (g * a) * b
  {
  }

  lemma Larger(wholeA: nat, wholeB: nat, a: nat, b: nat, scale: nat, lowA: nat, lowB: nat)
    requires wholeA == a * scale + lowA && lowA < scale && wholeB == b * scale + lowB && lowB < scale && wholeA < wholeB
    ensures a <= b
  {
    if a > b { StrictlyMore(b, a, scale); }
  }
}
