/** Conversion between performance-counter ticks and nanoseconds (clock.cpp). */
module Clock {
  import opened Arithmetic

  const NS_PER_SEC: int := 1_000_000_000
  const INT64_MAX: int := 0x7FFF_FFFF_FFFF_FFFF

  /** Division and remainder as the source has them: truncated toward zero. */
  function TruncDiv(a: int, b: int): int
    requires b > 0
  {
    if a >= 0 then a / b else -(-a / b)
  }

  function TruncMod(a: int, b: int): int
    requires b > 0
  {
    if a >= 0 then a % b else -(-a % b)
  }

  /** Both conversions: whole units scaled, plus the scaled remainder. */
  function Split(a: int, n: int, b: int): int
    requires b > 0
  {
    TruncDiv(a, b) * n + TruncDiv(TruncMod(a, b) * n, b)
  }

  function TicksToNs(ticks: int, hz: int): int { if hz <= 0 then 0 else Split(ticks, NS_PER_SEC, hz) }

  function NsToTicks(ns: int, hz: int): int { if hz <= 0 then 0 else Split(ns, hz, NS_PER_SEC) }

  /** Splitting off whole units first changes nothing: floor(a*n/b) in two parts. */
  lemma {:induction false} SplitQuotient(a: int, n: int, b: int)
    requires a >= 0 && n > 0 && b > 0
    ensures (a / b) * n + ((a % b) * n) / b == (a * n) / b
  {
    var q, r := a / b, a % b;
    var q2, r2 := (r * n) / b, (r * n) % b;
    assert a == q * b + r && r * n == q2 * b + r2;
    Regroup(q, b, r, n, q2);
    DivUnique(a * n, b, q * n + q2, r2);
  }

  lemma Regroup(q: int, b: int, r: int, n: int, q2: int)
    ensures (q * b + r) * n == (q * n) * b + r * n
    ensures (q * n + q2) * b == (q * n) * b + q2 * b
  {
    assert (q * b) * n == (q * n) * b;
  }

  lemma NonNegativeProduct(a: int, b: int)
    requires a >= 0 && b >= 0
    ensures a * b >= 0
  {
  }

  /** The split form is the exact quotient, truncated, for every tick count; without a frequency it is 0. */
  lemma {:induction false} TicksToNsExact(ticks: int, hz: int)
    ensures TicksToNs(ticks, hz) == if hz <= 0 then 0 else TruncDiv(ticks * NS_PER_SEC, hz)
  {
    if hz <= 0 {
    } else if ticks >= 0 {
      NonNegativeProduct(ticks % hz, NS_PER_SEC);
      SplitQuotient(ticks, NS_PER_SEC, hz);
    } else {
      NonNegativeProduct(-ticks % hz, NS_PER_SEC);
      SplitQuotient(-ticks, NS_PER_SEC, hz);
      assert -(ticks * NS_PER_SEC) == -ticks * NS_PER_SEC;
    }
  }

  /** The same for the other direction, for times of either sign. */
  lemma NsToTicksExact(ns: int, hz: int)
    ensures NsToTicks(ns, hz) == if hz <= 0 then 0 else TruncDiv(ns * hz, NS_PER_SEC)
  {
    if hz <= 0 {
    } else if ns >= 0 {
      NonNegativeProduct(ns % NS_PER_SEC, hz);
      NonNegativeProduct(ns, hz);
      SplitQuotient(ns, hz, NS_PER_SEC);
    } else {
      NonNegativeProduct(-ns % NS_PER_SEC, hz);
      NonNegativeProduct(-ns, hz);
      SplitQuotient(-ns, hz, NS_PER_SEC);
      Negations(-ns, hz);
      Negations(-ns % NS_PER_SEC, hz);
    }
  }

  lemma Negations(a: int, b: int)
    ensures -a * b == -(a * b)
  {
  }

  lemma {:induction false} DivMonotone(a: int, b: int, d: int)
    requires 0 <= a <= b && d > 0
    ensures a / d <= b / d
  {
    var q, q' := a / d, b / d;
    assert a == q * d + a % d && b == q' * d + b % d;
    assert (q' + 1) * d == q' * d + d;
    if q' < q { MulMonotone(q' + 1, q, d); }
  }

  lemma TruncDivMonotone(a: int, b: int, d: int)
    requires a <= b && d > 0
    ensures TruncDiv(a, d) <= TruncDiv(b, d) && (0 <= b ==> 0 <= TruncDiv(b, d))
  {
    if a >= 0 {
      DivMonotone(a, b, d);
      DivMonotone(0, b, d);
    } else if b >= 0 {
      DivMonotone(0, -a, d);
      DivMonotone(0, b, d);
    } else {
      DivMonotone(-b, -a, d);
    }
    DivUnique(0, d, 0, 0);
  }

  /** Time does not run backwards, on either side of zero. */
  lemma TicksToNsMonotone(a: int, b: int, hz: int)
    requires a <= b && hz > 0
    ensures TicksToNs(a, hz) <= TicksToNs(b, hz) && (0 <= b ==> 0 <= TicksToNs(b, hz))
  {
    TicksToNsExact(a, hz);
    TicksToNsExact(b, hz);
    MulMonotone(a, b, NS_PER_SEC);
    TruncDivMonotone(a * NS_PER_SEC, b * NS_PER_SEC, hz);
  }

  const INT64_MIN: int := -0x8000_0000_0000_0000

  predicate FitsInt64(x: int) { INT64_MIN <= x <= INT64_MAX }

  /** The largest frequency for which no remainder overflows 64 bits when scaled to nanoseconds. */
  const MAX_HZ: int := 9_223_372_037

  /** The largest one for which no remainder overflows when scaled to ticks. */
  const MAX_HZ_BACK: int := 9_223_372_046

  lemma ModIsSmaller(a: int, b: int)
    requires b > 0
    ensures -b < TruncMod(a, b) < b && (a >= 0 ==> TruncMod(a, b) >= 0) && (a <= 0 ==> TruncMod(a, b) <= 0)
  {
    if a == 0 { DivUnique(0, b, 0, 0); }
  }

  lemma ScaledRemainder(a: int, b: int, n: int, most: int)
    requires b > 0 && n > 0 && b - 1 <= most
    ensures -(most * n) <= TruncMod(a, b) * n <= most * n
  {
    ModIsSmaller(a, b);
    MulMonotone(TruncMod(a, b), most, n);
    MulMonotone(-most, TruncMod(a, b), n);
  }

  /** The scaled remainder fits for every tick count of either sign if and only if the frequency is at most MAX_HZ. */
  lemma RemainderFitsIff(hz: int)
    requires hz > 0
    ensures (forall ticks :: FitsInt64(TruncMod(ticks, hz) * NS_PER_SEC)) <==> hz <= MAX_HZ
  {
    if hz <= MAX_HZ {
      forall ticks
        ensures FitsInt64(TruncMod(ticks, hz) * NS_PER_SEC)
      {
        ScaledRemainder(ticks, hz, NS_PER_SEC, MAX_HZ - 1);
      }
    } else {
      DivUnique(hz - 1, hz, 0, hz - 1);
      MulMonotone(MAX_HZ, TruncMod(hz - 1, hz), NS_PER_SEC);
    }
  }

  /** In the other direction the remainder of every time, scaled to ticks, fits up to MAX_HZ_BACK and no further. */
  lemma RemainderFitsBackIff(hz: int)
    requires hz > 0
    ensures (forall ns :: FitsInt64(TruncMod(ns, NS_PER_SEC) * hz)) <==> hz <= MAX_HZ_BACK
  {
    if hz <= MAX_HZ_BACK {
      MulMonotone(hz, MAX_HZ_BACK, NS_PER_SEC - 1);
      forall ns
        ensures FitsInt64(TruncMod(ns, NS_PER_SEC) * hz)
      {
        ScaledRemainder(ns, NS_PER_SEC, hz, NS_PER_SEC - 1);
      }
    } else {
      assert TruncMod(NS_PER_SEC - 1, NS_PER_SEC) == NS_PER_SEC - 1;
      MulMonotone(MAX_HZ_BACK + 1, hz, NS_PER_SEC - 1);
    }
  }

  lemma TruncDivSign(a: int, b: int)
    requires b > 0
    ensures a >= 0 ==> 0 <= TruncDiv(a, b) <= a
    ensures a <= 0 ==> a <= TruncDiv(a, b) <= 0
  {
    DivUnique(0, b, 0, 0);
    if a >= 0 { QuotientSmaller(a, b); } else { QuotientSmaller(-a, b); }
  }

  lemma QuotientSmaller(a: int, b: int)
    requires a >= 0 && b > 0
    ensures 0 <= a / b <= a
  {
    DivMonotone(0, a, b);
    DivUnique(0, b, 0, 0);
    MulMonotone(1, b, a / b);
    assert a == (a / b) * b + a % b;
  }

  /** The parts of the sum have one sign, so none is larger than the sum. */
  lemma PartsFit(a: int, n: int, b: int)
    requires n > 0 && b > 0 && (b - 1) * n <= INT64_MAX && FitsInt64(Split(a, n, b))
    ensures FitsInt64(TruncDiv(a, b) * n)
    ensures FitsInt64(TruncMod(a, b) * n)
    ensures FitsInt64(TruncDiv(TruncMod(a, b) * n, b))
  {
    hide TruncDiv, TruncMod;
    ModIsSmaller(a, b);
    ScaledRemainder(a, b, n, b - 1);
    TruncDivSign(a, b);
    TruncDivSign(TruncMod(a, b) * n, b);
    SignOfProduct(TruncDiv(a, b), n);
    SignOfProduct(TruncMod(a, b), n);
  }

  lemma SignOfProduct(x: int, n: int)
    requires n > 0
    ensures (x >= 0 ==> x * n >= 0) && (x <= 0 ==> x * n <= 0)
  {
  }

  /** If the result fits in 64 bits and the frequency is in range, so do all intermediate values, for tick
      counts of either sign. */
  lemma NoIntermediateOverflow(ticks: int, hz: int)
    requires 0 < hz <= MAX_HZ && FitsInt64(TicksToNs(ticks, hz))
    ensures FitsInt64(TruncDiv(ticks, hz) * NS_PER_SEC)
    ensures FitsInt64(TruncMod(ticks, hz) * NS_PER_SEC)
    ensures FitsInt64(TruncDiv(TruncMod(ticks, hz) * NS_PER_SEC, hz))
  {
    MulMonotone(hz - 1, MAX_HZ - 1, NS_PER_SEC);
    PartsFit(ticks, NS_PER_SEC, hz);
  }

  /** The same for the other direction. */
  lemma NoIntermediateOverflowBack(ns: int, hz: int)
    requires 0 < hz <= MAX_HZ_BACK && FitsInt64(NsToTicks(ns, hz))
    ensures FitsInt64(TruncDiv(ns, NS_PER_SEC) * hz)
    ensures FitsInt64(TruncMod(ns, NS_PER_SEC) * hz)
    ensures FitsInt64(TruncDiv(TruncMod(ns, NS_PER_SEC) * hz, NS_PER_SEC))
  {
    MulMonotone(hz, MAX_HZ_BACK, NS_PER_SEC - 1);
    PartsFit(ns, hz, NS_PER_SEC);
  }

  lemma DivTimes(x: int, d: int)
    requires x >= 0 && d > 0
    ensures x - d < (x / d) * d <= x
  {
  }

  lemma RoundTripAhead(ticks: int, hz: int)
    requires ticks >= 0 && 0 < hz <= NS_PER_SEC
    ensures ticks - 1 <= NsToTicks(TicksToNs(ticks, hz), hz) <= ticks
  {
    var ns := TicksToNs(ticks, hz);
    TicksToNsMonotone(0, ticks, hz);
    TicksToNsExact(ticks, hz);
    NsToTicksExact(ns, hz);
    NonNegativeProduct(ticks, NS_PER_SEC);
    NonNegativeProduct(ns, hz);
    DivTimes(ticks * NS_PER_SEC, hz);
    var x := ns * hz;
    assert ticks * NS_PER_SEC - hz < x <= ticks * NS_PER_SEC;
    DivTimes(x, NS_PER_SEC);
  }

  lemma TruncDivOdd(a: int, d: int)
    requires d > 0
    ensures TruncDiv(-a, d) == -TruncDiv(a, d)
  {
    DivUnique(0, d, 0, 0);
  }

  /** There and back loses at most one tick toward zero, up to one tick per nanosecond. */
  lemma RoundTrip(ticks: int, hz: int)
    requires 0 < hz <= NS_PER_SEC
    ensures var back := NsToTicks(TicksToNs(ticks, hz), hz);
            if ticks >= 0 then ticks - 1 <= back <= ticks else ticks <= back <= ticks + 1
  {
    if ticks >= 0 {
      RoundTripAhead(ticks, hz);
    } else {
      RoundTripAhead(-ticks, hz);
      var ns := TicksToNs(-ticks, hz);
      TicksToNsExact(ticks, hz);
      TicksToNsExact(-ticks, hz);
      Negations(-ticks, NS_PER_SEC);
      TruncDivOdd(-ticks * NS_PER_SEC, hz);
      NsToTicksExact(ns, hz);
      NsToTicksExact(-ns, hz);
      Negations(ns, hz);
      TruncDivOdd(ns * hz, NS_PER_SEC);
    }
  }
}
