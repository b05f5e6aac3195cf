/** What the cascade search promises its callers: optimality, idempotence, agreement of the early
    exit, and never doing worse than the power-of-two search. */
module CascadeLaws {
  import opened Word32
  import opened Divisors
  import opened Cascade

  function Distance(a: int, b: int): nat {
    if a <= b then b - a else a - b
  }

  /** DOWN gives the greatest makeable period not above the request, always. */
  lemma DownIsGreatest(base: u32, ns: u32, p: nat)
    requires InRange(base, ns) && Reachable(p) && base * p <= ns
    ensures base * p <= Period(base, ns, Down) <= ns
  {
    QuotientAtLeast(ns, base, 4);
    CompareProduct(ns, base, p);
    CompareProduct(ns, base, Greatest(ns / base));
    MulLess(base, p, Greatest(ns / base));
  }

  /** The least makeable period not below the request. */
  lemma HighIsLeast(base: u32, ns: u32, p: nat)
    requires InRange(base, ns) && Reachable(p) && base * p >= ns
    ensures ns <= High(base, ns) <= base * p
  {
    CeilBound(ns, base);
    CompareProduct(ns, base, p);
    CompareProduct(ns, base, Least(CeilDiv(ns, base)));
    MulLess(base, Least(CeilDiv(ns, base)), p);
  }

  /** The greatest makeable period below 2^32 - 1: what DOWN answers for 2^32 - 2. */
  ghost function Top(base: u32): nat
    requires 2 <= base && 4 * base < UINT_MAX
  {
    Low(base, UINT_MAX - 1)
  }

  /** The upper candidate is usable exactly for requests up to the top. */
  lemma UsableHigh(base: u32, ns: u32)
    requires InRange(base, ns)
    ensures High(base, ns) < UINT_MAX <==> ns <= Top(base)
  {
    hide Reachable;
    HighIsNotBelow(base, ns);
    CeilBound(ns, base);
    var l := Least(CeilDiv(ns, base));
    if High(base, ns) < UINT_MAX {
      DownIsGreatest(base, UINT_MAX - 1, l);
    }
    LowIsPositive(base, UINT_MAX - 1);
    QuotientAtLeast(UINT_MAX - 1, base, 4);
    if ns <= Top(base) {
      HighIsLeast(base, ns, Greatest((UINT_MAX - 1) / base));
    }
  }

  /** UP meets its promise exactly for requests up to the top; beyond it the period is 0. */
  lemma UpExactly(base: u32, ns: u32)
    requires InRange(base, ns)
    ensures Period(base, ns, Up) == if ns <= Top(base) then High(base, ns) else 0
    ensures Period(base, ns, Up) >= ns <==> ns <= Top(base)
  {
    hide High, Top;
    UsableHigh(base, ns);
    HighIsNotBelow(base, ns);
  }

  /** The range in which a caller can rely on it: 65537 timebases below the top of the word. */
  lemma HighFits(base: u32, ns: u32)
    requires InRange(base, ns) && ns + 65537 * base < TWO_32
    ensures High(base, ns) < UINT_MAX && High(base, ns) <= ns + 65536 * base
  {
    var q := ns / base;
    CeilBound(ns, base);
    QuotientAtLeast(ns, base, 4);
    var a := if q / MAX_COUNT + 1 < 2 then 2 else q / MAX_COUNT + 1;
    var b := q / a + 1;
    assert q < Prod(a, MAX_COUNT);
    NarrowRow(q, a);
    assert b >= 2 by { QuotientAtLeast(q, a, 1); }
    var p := Prod(a, b);
    NextProduct(q, a);
    PairIsReachable(a, b);
    hide Prod, Reachable;
    CompareProduct(ns, base, p);
    HighIsLeast(base, ns, p);
    MulLess(base, p, q + 65536);
    Distribute(base, q, 65536);
  }

  lemma NextProduct(q: nat, a: nat)
    requires a > 0
    ensures q < Prod(a, q / a + 1) <= q + a
  {
    assert q == a * (q / a) + q % a;
    assert a * (q / a + 1) == a * (q / a) + a;
  }

  /** A request near the top of the word that UP answers with a period of 0. */
  lemma UpFailsAtTop()
    ensures InRange(100, 0xffff_ffff) && Period(100, 0xffff_ffff, Up) == 0
  {
    CeilBound(0xffff_ffff, 100);
    var l := Least(CeilDiv(0xffff_ffff, 100));
    CompareProduct(0xffff_ffff, 100, l);
    assert 100 * l != 0xffff_ffff;
  }

  /** `period` is at least as near to `ns` as the makeable period of `p`, and below it on a tie. */
  predicate NearerThan(base: nat, p: nat, period: nat, ns: nat) {
    && Distance(period, ns) <= Distance(base * p, ns)
    && (Distance(period, ns) == Distance(base * p, ns) ==> period <= base * p)
  }

  /** The promise of NEAREST. */
  ghost predicate KeepsNearest(base: u32, ns: u32)
    requires InRange(base, ns)
  {
    forall p: nat | Reachable(p) :: NearerThan(base, p, Period(base, ns, Nearest), ns)
  }

  /** The requests NEAREST is right for, in terms of what DOWN answers: up to the top; beyond it only
      while the period below is no farther away than 2^32, or than 2^32 - 1 where that is makeable. */
  ghost predicate NearestReach(base: u32, ns: u32)
    requires InRange(base, ns)
  {
    || ns <= Top(base)
    || 2 * ns - Low(base, ns) < TWO_32
    || (2 * ns - Low(base, ns) == TWO_32 && Low(base, UINT_MAX) < UINT_MAX)
  }

  /** Within its reach NEAREST is at least as near as every makeable period, and rounds down on a tie. */
  lemma NearestIsNearest(base: u32, ns: u32, p: nat)
    requires InRange(base, ns) && NearestReach(base, ns) && Reachable(p)
    ensures NearerThan(base, p, Period(base, ns, Nearest), ns)
  {
    hide Reachable, Low, High, Wrap, Top;
    LowIsPositive(base, ns);
    HighIsNotBelow(base, ns);
    UsableHigh(base, ns);
    if base * p <= ns { DownIsGreatest(base, ns, p); }
    if base * p >= ns { HighIsLeast(base, ns, p); }
    if ns <= Top(base) {
      SmallWord(High(base, ns) - ns);
    } else {
      WrapBelowZero(ns);
      TopProduct(base, ns);
    }
  }

  lemma WrapBelowZero(ns: u32)
    requires ns > 0
    ensures Wrap(0 - ns) == TWO_32 - ns
  {
  }

  /** When the upper candidate is 2^32 - 1 itself, DOWN finds it too. */
  lemma TopProduct(base: u32, ns: u32)
    requires InRange(base, ns)
    ensures High(base, ns) == UINT_MAX ==> Low(base, UINT_MAX) == UINT_MAX
    ensures Low(base, UINT_MAX) == UINT_MAX ==> High(base, ns) <= UINT_MAX
  {
    hide Reachable;
    CeilBound(ns, base);
    QuotientAtLeast(UINT_MAX, base, 4);
    LowIsPositive(base, UINT_MAX);
    var l, g := Least(CeilDiv(ns, base)), Greatest(UINT_MAX / base);
    if High(base, ns) == UINT_MAX { DownIsGreatest(base, UINT_MAX, l); }
    if Low(base, UINT_MAX) == UINT_MAX { HighIsLeast(base, ns, g); }
  }

  /** NEAREST keeps its promise exactly within its reach. */
  lemma NearestExactly(base: u32, ns: u32)
    requires InRange(base, ns)
    ensures KeepsNearest(base, ns) <==> NearestReach(base, ns)
  {
    hide Reachable, Low, High, Wrap, Top;
    if NearestReach(base, ns) {
      forall p: nat | Reachable(p) ensures NearerThan(base, p, Period(base, ns, Nearest), ns) {
        NearestIsNearest(base, ns, p);
      }
    } else {
      NearestBeyond(base, ns);
    }
  }

  /** Outside it, the period below or 2^32 - 1 is nearer than what NEAREST returns. */
  lemma NearestBeyond(base: u32, ns: u32)
    requires InRange(base, ns) && !NearestReach(base, ns)
    ensures !KeepsNearest(base, ns)
    ensures 2 * ns - Low(base, ns) > TWO_32 ==> Period(base, ns, Nearest) == 0
  {
    hide Reachable, Wrap, Top, NearerThan;
    LowIsPositive(base, ns);
    HighIsNotBelow(base, ns);
    UsableHigh(base, ns);
    WrapBelowZero(ns);
    TopProduct(base, ns);
    LowIsPositive(base, UINT_MAX);
    CeilBound(ns, base);
    QuotientAtLeast(ns, base, 4);
    var p := if 2 * ns - Low(base, ns) > TWO_32 then Greatest(ns / base) else Least(CeilDiv(ns, base));
    assert Reachable(p);
    NotNearer(base, p, Period(base, ns, Nearest), ns);
  }

  lemma NotNearer(base: nat, p: nat, period: nat, ns: nat)
    requires Distance(period, ns) > Distance(base * p, ns)
    ensures !NearerThan(base, p, period, ns)
  {
  }

  /** The same request near the top that fails for UP: NEAREST answers with a period of 0. */
  lemma NearestFailsAtTop()
    ensures InRange(100, 0xffff_ffff) && Period(100, 0xffff_ffff, Nearest) == 0
    ensures !KeepsNearest(100, 0xffff_ffff)
  {
    hide Reachable, Low, High, Wrap, KeepsNearest;
    var low := Low(100, 0xffff_ffff);
    LowIsPositive(100, 0xffff_ffff);
    assert low == 100 * Greatest(0xffff_ffff / 100) by { LowIs(100, 0xffff_ffff); }
    UpFailsAtTop();
    UpExactly(100, 0xffff_ffff);
    NearestBeyond(100, 0xffff_ffff);
  }

  lemma LowIs(base: u32, ns: u32)
    requires InRange(base, ns)
    ensures ns / base >= 4 && Low(base, ns) == base * Greatest(ns / base)
  {
    QuotientAtLeast(ns, base, 4);
  }

  lemma HighIsNotBelow(base: u32, ns: u32)
    requires InRange(base, ns)
    ensures ns <= High(base, ns)
  {
    hide Reachable;
    CeilBound(ns, base);
    HighIsLeast(base, ns, Least(CeilDiv(ns, base)));
  }

  /** A makeable period is its own result in every rounding mode. */
  lemma MakeableIsFixed(base: u32, p: nat, mode: RoundMode)
    requires 2 <= base < TWO_31 && Reachable(p) && base * p < TWO_32
    ensures InRange(base, base * p)
    ensures Low(base, base * p) == High(base, base * p) == base * p
    ensures Period(base, base * p, mode) == base * p <==> !(mode.Up? && base * p == UINT_MAX)
  {
    var ns := base * p;
    AtLeastFour(p);
    MulLess(base, 4, p);
    assert 4 * base == base * 4;
    DownIsGreatest(base, ns, p);
    HighIsLeast(base, ns, p);
    LowIsPositive(base, ns);
    SmallWord(0);
    SmallWord(1);
  }

  lemma AtLeastFour(p: nat)
    requires Reachable(p)
    ensures p >= 4
  {
    var a: nat, b: nat :| Divisor(a) && Divisor(b) && Prod(a, b) == p;
    hide Prod;
    ProdMonotone(a, 2, b);
    Doubled(a);
  }

  /** The early exit agrees with the full search for every request but one: UP at 2^32 - 1. */
  lemma EarlyExitAgrees(base: u32, d1: u32, d2: u32, ns: u32, mode: RoundMode)
    requires InRange(base, ns) && CachedOk(base, d1, d2) && AlreadyRight(base, d1, d2, ns)
    ensures Period(base, ns, mode) == ns <==> !(mode.Up? && ns == UINT_MAX)
  {
    hide Prod, AlreadyRight, Period, Decode, Reachable;
    EarlyExitTest(base, d1, d2, ns);
    PairIsReachable(Decode(d1), Decode(d2));
    MakeableIsFixed(base, Prod(Decode(d1), Decode(d2)), mode);
  }

  /** That request: 65537 * 3 * 21845 is 2^32 - 1, which the early exit keeps and the search misses. */
  lemma EarlyExitDiffers()
    ensures InRange(65537, UINT_MAX) && CachedOk(65537, 3, 21845) && AlreadyRight(65537, 3, 21845, UINT_MAX)
    ensures Period(65537, UINT_MAX, Up) == 0
  {
    hide Period, Top, Low;
    assert 65537 * Prod(3, 21845) == UINT_MAX;
    EarlyExitTest(65537, 3, 21845, UINT_MAX);
    UpExactly(65537, UINT_MAX);
    TopBelow(65537);
  }

  lemma TopBelow(base: u32)
    requires 2 <= base && 4 * base < UINT_MAX
    ensures Top(base) < UINT_MAX
  {
    LowIsPositive(base, UINT_MAX - 1);
  }

  lemma PairIsReachable(a: nat, b: nat)
    requires Divisor(a) && Divisor(b)
    ensures Reachable(Prod(a, b))
  {
  }

  /** Running the timer call again on a period it returned gives that period again, in any
      rounding mode, with the returned divisors or with cleared ones. */
  lemma RerunIsStable(base: u32, ns: u32, mode: RoundMode, again: RoundMode)
    requires InRange(base, ns) && 0 < Period(base, ns, mode) < UINT_MAX
    ensures InRange(base, Period(base, ns, mode))
    ensures Period(base, Period(base, ns, mode), again) == Period(base, ns, mode)
  {
    hide Reachable;
    QuotientAtLeast(ns, base, 4);
    CeilBound(ns, base);
    var p := if Period(base, ns, mode) == Low(base, ns) then Greatest(ns / base) else Least(CeilDiv(ns, base));
    MakeableIsFixed(base, p, again);
  }

  // ---------------------------------------------------------------- the power-of-two search

  /** The rounded second divisor for a row of the power-of-two search. */
  function RoundedQuotient(ns: nat, row: nat, mode: RoundMode): nat
    requires row > 0
  {
    match mode
    case Nearest => (ns + row / 2) / row
    case Down => ns / row
    case Up => (ns + row - 1) / row
  }

  predicate PowerOfTwo(n: nat) {
    n == 1 || (n > 1 && n % 2 == 0 && PowerOfTwo(n / 2))
  }

  /** The rounding a single row of `row` nanoseconds a count can promise. */
  predicate WithinRow(mode: RoundMode, row: nat, period: nat, ns: nat) {
    match mode
    case Nearest => 2 * Distance(period, ns) <= row
    case Down => period <= ns < period + row
    case Up => ns <= period < ns + row
  }

  /** i8253_cascade_ns_to_timer_power: a power of two as first divisor, no larger than the period
      needs, and the period rounded to that row. Its last-resort ending is never reached. */
  method NsToTimerPower(base: u32, ns: u32, mode: RoundMode) returns (e1: u32, e2: u32, period: u32)
    requires InRange(base, ns) && ns + 65537 * base < TWO_32
    ensures Encodes(base, e1, e2, period) && period > 0
    ensures PowerOfTwo(Decode(e1)) && (Decode(e1) == 2 || Prod(base, Decode(e1)) * 0x8000 <= ns)
    ensures WithinRow(mode, Prod(base, Decode(e1)), period, ns)
  {
    hide Prod, RoundedQuotient, Mask, Decode, Encodes, WithinRow;
    var div1: u32 := 2;
    while div1 <= MAX_COUNT
      invariant 2 <= div1 <= 2 * MAX_COUNT && PowerOfTwo(div1)
      invariant div1 == 2 || Prod(base, div1) * 0x8000 <= ns
      decreases 2 * MAX_COUNT - div1
    {
      RowFits(base, div1, ns);
      var row: u32 := Prod(base, div1);
      RowRounding(ns, row, mode);
      var div2: u32 := Max(RoundedQuotient(ns, row, mode), 2);
      if div2 <= MAX_COUNT {
        PowerPair(base, div1, div2, row);
        return Mask(div1), Mask(div2), div2 * row;
      }
      NextRow(ns, row, div2);
      DoubledRow(base, div1);
      div1 := div1 * 2;
    }
    TopRow(base, div1);
    assert false;
  }

  lemma RowFits(base: u32, div1: nat, ns: u32)
    requires InRange(base, ns) && ns + 65537 * base < TWO_32 && 2 <= div1
    requires div1 == 2 || Prod(base, div1) * 0x8000 <= ns
    ensures 0 < Prod(base, div1) && 2 * Prod(base, div1) <= ns && ns + Prod(base, div1) < TWO_32
  {
    MulLess(base, 2, div1);
  }

  /** Where the rounded divisor lands, for every mode. */
  lemma RowRounding(ns: u32, row: nat, mode: RoundMode)
    requires 0 < row && 2 * row <= ns && ns + row < TWO_32
    ensures var d := RoundedQuotient(ns, row, mode);
      && 2 <= d < TWO_32
      && d * row <= ns + row
      && WithinRow(mode, row, d * row, ns)
  {
    var n := match mode case Nearest => ns + row / 2 case Down => ns case Up => ns + row - 1;
    QuotientBounds(n, row);
    QuotientAtLeast(n, row, 2);
  }

  lemma NextRow(ns: u32, row: nat, d: nat)
    requires MAX_COUNT < d && d * row <= ns + row && 0 < row
    ensures row * MAX_COUNT < ns + 1
  {
    MulLess(row, MAX_COUNT + 1, d);
    assert row * d == d * row;
  }

  lemma DoubledRow(base: nat, div1: nat)
    ensures Prod(base, div1 * 2) == 2 * Prod(base, div1)
  {
  }

  lemma TopRow(base: u32, div1: nat)
    requires base >= 2 && div1 > MAX_COUNT
    ensures Prod(base, div1) * 0x8000 > UINT_MAX
  {
    MulLess(base, MAX_COUNT, div1);
  }

  lemma PowerPair(base: u32, div1: u32, div2: u32, row: u32)
    requires base >= 2 && Divisor(div1) && Divisor(div2)
    requires row == Prod(base, div1) && div2 * row < TWO_32
    ensures Encodes(base, Mask(div1), Mask(div2), div2 * row) && div2 * row > 0
    ensures Decode(Mask(div1)) == div1
  {
    hide Encodes;
    assert div2 * row == base * Prod(div1, div2) by { Regroup(base, div1, div2); }
    MaskedPair(base, div1, div2);
    MulLess(div2, 1, row) by { MulLess(base, 1, div1); }
  }

  lemma Regroup(a: nat, b: nat, c: nat)
    ensures c * Prod(a, b) == a * Prod(b, c)
  {
  }

  /** NEAREST is never farther off than what the power-of-two search returns, in any mode. */
  lemma NearestBeatsPower(base: u32, ns: u32, e1: u32, e2: u32, power: nat)
    requires InRange(base, ns) && NearestReach(base, ns)
    requires Encodes(base, e1, e2, power) && power > 0
    ensures Distance(Period(base, ns, Nearest), ns) <= Distance(power, ns)
  {
    hide Prod, Period, Reachable;
    PairIsReachable(Decode(e1), Decode(e2));
    NearestIsNearest(base, ns, Prod(Decode(e1), Decode(e2)));
  }
}
