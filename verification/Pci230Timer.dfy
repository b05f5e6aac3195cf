/** The single-timer arithmetic of amplc_pci230.c. */
module Pci230Timer {
  import opened Word32
  import opened Divisors

  const CLK_10MHZ: nat := 1
  const CLK_1KHZ: nat := 5

  /** Nanoseconds per tick of the internal clock sources 1 (10 MHz) to 5 (1 kHz). */
  function Timebase(clk: nat): (tb: nat)
    requires CLK_10MHZ <= clk <= CLK_1KHZ
    ensures tb > 0 && tb % 2 == 0
  {
    if clk == 1 then 100 else if clk == 2 then 1000 else if clk == 3 then 10000
    else if clk == 4 then 100000 else 1000000
  }

  /** The clocks run at 10 MHz, 1 MHz and so on down to 1 kHz. */
  lemma ClocksAreDecades(clk: nat)
    requires CLK_10MHZ <= clk <= CLK_1KHZ
    ensures if clk == CLK_10MHZ then Timebase(clk) == 100 else Timebase(clk) == 10 * Timebase(clk - 1)
  {
  }

  /** The whole number of ticks nearest to, not above or not below `ns`. */
  function Ticks(ns: nat, clk: nat, mode: RoundMode): nat
    requires CLK_10MHZ <= clk <= CLK_1KHZ
  {
    var tb := Timebase(clk);
    match mode
    case Nearest => (ns + tb / 2) / tb
    case Down => ns / tb
    case Up => (ns + tb - 1) / tb
  }

  /** The finest clock source whose count fits the counter, or the slowest one. */
  function ClockFor(ns: nat, mode: RoundMode, from: nat := CLK_10MHZ): (clk: nat)
    requires CLK_10MHZ <= from <= CLK_1KHZ
    ensures from <= clk <= CLK_1KHZ
    ensures clk == CLK_1KHZ || Ticks(ns, clk, mode) <= MAX_COUNT
    ensures forall c | from <= c < clk :: Ticks(ns, c, mode) > MAX_COUNT
    decreases CLK_1KHZ - from
  {
    if Ticks(ns, from, mode) <= MAX_COUNT || from == CLK_1KHZ then from
    else ClockFor(ns, mode, from + 1)
  }

  /** The exact period of the chosen clock source and count. */
  function Rounded(ns: nat, mode: RoundMode): nat {
    Ticks(ns, ClockFor(ns, mode), mode) * Timebase(ClockFor(ns, mode))
  }

  /** divide_ns: whole ticks plus the rounded remainder, saturating at a word. */
  method DivideNs(ns: nat, clk: nat, mode: RoundMode) returns (div: u32)
    requires CLK_10MHZ <= clk <= CLK_1KHZ
    ensures div == Min(Ticks(ns, clk, mode), UINT_MAX)
  {
    var timebase := Timebase(clk);
    var wide := ns / timebase;
    var rem := ns % timebase;
    match mode {
      case Nearest => wide := wide + (rem + timebase / 2) / timebase;
      case Down =>
      case Up => wide := wide + (rem + timebase - 1) / timebase;
    }
    return if wide > UINT_MAX then UINT_MAX else wide;
  }

  /** pci230_choose_clk_count */
  method ChooseClkCount(ns: nat, mode: RoundMode) returns (clk: nat, count: u32)
    ensures clk == ClockFor(ns, mode)
    ensures count == Min(Ticks(ns, clk, mode), UINT_MAX)
  {
    clk := CLK_10MHZ;
    count := DivideNs(ns, clk, mode);
    while count > MAX_COUNT && clk != CLK_1KHZ
      invariant CLK_10MHZ <= clk <= CLK_1KHZ
      invariant count == Min(Ticks(ns, clk, mode), UINT_MAX)
      invariant ClockFor(ns, mode) == ClockFor(ns, mode, clk)
      decreases CLK_1KHZ - clk
    {
      clk := clk + 1;
      count := DivideNs(ns, clk, mode);
    }
  }

  /** pci230_ns_to_single_timer: the chosen period, as far as a word holds it. */
  method NsToSingleTimer(ns: u32, mode: RoundMode) returns (period: u32)
    ensures period == SingleTimer(ns, mode)
  {
    var clk, count := ChooseClkCount(ns, mode);
    WordPeriods(ns, mode);
    period := Wrap(count * Timebase(clk));
  }

  function SingleTimer(ns: u32, mode: RoundMode): u32 {
    Wrap(Rounded(ns, mode))
  }

  // ---------------------------------------------------------------- laws

  /** The requests whose rounded period still fits a word. */
  predicate Fits(ns: u32, mode: RoundMode) {
    match mode
    case Nearest => ns < 4294950000
    case Down => true
    case Up => ns <= 4294900000
  }

  /** Periods of a word need at most the 10 kHz clock. */
  lemma WordPeriods(ns: u32, mode: RoundMode)
    ensures ClockFor(ns, mode) <= 4 && Ticks(ns, ClockFor(ns, mode), mode) <= MAX_COUNT
  {
    assert Ticks(ns, 4, mode) <= MAX_COUNT;
  }

  /** The rounding promise: half a timebase for NEAREST, under one on the right side otherwise. */
  predicate WithinBound(mode: RoundMode, tb: int, r: int, ns: int) {
    match mode
    case Nearest => 0 - tb <= 2 * (r - ns) <= tb
    case Down => 0 <= ns - r < tb
    case Up => 0 <= r - ns < tb
  }

  /** How far a count of ticks is from the request. */
  lemma TicksBound(ns: nat, clk: nat, mode: RoundMode)
    requires CLK_10MHZ <= clk <= CLK_1KHZ
    ensures WithinBound(mode, Timebase(clk), Ticks(ns, clk, mode) * Timebase(clk), ns)
  {
    hide Timebase;
    var tb := Timebase(clk);
    QuotientBounds(match mode case Nearest => ns + tb / 2 case Down => ns case Up => ns + tb - 1, tb);
  }

  /** The promise is kept by the value returned exactly for the requests that fit. */
  lemma RoundingBound(ns: u32, mode: RoundMode)
    ensures Fits(ns, mode) <==> WithinBound(mode, Timebase(ClockFor(ns, mode)), SingleTimer(ns, mode), ns)
  {
    hide Ticks, ClockFor;
    TicksBound(ns, ClockFor(ns, mode), mode);
    if !Fits(ns, mode) {
      HighRequests(ns, mode);
    } else {
      FittingPeriod(ns, mode);
    }
  }

  lemma FittingPeriod(ns: u32, mode: RoundMode)
    requires Fits(ns, mode)
    ensures Rounded(ns, mode) < TWO_32
  {
    hide Ticks, ClockFor;
    WordPeriods(ns, mode);
    var clk := ClockFor(ns, mode);
    if clk == 4 { FittingTicks(ns, mode); } else if clk == 3 {} else if clk == 2 {} else {}
  }

  lemma FittingTicks(ns: u32, mode: RoundMode)
    requires Fits(ns, mode)
    ensures Ticks(ns, 4, mode) <= 42949
  {
  }

  /** Beyond it the period wraps round to 32704 ns. */
  lemma HighRequests(ns: u32, mode: RoundMode)
    requires !Fits(ns, mode)
    ensures ClockFor(ns, mode) == 4 && SingleTimer(ns, mode) == 32704
  {
    assert Ticks(ns, 1, mode) > MAX_COUNT && Ticks(ns, 2, mode) > MAX_COUNT && Ticks(ns, 3, mode) > MAX_COUNT;
    WordPeriods(ns, mode);
    assert Ticks(ns, 4, mode) == 42950;
  }

  /** A whole number of ticks of some clock that the counter can hold is its own rounding, even
      when a finer clock source serves it. */
  lemma WholeTicksAreFixed(clk: nat, count: nat, mode: RoundMode)
    requires CLK_10MHZ <= clk < CLK_1KHZ && count <= MAX_COUNT
    ensures Rounded(count * Timebase(clk), mode) == count * Timebase(clk)
  {
    hide Ticks, Timebase;
    var ns := count * Timebase(clk);
    WholeTicks(count, clk, mode);
    var fine := ClockFor(ns, mode);
    assert fine <= clk;
    Coarser(count, fine, clk);
    WholeTicks(count * (Timebase(clk) / Timebase(fine)), fine, mode);
  }

  lemma WholeTicks(count: nat, clk: nat, mode: RoundMode)
    requires CLK_10MHZ <= clk <= CLK_1KHZ
    ensures Ticks(count * Timebase(clk), clk, mode) == count
  {
    if clk == 1 {} else if clk == 2 {} else if clk == 3 {} else if clk == 4 {} else {}
  }

  lemma Coarser(count: nat, fine: nat, clk: nat)
    requires CLK_10MHZ <= fine <= clk <= CLK_1KHZ
    ensures count * Timebase(clk) == count * (Timebase(clk) / Timebase(fine)) * Timebase(fine)
  {
    assert Timebase(clk) == Timebase(clk) / Timebase(fine) * Timebase(fine);
    Associate(count, Timebase(clk) / Timebase(fine), Timebase(fine));
  }

  lemma Associate(a: nat, b: nat, c: nat)
    ensures a * (b * c) == a * b * c
  {
  }

  /** Rounding a period it returned changes nothing, in any mode, although the clock source chosen
      the second time may differ: exactly for the requests whose period fits a word. */
  lemma SingleTimerIsIdempotent(ns: u32, mode: RoundMode, again: RoundMode)
    ensures SingleTimer(SingleTimer(ns, mode), again) == SingleTimer(ns, mode) <==> Fits(ns, mode)
  {
    hide Ticks, ClockFor, Timebase;
    if Fits(ns, mode) {
      FittingPeriod(ns, mode);
      WordPeriods(ns, mode);
      var clk := ClockFor(ns, mode);
      WholeTicksAreFixed(clk, Ticks(ns, clk, mode), again);
    } else {
      HighRequests(ns, mode);
      WrappedPeriodMoves(again);
    }
  }

  /** The wrapped period is no whole number of ticks, so that rounding it again changes it. */
  lemma WrappedPeriodMoves(again: RoundMode)
    ensures SingleTimer(32704, again) == if again.Up? then 32800 else 32700
  {
    assert ClockFor(32704, again) == 1;
  }

  // ---------------------------------------------------------------- timed scans

  /** pci230_ai_check_scan_period */
  method CheckScanPeriod(scanBeginArg: u32, convertArg: u32, len: u32) returns (scan: u32, ok: bool)
    ensures (scan, ok) == ScanPeriodCheck(scanBeginArg, convertArg, len)
  {
    var err := 0;
    scan := scanBeginArg;
    var chanlistLen := len;
    if len == 0 {
      chanlistLen := 1;
    }
    var minScanPeriod := Wrap(chanlistLen * convertArg);
    if minScanPeriod < chanlistLen || minScanPeriod < convertArg {
      minScanPeriod := UINT_MAX;
      err := err + 1;
    }
    if scan < minScanPeriod {
      scan := minScanPeriod;
      err := err + 1;
    }
    ok := err == 0;
  }

  /** The shortest scan as the check computes it, and whether it notices an overflow. */
  function LeastScan(conv: u32, len: u32): u32 {
    Wrap((if len == 0 then 1 else len) * conv)
  }

  predicate OverflowSeen(conv: u32, len: u32) {
    LeastScan(conv, len) < (if len == 0 then 1 else len) || LeastScan(conv, len) < conv
  }

  function ScanPeriodCheck(scan: u32, convertArg: u32, len: u32): (u32, bool) {
    if OverflowSeen(convertArg, len) then (UINT_MAX, false)
    else (Max(scan, LeastScan(convertArg, len)), scan >= LeastScan(convertArg, len))
  }

  /** The shortest conversion period: original boards are slower with differential inputs. */
  function MaxSpeed(hwver: nat, diff: bool): (ns: u32)
    ensures 3200 <= ns <= 8000 && ns % 100 == 0
  {
    if hwver == 0 then (if diff then 8000 else 3200) else 4000
  }

  /** What the scan period check is for: while the conversions of a scan fit a word, it passes exactly
      the periods that hold them, and corrects the others to the shortest that does. */
  lemma ScanPeriodCheckHolds(scan: u32, conv: u32, len: u32)
    requires 0 < conv && 0 < len && len * conv < TWO_32
    ensures ScanPeriodCheck(scan, conv, len) == (Max(scan, len * conv), scan >= len * conv)
  {
    hide Wrap;
    SmallWord(len * conv);
    ProductNotBelow(len, conv);
  }

  lemma ProductNotBelow(a: nat, b: nat)
    requires a > 0 && b > 0
    ensures a * b >= a && a * b >= b
  {
    MulLess(a, 1, b);
    MulLess(b, 1, a);
    assert a * b == b * a;
  }

  /** pci230_ai_cmdtest for a timer-driven scan: the timing parts of steps 3 and 4. `stage` is the
      failing step, or 0. An accepted scan period is one the timer makes, exactly when the shortest
      scan can be rounded up within a word. */
  method TestTimedScan(convertArg: u32, scanBeginArg: u32, len: u32, hwver: nat, diff: bool, mode: RoundMode)
    returns (conv: u32, scan: u32, stage: nat)
    ensures var maxSpeed := if hwver > 0 then 4000 else if diff then 8000 else 3200;
      && (stage == 0 <==> Accepted(convertArg, scanBeginArg, len, maxSpeed, mode))
      && (stage == 3 <==> convertArg < maxSpeed || !ScanPeriodCheck(scanBeginArg, convertArg, len).1)
      && (stage == 3 ==> conv == Max(convertArg, maxSpeed) && scan == ScanPeriodCheck(scanBeginArg, conv, len).0)
    ensures stage == 0 ==> SingleTimer(convertArg, mode) == convertArg
    ensures stage == 0 ==>
      (SingleTimer(scanBeginArg, mode) == scanBeginArg <==> Fits(LeastScan(convertArg, len), Up))
    ensures stage != 3 ==> conv == SingleTimer(convertArg, mode) && scan == CorrectedScan(scanBeginArg, conv, len, mode)
    ensures stage == 4 && !OverflowSeen(conv, len) ==>
      && scan >= LeastScan(conv, len)
      && (Fits(scanBeginArg, mode) && Fits(LeastScan(conv, len), Up) ==> SingleTimer(scan, mode) == scan)
    ensures stage == 4 <==> stage != 3 && (conv != convertArg || scan != scanBeginArg)
  {
    hide Rounded, Wrap, Fits;
    conv, scan := convertArg, scanBeginArg;
    var err := false;
    var maxSpeed := MaxSpeed(hwver, diff);
    if Accepted(convertArg, scanBeginArg, len, maxSpeed, mode) {
      AcceptedScanIsTimed(convertArg, scanBeginArg, len, maxSpeed, mode);
    }
    if conv < maxSpeed {
      conv, err := maxSpeed, true;
    }
    var ok;
    scan, ok := CheckScanPeriod(scan, conv, len);
    if err || !ok {
      return conv, scan, 3;
    }
    var tmp := conv;
    conv := NsToSingleTimer(conv, mode);
    err := tmp != conv;
    tmp := scan;
    scan := NsToSingleTimer(scan, mode);
    scan, ok := CheckScanPeriod(scan, conv, len);
    if !ok {
      scan := NsToSingleTimer(scan, Up);
      scan, ok := CheckScanPeriod(scan, conv, len);
    }
    err := err || tmp != scan;
    stage := if err then 4 else 0;
    if !OverflowSeen(conv, len) { CorrectedScanIsFixed(scanBeginArg, conv, len, mode); }
  }

  /** The scan period step 4 settles on: rounded, and rounded up once more when the conversions no
      longer fit. */
  function CorrectedScan(scan: u32, conv: u32, len: u32, mode: RoundMode): u32 {
    var first := ScanPeriodCheck(SingleTimer(scan, mode), conv, len);
    if first.1 then first.0 else ScanPeriodCheck(SingleTimer(first.0, Up), conv, len).0
  }

  /** What the final argument values must be for a command to pass unchanged. */
  predicate Accepted(conv: u32, scan: u32, len: u32, maxSpeed: u32, mode: RoundMode) {
    && conv >= maxSpeed
    && ScanPeriodCheck(scan, conv, len).1
    && SingleTimer(conv, mode) == conv
    && CorrectedScan(scan, conv, len, mode) == scan
  }

  /** The check in terms of the shortest scan. */
  lemma CheckedScan(scan: u32, conv: u32, len: u32)
    ensures !OverflowSeen(conv, len) ==>
      ScanPeriodCheck(scan, conv, len) == (Max(scan, LeastScan(conv, len)), scan >= LeastScan(conv, len))
    ensures OverflowSeen(conv, len) ==> ScanPeriodCheck(scan, conv, len) == (UINT_MAX, false)
  {
  }

  /** Above the requests that can be rounded up no period is one the timer makes. */
  lemma NoPeriodAtTop(ns: u32, mode: RoundMode)
    requires !Fits(ns, Up)
    ensures SingleTimer(ns, mode) < ns
  {
    hide Ticks, ClockFor, Timebase;
    if Fits(ns, mode) {
      RoundingBound(ns, mode);
      TopPeriod(ns, mode);
    } else {
      HighRequests(ns, mode);
    }
  }

  lemma TopPeriod(ns: u32, mode: RoundMode)
    requires !Fits(ns, Up) && Fits(ns, mode)
    ensures SingleTimer(ns, mode) == 4294900000
  {
    assert Ticks(ns, 1, mode) > MAX_COUNT && Ticks(ns, 2, mode) > MAX_COUNT && Ticks(ns, 3, mode) > MAX_COUNT;
    assert Ticks(ns, 4, mode) == 42949;
  }

  /** Rounding up gives a period that is not below the request and is its own rounding. */
  lemma RoundedUp(ns: u32, mode: RoundMode)
    requires Fits(ns, Up)
    ensures SingleTimer(ns, Up) >= ns
    ensures SingleTimer(SingleTimer(ns, Up), mode) == SingleTimer(ns, Up)
  {
    hide Ticks, ClockFor, Timebase, SingleTimer;
    RoundingBound(ns, Up);
    SingleTimerIsIdempotent(ns, Up, mode);
  }

  lemma AcceptedScanIsTimed(conv: u32, scan: u32, len: u32, maxSpeed: u32, mode: RoundMode)
    requires Accepted(conv, scan, len, maxSpeed, mode)
    ensures SingleTimer(scan, mode) == scan <==> Fits(LeastScan(conv, len), Up)
  {
    hide SingleTimer, LeastScan, ScanPeriodCheck, Fits;
    var least := LeastScan(conv, len);
    CheckedScan(scan, conv, len);
    var rounded := SingleTimer(scan, mode);
    CheckedScan(rounded, conv, len);
    if Fits(least, Up) {
      RoundedUp(least, mode);
      CheckedScan(SingleTimer(least, Up), conv, len);
    } else {
      AboveTop(least, scan);
      NoPeriodAtTop(scan, mode);
    }
  }

  lemma AboveTop(least: u32, scan: u32)
    requires !Fits(least, Up) && least <= scan
    ensures !Fits(scan, Up)
  {
  }

  /** The counter makes exactly an accepted scan period that is its own rounding. */
  lemma AcceptedPeriodIsMade(scan: u32, mode: RoundMode)
    requires SingleTimer(scan, mode) == scan
    ensures Rounded(scan, mode) == scan
  {
    hide Ticks, ClockFor, Timebase;
    if Fits(scan, mode) {
      FittingPeriod(scan, mode);
      SmallWord(Rounded(scan, mode));
    } else {
      HighRequests(scan, mode);
      assert false;
    }
  }

  /** 256 conversions of 16.777 ms take 4294.912 ms, a scan period that is accepted although no counter
      makes it: rounding it up would not fit a word. */
  lemma UnmakeableScanAccepted()
    ensures Accepted(16777000, 4294912000, 256, 3200, Down)
    ensures SingleTimer(4294912000, Down) == 4294900000
  {
    hide Ticks, ClockFor, Rounded;
    WholeTicksAreFixed(2, 16777, Down);
    assert Wrap(256 * 16777000) == 4294912000;
    TopPeriod(4294912000, Down);
    HighRequests(4294912000, Up);
  }

  /** Offering the correction of step 4 again is accepted exactly when the conversion period can be
      rounded, the check sees no overflow, and the scan period can be rounded too or is short of the
      conversions anyway. */
  lemma CorrectionIsAccepted(conv: u32, scan: u32, len: u32, hwver: nat, diff: bool, mode: RoundMode)
    requires conv >= MaxSpeed(hwver, diff)
    ensures var conv' := SingleTimer(conv, mode);
      Accepted(conv', CorrectedScan(scan, conv', len, mode), len, MaxSpeed(hwver, diff), mode) <==>
      Fits(conv, mode) && !OverflowSeen(conv', len) && (Fits(scan, mode) || 32704 < LeastScan(conv', len))
  {
    hide SingleTimer, LeastScan, ScanPeriodCheck, Fits, OverflowSeen;
    var conv' := SingleTimer(conv, mode);
    SingleTimerIsIdempotent(conv, mode, mode);
    if Fits(conv, mode) && !OverflowSeen(conv', len) {
      StillFastEnough(conv, hwver, diff, mode);
      CorrectedScanIsFixed(scan, conv', len, mode);
    } else if OverflowSeen(conv', len) {
      CheckedScan(CorrectedScan(scan, conv', len, mode), conv', len);
    }
  }

  lemma StillFastEnough(conv: u32, hwver: nat, diff: bool, mode: RoundMode)
    requires conv >= MaxSpeed(hwver, diff) && Fits(conv, mode)
    ensures SingleTimer(conv, mode) >= MaxSpeed(hwver, diff)
  {
    hide Ticks, ClockFor, Timebase;
    FittingPeriod(conv, mode);
    SmallWord(Rounded(conv, mode));
    var clk := ClockFor(conv, mode);
    if clk == 1 {
      TenthsNotBelow(conv, MaxSpeed(hwver, diff), mode);
    } else {
      LongPeriod(conv, mode);
    }
  }

  lemma TenthsNotBelow(conv: u32, least: u32, mode: RoundMode)
    requires least <= conv && least % 100 == 0
    ensures Ticks(conv, 1, mode) * Timebase(1) >= least
  {
    assert Ticks(conv, 1, mode) >= least / 100;
  }

  lemma LongPeriod(conv: u32, mode: RoundMode)
    requires ClockFor(conv, mode) > 1
    ensures Rounded(conv, mode) >= 8000
  {
    hide ClockFor, Ticks;
    assert Ticks(conv, 1, mode) > MAX_COUNT;
    ManyTicks(conv, mode);
    TicksBound(conv, ClockFor(conv, mode), mode);
  }

  lemma ManyTicks(conv: u32, mode: RoundMode)
    requires Ticks(conv, 1, mode) > MAX_COUNT
    ensures conv > 6500000
  {
  }

  /** A corrected scan period is corrected to itself, unless it came from a wrapped period. */
  lemma CorrectedScanIsFixed(scan: u32, conv: u32, len: u32, mode: RoundMode)
    requires !OverflowSeen(conv, len)
    ensures var again := CorrectedScan(scan, conv, len, mode);
      && ScanPeriodCheck(again, conv, len).1 && again >= LeastScan(conv, len)
      && (Fits(scan, mode) && Fits(LeastScan(conv, len), Up) ==> SingleTimer(again, mode) == again)
      && (CorrectedScan(again, conv, len, mode) == again <==> Fits(scan, mode) || 32704 < LeastScan(conv, len))
  {
    hide SingleTimer, LeastScan, ScanPeriodCheck, Fits, OverflowSeen;
    var least := LeastScan(conv, len);
    var rounded := SingleTimer(scan, mode);
    CheckedScan(rounded, conv, len);
    SingleTimerIsIdempotent(scan, mode, mode);
    var up := SingleTimer(least, Up);
    CheckedScan(up, conv, len);
    var again := CorrectedScan(scan, conv, len, mode);
    CheckedScan(again, conv, len);
    CheckedScan(SingleTimer(again, mode), conv, len);
    if Fits(least, Up) {
      RoundedUp(least, mode);
    } else {
      HighRequests(least, Up);
      TopIsHigh(least);
      NoPeriodAtTop(least, mode);
    }
    if !Fits(scan, mode) {
      HighRequests(scan, mode);
      WrappedPeriodMoves(mode);
      if least <= 32704 { WrappedCorrection(least); }
    }
  }

  lemma TopIsHigh(least: u32)
    requires !Fits(least, Up)
    ensures least > 32704
  {
  }

  /** Periods up to the wrapped one are rounded up by the finest clock. */
  lemma WrappedCorrection(least: u32)
    requires least <= 32704
    ensures SingleTimer(least, Up) % 100 == 0
  {
    assert ClockFor(least, Up) == 1;
  }

  /** An accepted timed scan leaves room for its conversions exactly when their total fits a word:
      the wrap test does not catch every overflow. */
  lemma AcceptedScanHoldsConversions(conv: u32, scan: u32, len: u32, maxSpeed: u32, mode: RoundMode)
    requires Accepted(conv, scan, len, maxSpeed, mode) && len > 0
    ensures scan >= len * conv <==> len * conv < TWO_32
  {
    hide SingleTimer, Wrap;
    if len * conv < TWO_32 {
      assert Wrap(len * conv) == len * conv by { SmallWord(len * conv); }
    }
  }

  /** 256 conversions of 17 ms take 4.352 s, yet a scan of 57.033 ms is accepted. */
  lemma OverflowMissed()
    ensures Accepted(17000000, 57033000, 256, 3200, Nearest)
    ensures 256 * 17000000 > 57033000
  {
    assert 57033 <= MAX_COUNT && 17000 <= MAX_COUNT;
    WholeTicksAreFixed(2, 57033, Nearest);
    WholeTicksAreFixed(2, 17000, Nearest);
    assert Wrap(256 * 17000000) == 57032704;
  }

  /** pci230_ct_setup_ns_mode: within the slowest clock's reach the count written, 0 standing for
      65536, makes exactly the rounded period. */
  method SetupCounter(ns: nat, mode: RoundMode) returns (clk: nat, register: u32)
    ensures CLK_10MHZ <= clk <= CLK_1KHZ && register <= 0xffff
    ensures 100 <= ns <= 65536000000 ==>
      (if register == 0 then MAX_COUNT else register) * Timebase(clk) == Rounded(ns, mode)
  {
    hide Ticks, ClockFor;
    var count;
    clk, count := ChooseClkCount(ns, mode);
    if 100 <= ns <= 65536000000 {
      CountFits(ns, mode);
    }
    if count >= 65536 {
      count := 0;
    }
    register := count;
  }

  lemma CountFits(ns: nat, mode: RoundMode)
    requires 100 <= ns <= 65536000000
    ensures 1 <= Ticks(ns, ClockFor(ns, mode), mode) <= MAX_COUNT
  {
    hide ClockFor;
    var clk := ClockFor(ns, mode);
    if clk > CLK_10MHZ {
      SomeTicks(ns, clk, mode);
    }
  }

  lemma SomeTicks(ns: nat, clk: nat, mode: RoundMode)
    requires CLK_10MHZ < clk <= CLK_1KHZ && Ticks(ns, clk - 1, mode) > MAX_COUNT
    ensures 1 <= Ticks(ns, clk, mode)
  {
    assert ns >= Timebase(clk);
  }
}
