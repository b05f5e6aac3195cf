/** The scan timer of amplc_pci224.c: what cmdtest accepts is what cmd programs. */
module Pci224Timer {
  import opened Word32
  import opened Divisors
  import opened Cascade
  import opened CascadeLaws
  import opened Timer8254

  const TIMEBASE_10MHZ: u32 := 100
  const MAX_SCAN_PERIOD: u32 := 0xffff_ffff
  const MIN_SCAN_PERIOD: u32 := 2500
  const CONVERT_PERIOD: u32 := 625

  datatype ClockSource = Clk10MHz | ClkOutNm1

  /** The count a single 10 MHz timer would need. */
  function SingleCount(ns: u32, mode: RoundMode): nat {
    var round := match mode case Nearest => 50 case Down => 0 case Up => 99;
    ns / TIMEBASE_10MHZ + (round + ns % TIMEBASE_10MHZ) / TIMEBASE_10MHZ
  }

  /** The count rounds to the nearest 100 ns, halves going up, or to the side asked for. */
  lemma SingleCountRounds(ns: u32, mode: RoundMode)
    ensures var made := SingleCount(ns, mode) * TIMEBASE_10MHZ;
      match mode
      case Nearest => ns - 50 < made <= ns + 50
      case Down => made <= ns < made + TIMEBASE_10MHZ
      case Up => ns <= made < ns + TIMEBASE_10MHZ
  {
  }

  /** Exactly what the hardware can do: one counter's worth of the 10 MHz timebase, or two. */
  ghost predicate Programmable(ns: u32, mode: RoundMode) {
    if SingleCount(ns, mode) <= MAX_COUNT then ns == SingleCount(ns, mode) * TIMEBASE_10MHZ
    else exists p: nat :: Reachable(p) && TIMEBASE_10MHZ * p == ns
  }

  class Pci224 {
    var cachedDiv1: u32
    var cachedDiv2: u32
    var clock0: ClockSource
    const chip: Chip

    ghost predicate Valid()
      reads this, chip
    {
      CachedOk(TIMEBASE_10MHZ, cachedDiv1, cachedDiv2) && chip.Valid()
    }

    constructor (chip: Chip)
      requires chip.Valid()
      ensures Valid() && this.chip == chip
    {
      this.chip := chip;
      cachedDiv1, cachedDiv2, clock0 := 0, 0, Clk10MHz;
    }

    /** pci224_ao_cmdtest, the timer part of step 3. */
    method CheckMinimum(scanBeginArg: u32, chanlistLen: u32) returns (arg: u32, err: bool)
      requires chanlistLen <= 16
      ensures err <==> arg != scanBeginArg
      ensures arg == Max(scanBeginArg, Max(chanlistLen * CONVERT_PERIOD, MIN_SCAN_PERIOD))
    {
      arg, err := scanBeginArg, false;
      var tmp: u32 := chanlistLen * CONVERT_PERIOD;
      if tmp < MIN_SCAN_PERIOD {
        tmp := MIN_SCAN_PERIOD;
      }
      if arg < tmp {
        arg, err := tmp, true;
      }
    }

    /** pci224_ao_cmdtest, step 4. A period is left alone exactly when it is programmable. */
    method FixPeriod(scanBeginArg: u32, mode: RoundMode) returns (arg: u32, err: bool)
      requires Valid() && scanBeginArg >= MIN_SCAN_PERIOD
      modifies this`cachedDiv1, this`cachedDiv2
      ensures Valid()
      ensures err <==> arg != scanBeginArg
      ensures !err <==> Programmable(scanBeginArg, mode)
      ensures SingleCount(scanBeginArg, mode) <= MAX_COUNT ==>
        arg == SingleCount(scanBeginArg, mode) * TIMEBASE_10MHZ
        && match mode
           case Nearest => scanBeginArg - 50 < arg <= scanBeginArg + 50
           case Down => arg <= scanBeginArg < arg + 100
           case Up => scanBeginArg <= arg < scanBeginArg + 100
      ensures SingleCount(scanBeginArg, mode) > MAX_COUNT ==> arg == Period(TIMEBASE_10MHZ, scanBeginArg, mode)
    {
      hide Prod, Reachable, Period, AlreadyRight;
      SingleCountRounds(scanBeginArg, mode);
      var div2: u32 := SingleCount(scanBeginArg, mode);
      if div2 <= MAX_COUNT {
        div2 := Max(div2, 2);
        arg := Wrap(div2 * TIMEBASE_10MHZ);
        if arg < div2 || arg < TIMEBASE_10MHZ {
          arg := MAX_SCAN_PERIOD;
        }
      } else {
        FixpointIsMakeable(scanBeginArg, mode);
        CachedAgrees(cachedDiv1, cachedDiv2, scanBeginArg, mode);
        var div1, d2, period := NsToTimer2Div(TIMEBASE_10MHZ, cachedDiv1, cachedDiv2, scanBeginArg, mode);
        cachedDiv1, cachedDiv2, arg := div1, d2, period;
      }
      err := arg != scanBeginArg;
    }

    /** The scan period the programmed counters make. */
    ghost function ProgrammedPeriod(): nat
      requires chip.Valid()
      reads this, chip
    {
      var count0 := DecodeCount(chip.counters[0].count);
      if clock0 == Clk10MHz then count0 * TIMEBASE_10MHZ
      else DecodeCount(chip.counters[2].count) * count0 * TIMEBASE_10MHZ
    }

    /** pci224_ao_cmd, the timer set-up: for a period cmdtest accepts, the counters make exactly
        that period and no load is refused. */
    method ProgramTimer(scanBeginArg: u32, mode: RoundMode) returns (refused: bool)
      requires Valid() && scanBeginArg >= MIN_SCAN_PERIOD && Programmable(scanBeginArg, mode)
      modifies this`clock0, chip
      ensures Valid() && !refused
      ensures ProgrammedPeriod() == scanBeginArg
      ensures chip.counters[0].mode == 2 && (clock0 == ClkOutNm1 ==> chip.counters[2].mode == 2)
    {
      hide Prod, Reachable, Period, AlreadyRight, Decode;
      var div1: u32, div2: u32;
      var count: u32 := SingleCount(scanBeginArg, mode);
      if count <= MAX_COUNT {
        count := Max(count, 2);
        div2 := Mask(count);
        div1 := 1;
      } else {
        FixpointIsMakeable(scanBeginArg, mode);
        CachedAgrees(cachedDiv1, cachedDiv2, scanBeginArg, mode);
        var period;
        div1, div2, period := NsToTimer2Div(TIMEBASE_10MHZ, cachedDiv1, cachedDiv2, scanBeginArg, mode);
        MaskedNeverOne(div1, div2, period);
      }
      refused := false;
      if div1 == 1 {
        clock0 := Clk10MHz;
      } else {
        var ret := chip.Load(2, div1, 2);
        refused := ret != 0;
        clock0 := ClkOutNm1;
      }
      var ret := chip.Load(0, div2, 2);
      refused := refused || ret != 0;
    }
  }

  function DecodeCount(count: nat): nat {
    if count == 0 then MAX_COUNT else count
  }

  /** Beyond the single timer, a period is its own cascade result exactly when it is makeable. */
  lemma FixpointIsMakeable(ns: u32, mode: RoundMode)
    requires InRange(TIMEBASE_10MHZ, ns)
    ensures Period(TIMEBASE_10MHZ, ns, mode) == ns <==> exists p: nat :: Reachable(p) && TIMEBASE_10MHZ * p == ns
  {
    if p: nat :| Reachable(p) && TIMEBASE_10MHZ * p == ns {
      MakeableIsFixed(TIMEBASE_10MHZ, p, mode);
    }
    QuotientAtLeast(ns, TIMEBASE_10MHZ, 4);
    CeilBound(ns, TIMEBASE_10MHZ);
    var g, l := Greatest(ns / TIMEBASE_10MHZ), Least(CeilDiv(ns, TIMEBASE_10MHZ));
    assert Reachable(g) && Reachable(l);
  }

  /** Whatever divisors an earlier call left, the result is that of the full search. */
  lemma CachedAgrees(d1: u32, d2: u32, ns: u32, mode: RoundMode)
    requires InRange(TIMEBASE_10MHZ, ns) && CachedOk(TIMEBASE_10MHZ, d1, d2)
    ensures AlreadyRight(TIMEBASE_10MHZ, d1, d2, ns) ==> Period(TIMEBASE_10MHZ, ns, mode) == ns
  {
    if AlreadyRight(TIMEBASE_10MHZ, d1, d2, ns) {
      EarlyExitTest(TIMEBASE_10MHZ, d1, d2, ns);
      EarlyExitAgrees(TIMEBASE_10MHZ, d1, d2, ns, mode);
    }
  }

  /** The single-timer flag div1 == 1 is never a cascade result. */
  lemma MaskedNeverOne(div1: u32, div2: u32, period: u32)
    requires Encodes(TIMEBASE_10MHZ, div1, div2, period) && period > 0
    ensures div1 != 1 && div2 != 1 && div1 <= 0xffff && div2 <= 0xffff
    ensures DecodeCount(div1) * DecodeCount(div2) * TIMEBASE_10MHZ == period
  {
  }
}
