/** Chunked draining of the FIFO on the PCI9111 (adl_pci9111.c): one pacer serves both the
    conversion and the scan rate, so the driver keeps one scan out of every chunk. */
module Pci9111 {
  import opened Word32
  import opened Cyclic
  import opened Decimation
  import opened Divisors
  import opened Cascade
  import opened CascadeLaws

  const FIFO_HALF_SIZE: nat := 512

  /** PCI9111_8254_CLOCK_PERIOD_NS */
  const CLOCK_PERIOD: u32 := 500

  /** What step 4 makes of a scan period: a correction, or a division by zero. */
  datatype ScanFix = DivideByZero | Fixed(scan: u32)

  /** A whole number of back-to-back scans of `unit` nanoseconds. */
  ghost predicate WholeScans(scan: nat, unit: nat) {
    exists k: nat :: k > 0 && Multiple(k, unit) == scan
  }

  /** The period step 4 settles on, with the shortest scan computed in a word. */
  function FixedScan(scan: u32, conv: u32, len: u32): (r: ScanFix)
    ensures r.DivideByZero? <==> Wrap(len * conv) == 0 && scan > 0
    ensures r.Fixed? ==> WholeScans(r.scan, Wrap(len * conv))
    ensures r.Fixed? && Wrap(len * conv) <= scan ==> r.scan <= scan <= r.scan + Wrap(len * conv)
    ensures r == Fixed(scan) <==> WholeScans(scan, Wrap(len * conv)) && r.Fixed?
  {
    hide Wrap;
    var least := Wrap(len * conv);
    if least == 0 then
      assert scan == 0 ==> Multiple(1, least) == 0;
      if scan == 0 then Fixed(0) else DivideByZero
    else
      WholeMultiple(scan, least);
      Fixed(if scan <= least then least else Multiple(scan / least, least))
  }

  /** pci9111_ai_do_cmd_test, step 4: the scan period must be a whole number of back-to-back scans. */
  method FixScanPeriod(scanBeginArg: u32, convertArg: u32, chanlistLen: u32) returns (r: ScanFix)
    ensures r == FixedScan(scanBeginArg, convertArg, chanlistLen)
  {
    hide Wrap;
    r := Fixed(scanBeginArg);
    var least := Wrap(chanlistLen * convertArg);
    if scanBeginArg != least {
      if least < scanBeginArg {
        if least == 0 {
          return DivideByZero;
        }
        WholeMultiple(scanBeginArg, least);
        var factor := scanBeginArg / least;
        var rounded: u32 := Multiple(factor, least);
        if scanBeginArg != rounded {
          r := Fixed(rounded);
        }
      } else {
        r := Fixed(least);
      }
    }
  }

  /** Step 4 divides by nothing and accepts exactly the whole numbers of back-to-back scans. */
  ghost predicate KeepsScanPromise(conv: u32, len: u32) {
    forall scan: u32 :: FixedScan(scan, conv, len) == Fixed(scan) <==> WholeScans(scan, len * conv)
  }

  ghost predicate NeverDivides(conv: u32, len: u32) {
    forall scan: u32 :: FixedScan(scan, conv, len).Fixed?
  }

  /** It does so exactly when the product of conversion period and channels is positive and fits. */
  lemma ScanPromiseExactly(conv: u32, len: u32)
    ensures KeepsScanPromise(conv, len) && NeverDivides(conv, len) <==> 0 < len * conv < TWO_32
  {
    hide Wrap, FixedScan;
    var product := len * conv;
    if 0 < product < TWO_32 {
      SmallWord(product);
    } else if product <= 0 {
      NoProduct(conv, len);
      assert FixedScan(1, conv, len).DivideByZero?;
    } else {
      var least := Wrap(product);
      if least == 0 {
        assert FixedScan(1, conv, len).DivideByZero?;
      } else {
        WholeMultiple(least, least);
        assert WholeScans(least, least);
        TooShort(least, product);
        assert FixedScan(least, conv, len) == Fixed(least);
      }
    }
  }

  lemma NoProduct(conv: u32, len: u32)
    requires len * conv <= 0
    ensures Wrap(len * conv) == 0
  {
    if len > 0 && conv > 0 { MulLess(len, 1, conv); }
  }

  lemma TooShort(scan: nat, unit: nat)
    requires 0 < scan < unit
    ensures !WholeScans(scan, unit)
  {
    if WholeScans(scan, unit) {
      var k: nat :| k > 0 && Multiple(k, unit) == scan;
      MulLess(unit, 1, k);
      assert false;
    }
  }

  /** Rounding up a conversion period of 2^32 - 1 gives 0, and any scan period is then divided by
      zero. */
  lemma RoundedUpToZero(scan: u32, len: u32)
    requires scan > 0
    ensures InRange(CLOCK_PERIOD, UINT_MAX) && Period(CLOCK_PERIOD, UINT_MAX, Up) == 0
    ensures FixedScan(scan, 0, len) == DivideByZero
  {
    hide Top, Period, FixedScan;
    UpExactly(CLOCK_PERIOD, UINT_MAX);
    LowIsPositive(CLOCK_PERIOD, UINT_MAX - 1);
    TopIs(CLOCK_PERIOD);
    SmallWord(0);
  }

  lemma TopIs(base: u32)
    requires 2 <= base && 4 * base < UINT_MAX
    ensures Top(base) == Low(base, UINT_MAX - 1)
  {
  }

  /** Sixteen conversions of 268.44 ms take 4.3 s, yet a scan period of 72.704 us passes. */
  lemma WrappedScanAccepted(mode: RoundMode)
    ensures InRange(CLOCK_PERIOD, 268440000) && Period(CLOCK_PERIOD, 268440000, mode) == 268440000
    ensures FixedScan(72704, 268440000, 16) == Fixed(72704)
    ensures !WholeScans(72704, 16 * 268440000)
  {
    hide Period, Low, High;
    PairIsReachable(16, 33555);
    MakeableIsFixed(CLOCK_PERIOD, 536880, mode);
    assert Wrap(16 * 268440000) == 72704;
    assert Multiple(1, 72704) == 72704;
    TooShort(72704, 16 * 268440000);
  }

  function Multiple(k: nat, unit: nat): nat {
    k * unit
  }

  lemma WholeMultiple(arg: nat, unit: nat)
    requires unit > 0
    ensures Multiple(arg / unit, unit) <= arg < Multiple(arg / unit, unit) + unit
    ensures Multiple(1, unit) == unit
    ensures forall k: nat :: Multiple(k, unit) == arg ==> k == arg / unit
    ensures arg >= unit ==> arg / unit > 0
  {
    QuotientBounds(arg, unit);
    if arg >= unit { QuotientAtLeast(arg, unit, 1); }
    forall k: nat | Multiple(k, unit) == arg ensures k == arg / unit {
      SameMultiple(k, arg / unit, unit);
    }
  }

  lemma SameMultiple(k: nat, q: nat, unit: nat)
    requires unit > 0 && Multiple(q, unit) <= Multiple(k, unit) < Multiple(q, unit) + unit
    ensures k == q
  {
    if k < q { MulLess(unit, k, q); }
    if q < k { MulLess(unit, q, k); }
  }

  /** The samples an interrupt takes, as a word. */
  function NumSamples(stopCounter: int, stopIsNone: bool): u32 {
    if FIFO_HALF_SIZE > stopCounter && !stopIsNone then Wrap(stopCounter) else FIFO_HALF_SIZE
  }

  /** It takes no more than half the FIFO exactly while the counter is not negative. */
  lemma TakesHalfExactly(stopCounter: int)
    requires -TWO_31 <= stopCounter < TWO_31
    ensures NumSamples(stopCounter, false) <= FIFO_HALF_SIZE <==> stopCounter >= 0
  {
  }

  /** A command of 2^31 scans of one channel, without scan timing, is set up with a negative counter,
      and its first interrupt takes 2^31 samples. */
  lemma HugeTotalTurnsNegative()
    ensures var counter := Signed(Wrap(Signed(Wrap(0x8000_0000 * 1)) * (1 + 0)));
      counter < 0 && NumSamples(counter, false) == 0x8000_0000
    ensures Multiple(0x8000_0000, Multiple(1, 1 + 0)) >= TWO_31
  {
  }

  class Ai {
    var timerDivisor1: u32
    var timerDivisor2: u32

    var stopCounter: int
    var stopIsNone: bool
    var scanDelay: u32
    var chanlistLen: nat
    var chunkCounter: nat
    var chunkNumSamples: nat
    var running: bool
    var stored: seq<sampl>
    ghost var raw: seq<sampl>
    ghost var scans: nat
    ghost var overflowed: bool

    /** Up to the first buffer overflow, what is stored is every chunk's first scan, however the
        interrupts cut the stream, and the stop counter counts the raw samples still wanted. */
    ghost predicate Valid()
      reads this
    {
      && chanlistLen > 0 && chunkNumSamples == Multiple(chanlistLen, 1 + scanDelay) && chanlistLen <= chunkNumSamples
      && (!stopIsNone ==> 0 <= stopCounter < TWO_31)
      && (if scanDelay < 1 then chunkCounter == 0 && chunkNumSamples == chanlistLen
          else chunkCounter == Cell(|raw|, chunkNumSamples))
      && (!overflowed ==>
           && stored == Keep(raw, 0, chunkNumSamples, 0, chanlistLen)
           && (!stopIsNone ==> stopCounter + |raw| == Multiple(scans, chunkNumSamples)))
    }

    constructor ()
      ensures CachedOk(CLOCK_PERIOD, timerDivisor1, timerDivisor2)
    {
      timerDivisor1, timerDivisor2, running, stored := 0, 0, false, [];
    }

    /** The period half of step 4, whatever divisors an earlier call left. */
    method FixConvertPeriod(convertArg: u32, mode: RoundMode) returns (arg: u32)
      requires CachedOk(CLOCK_PERIOD, timerDivisor1, timerDivisor2) && 4 * CLOCK_PERIOD <= convertArg
      modifies this`timerDivisor1, this`timerDivisor2
      ensures CachedOk(CLOCK_PERIOD, timerDivisor1, timerDivisor2)
      ensures arg == Period(CLOCK_PERIOD, convertArg, mode)
    {
      hide Prod, Reachable, Period, AlreadyRight;
      if AlreadyRight(CLOCK_PERIOD, timerDivisor1, timerDivisor2, convertArg) {
        EarlyExitTest(CLOCK_PERIOD, timerDivisor1, timerDivisor2, convertArg);
        EarlyExitAgrees(CLOCK_PERIOD, timerDivisor1, timerDivisor2, convertArg, mode);
      }
      timerDivisor1, timerDivisor2, arg :=
        NsToTimer2Div(CLOCK_PERIOD, timerDivisor1, timerDivisor2, convertArg, mode);
    }

    /** pci9111_ai_do_cmd, the counters, in C's words, for a command step 4 left alone. The counters
        are right exactly when the counted total fits the driver's int and a chunk fits a word; a
        chunk fits whenever the shortest scan did. */
    method SetUp(stopArg: u32, stopNone: bool, len: u32, timedScan: bool, scanBeginArg: u32, convertArg: u32)
      requires 0 < len
      requires timedScan ==> 0 < scanBeginArg && FixedScan(scanBeginArg, convertArg, len) == Fixed(scanBeginArg)
      modifies this
      ensures running && !overflowed && raw == [] && stored == []
      ensures chanlistLen == len && stopIsNone == stopNone
      ensures !stopNone ==> scans == stopArg
      ensures if timedScan then Multiple(1 + scanDelay, Wrap(len * convertArg)) == scanBeginArg else scanDelay == 0
      ensures Valid() <==> Multiple(len, 1 + scanDelay) < TWO_32
                           && (stopNone || Multiple(stopArg, Multiple(len, 1 + scanDelay)) < TWO_31)
      ensures timedScan && len * convertArg < TWO_32 ==>
        Multiple(1 + scanDelay, len * convertArg) == scanBeginArg && Multiple(len, 1 + scanDelay) < TWO_32
    {
      hide Keep, Wrap, Signed, FixedScan, Multiple;
      var delay := 0;
      if timedScan {
        SameProduct(len, convertArg);
        WholeMultiple(scanBeginArg, Wrap(len * convertArg));
        Delay(scanBeginArg, Wrap(len * convertArg));
        delay := scanBeginArg / Wrap(convertArg * len) - 1;
        if len * convertArg < TWO_32 {
          ChunkFits(len, delay, convertArg, scanBeginArg);
        }
      }
      Begin(stopArg, stopNone, len, delay);
    }

    /** The counters themselves, once the delay is known. */
    method Begin(stopArg: u32, stopNone: bool, len: u32, delay: u32)
      requires 0 < len
      modifies this
      ensures running && !overflowed && raw == [] && stored == []
      ensures chanlistLen == len && stopIsNone == stopNone && scanDelay == delay
      ensures !stopNone ==> scans == stopArg
      ensures Valid() <==> Multiple(len, 1 + delay) < TWO_32
                           && (stopNone || Multiple(stopArg, Multiple(len, 1 + delay)) < TWO_31)
    {
      hide Keep, Wrap, Signed, FixedScan, Multiple;
      CountedTotal(stopArg, len, delay);
      stopCounter := if stopNone then 0 else Signed(Wrap(stopArg * len));
      stopIsNone, scanDelay := stopNone, delay;
      stopCounter := Signed(Wrap(stopCounter * (1 + scanDelay)));
      chanlistLen, chunkCounter, chunkNumSamples := len, 0, Wrap(len * (1 + scanDelay));
      running := true;
      stored, raw, scans, overflowed := [], [], if stopNone then 0 else stopArg, false;
      WhenFits(len, delay, if stopNone then 0 else stopArg);
      if chunkNumSamples >= len { NothingYet(chunkNumSamples, len); }
    }

    /** cfc_write_array_to_buffer: everything or nothing. */
    method Write(samples: seq<sampl>) returns (written: nat)
      modifies this`stored, this`overflowed
      ensures (overflowed == old(overflowed) && written == |samples| && stored == old(stored) + samples)
        || (overflowed && written == 0 && stored == old(stored))
    {
      var fits: bool := *;
      if fits {
        stored := stored + samples;
        return |samples|;
      }
      overflowed := true;
      return 0;
    }

    /** The half-full part of pci9111_interrupt: `fifo` is what the FIFO holds. */
    method HalfFull(fifo: seq<sampl>) returns (eoa: bool)
      requires Valid() && running && |fifo| >= FIFO_HALF_SIZE
      modifies this
      ensures Valid()
      ensures scans == old(scans) && chanlistLen == old(chanlistLen) && stopIsNone == old(stopIsNone)
      ensures var taken := if old(stopIsNone) then FIFO_HALF_SIZE else Min(FIFO_HALF_SIZE, old(stopCounter));
        raw == old(raw) + fifo[..taken]
      ensures eoa <==> !stopIsNone && stopCounter == 0
      ensures eoa <==> !running
      ensures eoa && !overflowed ==> |stored| == Multiple(scans, chanlistLen)
    {
      hide Cell, Keep, Multiple, Wrap, Signed;
      if !stopIsNone { SmallWord(stopCounter); }
      var numSamples := NumSamples(stopCounter, stopIsNone);
      var bounce := fifo[..numSamples];
      var counted: nat;
      ghost var before := raw;
      raw := raw + bounce;
      KeepOfConcat(before, bounce, 0, chunkNumSamples, 0, chanlistLen);
      if scanDelay < 1 {
        KeepEverything(bounce, Cell(|before|, chunkNumSamples), chunkNumSamples);
        counted := Write(bounce);
      } else {
        counted := DrainChunks(bounce);
        CellOfSum(|before|, |bounce|, chunkNumSamples);
      }
      if 0 <= stopCounter - counted < TWO_31 { SmallInt(stopCounter - counted); }
      stopCounter := Signed(Wrap(stopCounter - counted));
      eoa := stopCounter == 0 && !stopIsNone;
      if eoa {
        running := false;
        if !overflowed {
          WholeChunks(raw, chunkNumSamples, chanlistLen, scans);
        }
      }
    }

    /** The chunk loop: stretches of wanted samples are written, stretches of unwanted ones
        skipped. */
    method DrainChunks(bounce: seq<sampl>) returns (counted: nat)
      requires chanlistLen > 0 && chanlistLen <= chunkNumSamples && chunkCounter < chunkNumSamples
      modifies this`stored, this`overflowed, this`chunkCounter
      ensures chunkCounter == Cell(old(chunkCounter) + |bounce|, chunkNumSamples)
      ensures counted <= |bounce|
      ensures old(overflowed) ==> overflowed
      ensures !overflowed ==> counted == |bounce|
      ensures !overflowed ==>
        stored == old(stored) + Keep(bounce, old(chunkCounter), chunkNumSamples, 0, chanlistLen)
    {
      hide Cell, Keep;
      var position := 0;
      counted := 0;
      CellOfSmall(chunkCounter, chunkNumSamples);
      NothingYet(chunkNumSamples, chanlistLen);
      while position < |bounce|
        invariant position <= |bounce| && counted <= position
        invariant chunkCounter == Cell(old(chunkCounter) + position, chunkNumSamples)
        invariant old(overflowed) ==> overflowed
        invariant !overflowed ==> counted == position
        invariant !overflowed ==>
          stored == old(stored) + Keep(bounce[..position], old(chunkCounter), chunkNumSamples, 0, chanlistLen)
      {
        var toRead, written;
        if chunkCounter < chanlistLen {
          toRead := Min(chanlistLen - chunkCounter, |bounce| - position);
          written := Write(bounce[position..position + toRead]);
        } else {
          toRead := Min(chunkNumSamples - chunkCounter, |bounce| - position);
          written := toRead;
        }
        NextStretch(bounce, position, toRead, old(chunkCounter), chunkNumSamples, chanlistLen);
        counted := counted + written;
        position := position + toRead;
        chunkCounter := chunkCounter + toRead;
        if chunkCounter >= chunkNumSamples {
          chunkCounter := 0;
        }
      }
      assert bounce[..position] == bounce;
    }
  }

  /** A stretch that ends with the wanted part of the chunk, with the chunk, or with the block. */
  lemma NextStretch(bounce: seq<sampl>, position: nat, k: nat, c0: nat, chunk: nat, len: nat)
    requires 0 < len <= chunk && c0 < chunk && position + k <= |bounce|
    requires var c := Cell(c0 + position, chunk); c + k <= (if c < len then len else chunk)
    ensures var c := Cell(c0 + position, chunk);
      && Cell(c0 + position + k, chunk) == (if c + k >= chunk then 0 else c + k)
      && Keep(bounce[..position + k], c0, chunk, 0, len) == Keep(bounce[..position], c0, chunk, 0, len) +
        (if c < len then bounce[position..position + k] else [])
  {
    hide Cell, Keep;
    var c := Cell(c0 + position, chunk);
    CellStep(c0 + position, k, chunk);
    assert bounce[..position + k] == bounce[..position] + bounce[position..position + k];
    KeepOfConcat(bounce[..position], bounce[position..position + k], c0, chunk, 0, len);
    KeepStretch(bounce[position..position + k], c, chunk, 0, len);
  }

  /** With nothing to skip every sample is wanted. */
  lemma {:induction false} KeepEverything(s: seq<sampl>, pos: nat, frame: nat)
    requires pos < frame
    ensures Keep(s, pos, frame, 0, frame) == s
  {
    if s != [] {
      KeepEverything(s[1..], Cell(pos + 1, frame), frame);
    }
  }

  lemma WholeChunks(raw: seq<sampl>, chunk: nat, len: nat, scans: nat)
    requires 0 < len <= chunk && |raw| == Multiple(scans, chunk)
    ensures |Keep(raw, 0, chunk, 0, len)| == Multiple(scans, len)
  {
    KeptLength(raw, chunk, 0, len, scans);
  }

  lemma NothingYet(frame: nat, len: nat)
    requires 0 < len <= frame
    ensures Keep([], 0, frame, 0, len) == [] && Cell(0, frame) == 0
    ensures forall pos: nat | pos < frame :: Keep([], pos, frame, 0, len) == []
  {
  }

  lemma SmallInt(x: int)
    requires -TWO_31 <= x < TWO_31
    ensures Signed(Wrap(x)) == x
  {
  }

  lemma SameProduct(a: nat, b: nat)
    ensures a * b == b * a
  {
  }

  /** The quotient an accepted scan period has. */
  lemma Delay(scan: u32, least: u32)
    requires least > 0 && WholeScans(scan, least)
    ensures scan / least > 0 && Multiple(scan / least, least) == scan
  {
    WholeMultiple(scan, least);
    var k: nat :| k > 0 && Multiple(k, least) == scan;
    assert k == scan / least;
  }

  /** What the int holds after two multiplications is the total, wrapped once. */
  lemma CountedTotal(stopArg: u32, len: u32, delay: u32)
    ensures Signed(Wrap(Signed(Wrap(stopArg * len)) * (1 + delay)))
         == Signed(Wrap(Multiple(stopArg, Multiple(len, 1 + delay))))
  {
    hide Signed;
    var x, q := stopArg * len, 1 + delay;
    SignedIsWrapped(x);
    var laps :| Signed(Wrap(x)) == x - laps * TWO_32;
    assert Signed(Wrap(x)) * q == x * q - laps * q * TWO_32 by { Expand(x, laps, q); }
    WrapLaps(x * q, laps * q);
    assert x * q == stopArg * (len * q) by { Regrouped(stopArg, len, q); }
  }

  lemma SignedIsWrapped(x: int)
    ensures exists laps :: Signed(Wrap(x)) == x - laps * TWO_32
  {
    var laps := x / TWO_32 + (if Wrap(x) < TWO_31 then 0 else 1);
    assert Signed(Wrap(x)) == x - laps * TWO_32;
  }

  lemma Expand(x: int, laps: int, q: int)
    ensures (x - laps * TWO_32) * q == x * q - laps * q * TWO_32
  {
  }

  lemma WrapLaps(x: int, laps: int)
    ensures Wrap(x - laps * TWO_32) == Wrap(x)
  {
  }

  lemma Regrouped(a: int, b: int, c: int)
    ensures a * b * c == a * (b * c)
  {
  }

  /** The words hold chunk and total exactly when these fit. */
  lemma WhenFits(len: u32, delay: u32, scans: u32)
    requires len > 0
    ensures var chunk := Multiple(len, 1 + delay);
      && Multiple(scans, chunk) >= 0 && chunk >= len && (delay == 0 ==> chunk == len)
      && len * (1 + delay) == chunk
      && (Wrap(chunk) == chunk <==> chunk < TWO_32)
      && (Signed(Wrap(Multiple(scans, chunk))) == Multiple(scans, chunk) <==> Multiple(scans, chunk) < TWO_31)
  {
    assert len * (1 + delay) == len + len * delay;
    var chunk := Multiple(len, 1 + delay);
    assert scans * chunk >= 0;
    if Multiple(scans, chunk) < TWO_31 { SmallInt(Multiple(scans, chunk)); }
  }

  lemma ChunkFits(len: u32, delay: u32, conv: u32, scan: u32)
    requires len > 0 && len * conv < TWO_32 && 0 < scan && Multiple(1 + delay, Wrap(len * conv)) == scan
    ensures Multiple(1 + delay, len * conv) == scan && Multiple(len, 1 + delay) < TWO_32
  {
    SmallWord(len * conv);
    var q := 1 + delay;
    assert q * (len * conv) == len * q * conv;
    if conv > 0 { MulLess(len * q, 1, conv); }
  }
}
