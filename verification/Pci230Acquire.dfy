/** Counted acquisition on the PCI230 (amplc_pci230.c): the interrupt handler, the buffer it fills
    and the FIFO interrupt level it asks for. */
module Pci230Acquire {
  import opened Word32
  import opened Cyclic
  import opened RingSpec
  import opened AsyncBuffer

  /** PCI230_ADC_FIFOLEVEL_HALFFULL */
  const HALF_FULL: u32 := 2049

  /** What a read of the ADC status register can show. */
  datatype FifoStatus = FullLatched | FifoEmpty | HalfFull | NotEmpty

  /** What the hardware answers when sample `i` of an interrupt is due: the status and level registers
      if they are read, and the sample. */
  datatype Adc = Adc(status: nat -> FifoStatus, level: nat -> u32, low: nat -> byte, high: nat -> byte)

  datatype TrigLevel = IntHalf | IntThresh | IntNotEmpty

  /** What the registers announce when they are read ahead of sample `j`: half a FIFO or more, as many
      samples as the level register shows, or, on boards without one, the sample at its end. */
  predicate Announces(adc: Adc, hwver: nat, j: nat, samples: nat) {
    || (adc.status(j) == HalfFull && samples == 2049)
    || (adc.status(j) == NotEmpty && hwver > 0 && samples == adc.level(j) > 0)
    || (adc.status(j) == NotEmpty && hwver == 0 && samples == 1)
  }

  /** The registers are read ahead of sample `j`: it is the first, or the last announcement has been
      used up. */
  ghost predicate Due(adc: Adc, hwver: nat, j: nat) {
    || j == 0
    || exists i: nat, samples: nat | i < j ::
         Due(adc, hwver, i) && Announces(adc, hwver, i, samples) && i + samples == j
  }

  /** Sample `i` lies within an announcement. */
  ghost predicate Announced(adc: Adc, hwver: nat, i: nat) {
    exists j: nat, samples: nat | j <= i :: Due(adc, hwver, j) && Announces(adc, hwver, j, samples) && i < j + samples
  }

  /** How many samples the registers announce; 0 when there is nothing to read. */
  function Waiting(adc: Adc, hwver: nat, i: nat): u32 {
    match adc.status(i)
    case FullLatched => 0
    case FifoEmpty => 0
    case HalfFull => HALF_FULL
    case NotEmpty => if hwver > 0 then adc.level(i) else 1
  }

  /** The samples stored and the events raised when `todo` are wanted, `room` fit the buffer, `i` have
      been taken, and `amount` more are known to wait. */
  function Drained(adc: Adc, hwver: nat, todo: nat, room: nat, i: nat, amount: nat): (nat, set<Event>)
    decreases todo - i
  {
    if i >= todo then (i, {})
    else
      var waiting: nat := if amount == 0 then Waiting(adc, hwver, i) else amount;
      if waiting == 0 then (i, if adc.status(i) == FullLatched then {Overflow, Error} else {})
      else if i >= room then (i, {Overflow, Error})
      else Drained(adc, hwver, todo, room, i + 1, waiting - 1)
  }

  /** One turn of draining. */
  lemma DrainTurn(adc: Adc, hwver: nat, todo: nat, room: nat, i: nat, amount: nat)
    ensures i >= todo ==> Drained(adc, hwver, todo, room, i, amount) == (i, {})
    ensures i < todo ==>
      var waiting: nat := if amount == 0 then Waiting(adc, hwver, i) else amount;
      Drained(adc, hwver, todo, room, i, amount) ==
        if waiting == 0 then (i, if adc.status(i) == FullLatched then {Overflow, Error} else {})
        else if i >= room then (i, {Overflow, Error})
        else Drained(adc, hwver, todo, room, i + 1, waiting - 1)
  {
  }

  /** What an interrupt may do that takes `n` of the samples wanted and reports `faults`: all of them
      were announced, and it stops for one of four reasons. All that is wanted was read; the FIFO shows
      nothing; it overran; or the buffer is full. The last two are faults. */
  ghost predicate TakenRight(adc: Adc, hwver: nat, wanted: nat, room: nat, n: nat, faults: set<Event>) {
    && n <= wanted && n <= room
    && (forall i: nat | i < n :: Announced(adc, hwver, i))
    && (|| (n == wanted && faults == {})
        || (n < wanted && Due(adc, hwver, n) && ShowsNothing(adc, hwver, n) && faults == {})
        || (n < wanted && Due(adc, hwver, n) && adc.status(n) == FullLatched && faults == {Overflow, Error})
        || (n == room < wanted && Announced(adc, hwver, n) && faults == {Overflow, Error}))
  }

  predicate ShowsNothing(adc: Adc, hwver: nat, j: nat) {
    adc.status(j) == FifoEmpty || (adc.status(j) == NotEmpty && hwver > 0 && adc.level(j) == 0)
  }

  /** The samples still covered by the announcement read ahead of sample `j`, at sample `i`. */
  ghost predicate Covered(adc: Adc, hwver: nat, j: nat, i: nat, amount: nat) {
    j <= i && Due(adc, hwver, j) && Announces(adc, hwver, j, i - j + amount)
  }

  lemma WaitingIsAnnounced(adc: Adc, hwver: nat, j: nat)
    ensures Waiting(adc, hwver, j) > 0 ==> Announces(adc, hwver, j, Waiting(adc, hwver, j))
    ensures Waiting(adc, hwver, j) == 0 ==> adc.status(j) == FullLatched || ShowsNothing(adc, hwver, j)
  {
  }

  /** Draining is right from wherever it stands: at sample `i`, all before announced, either with a
      reading due or with `amount` more samples covered by the reading at `j`. */
  lemma {:induction false} DrainingIsRight(adc: Adc, hwver: nat, todo: nat, room: nat, i: nat, j: nat, amount: nat)
    requires i <= todo && i <= room && (forall k: nat | k < i :: Announced(adc, hwver, k))
    requires if amount == 0 then Due(adc, hwver, i) else Covered(adc, hwver, j, i, amount)
    ensures var (n, faults) := Drained(adc, hwver, todo, room, i, amount);
      TakenRight(adc, hwver, todo, room, n, faults)
    decreases todo - i
  {
    if i < todo {
      WaitingIsAnnounced(adc, hwver, i);
      var waiting: nat := if amount == 0 then Waiting(adc, hwver, i) else amount;
      var j' := if amount == 0 then i else j;
      if waiting > 0 {
        assert Covered(adc, hwver, j', i, waiting);
        CoveredIsAnnounced(adc, hwver, j', i, waiting);
        if i < room {
          NextCovered(adc, hwver, j', i, waiting);
          DrainingIsRight(adc, hwver, todo, room, i + 1, j', waiting - 1);
        }
      }
    }
  }

  lemma CoveredIsAnnounced(adc: Adc, hwver: nat, j: nat, i: nat, amount: nat)
    requires Covered(adc, hwver, j, i, amount) && amount > 0
    ensures Announced(adc, hwver, i)
  {
    assert Announces(adc, hwver, j, i - j + amount);
  }

  lemma NextCovered(adc: Adc, hwver: nat, j: nat, i: nat, amount: nat)
    requires Covered(adc, hwver, j, i, amount) && amount > 0
    ensures if amount == 1 then Due(adc, hwver, i + 1) else Covered(adc, hwver, j, i + 1, amount - 1)
  {
    assert Announces(adc, hwver, j, i - j + amount);
  }

  lemma InterruptIsRight(adc: Adc, hwver: nat, todo: nat, room: nat)
    ensures var (n, faults) := Drained(adc, hwver, todo, room, 0, 0);
      TakenRight(adc, hwver, todo, room, n, faults)
  {
    DrainingIsRight(adc, hwver, todo, room, 0, 0, 0);
  }

  /** The bytes of the first `n` samples. */
  function Taken(adc: Adc, n: nat): (bytes: seq<byte>)
    ensures |bytes| == 2 * n
  {
    if n == 0 then [] else Taken(adc, n - 1) + [adc.low(n - 1), adc.high(n - 1)]
  }

  /** Samples still to come. */
  function Remaining(scanCount: nat, scanlen: nat, scanPos: nat): int {
    scanCount * scanlen - scanPos
  }

  lemma RemainingBounds(scanCount: nat, scanlen: nat, scanPos: nat)
    requires scanPos < scanlen
    ensures scanCount == 0 ==> Remaining(scanCount, scanlen, scanPos) == 0 - scanPos
    ensures scanCount > 0 ==> Remaining(scanCount, scanlen, scanPos) >= Max(scanlen - scanPos, scanCount)
  {
    if scanCount > 0 {
      ScansOutnumberCount(scanCount, scanlen);
    }
  }

  lemma {:induction false} ScansOutnumberCount(scanCount: nat, scanlen: nat)
    requires scanCount > 0 && scanlen > 0
    ensures scanCount * scanlen >= scanCount + scanlen - 1
  {
    if scanCount > 1 {
      ScansOutnumberCount(scanCount - 1, scanlen);
      assert scanCount * scanlen == (scanCount - 1) * scanlen + scanlen;
    }
  }

  lemma NextScan(scanCount: nat, scanlen: nat)
    requires scanCount > 0
    ensures (scanCount - 1) * scanlen == scanCount * scanlen - scanlen
  {
  }

  class Ai {
    const scanlen: u32
    const stopArg: u32
    const continuous: bool
    const hwver: nat
    const wakeEos: bool
    const async: Async

    var scanCount: u32
    var scanPos: u32
    var started: bool
    var fifoThresh: u32
    var trigLevel: TrigLevel
    ghost var stored: nat

    /** Channel lists have 1 to 256 entries; 2048 is all the arithmetic needs. */
    ghost predicate Valid()
      reads this, async, async.preallocBuf
    {
      && 1 <= scanlen <= 2048
      && async.Valid() && !async.lsampl
      && |async.ring.committed| == 2 * stored
      && scanPos < scanlen
      && (!continuous ==>
           && stored + Remaining(scanCount, scanlen, scanPos) == stopArg * scanlen
           && (scanCount == 0 ==> scanPos == 0))
    }

    /** pci230_ai_cmd: a fresh command on a freshly reset buffer. */
    constructor (scanlen: u32, stopArg: u32, continuous: bool, hwver: nat, wakeEos: bool, async: Async)
      requires 1 <= scanlen <= 2048 && async.Valid() && !async.lsampl && async.ring == EMPTY_RING
      ensures Valid() && stored == 0 && started
      ensures this.scanlen == scanlen && this.stopArg == stopArg && this.continuous == continuous && this.async == async
    {
      this.scanlen, this.stopArg, this.continuous := scanlen, stopArg, continuous;
      this.hwver, this.wakeEos, this.async := hwver, wakeEos, async;
      scanCount := if continuous then 0 else stopArg;
      scanPos, stored, started := 0, 0, true;
      fifoThresh, trigLevel := 0, IntHalf;
    }

    /** The number of samples one interrupt may take. */
    ghost function Wanted(): int
      reads this
    {
      if continuous then HALF_FULL else Min(HALF_FULL, Remaining(scanCount, scanlen, scanPos))
    }

    method Todo() returns (todo: u32)
      requires Valid()
      ensures todo == Wanted()
    {
      RemainingBounds(scanCount, scanlen, scanPos);
      if continuous {
        todo := HALF_FULL;
      } else if scanCount == 0 {
        todo := 0;
      } else if scanCount > HALF_FULL || scanlen > HALF_FULL {
        todo := HALF_FULL;
      } else {
        ProductFits(scanCount, scanlen);
        todo := scanCount * scanlen - scanPos;
        if todo > HALF_FULL {
          todo := HALF_FULL;
        }
      }
    }

    /** Stores one sample and advances the scan position. */
    method StoreSample(sample: seq<byte>) returns (ok: bool)
      requires Valid() && |sample| == 2
      requires !continuous ==> Remaining(scanCount, scanlen, scanPos) > 0
      modifies this, async, async.preallocBuf
      ensures Valid() && async.preallocBuf == old(async.preallocBuf)
      ensures ok <==> 2 <= old(Room(async.ring, async.preallocBuf.Length))
      ensures ok ==> Room(async.ring, async.preallocBuf.Length) == old(Room(async.ring, async.preallocBuf.Length)) - 2
      ensures ok ==> stored == old(stored) + 1 && async.ring.committed == old(async.ring.committed) + sample
      ensures !ok ==> stored == old(stored) && async.ring == old(async.ring)
      ensures ok ==> scanPos == (if old(scanPos) + 1 == scanlen then 0 else old(scanPos) + 1)
      ensures ok && scanPos == 0 ==> Eos in async.events
      ensures started == old(started)
    {
      hide Cell, Stores, MungedLength, Wrap;
      RemainingBounds(scanCount, scanlen, scanPos);
      ok := async.Put(sample);
      if ok {
        stored := stored + 1;
        scanPos := scanPos + 1;
        if scanPos == scanlen {
          scanPos := 0;
          if !continuous { NextScan(scanCount, scanlen); }
          scanCount := WrapDown(scanCount);
          async.events := async.events + {Eos};
        }
      }
    }

    /** pci230_handle_ai, against any behaviour of the FIFO: whatever the status and level registers
        show, samples are conserved, never more than the command wants are stored, and the end of a
        counted acquisition is signalled exactly when all of them are. */
    method HandleAi(adc: Adc) returns (events: set<Event>)
      requires Valid()
      modifies this, async, async.preallocBuf
      ensures Valid() && async.preallocBuf == old(async.preallocBuf)
      ensures old(Wanted()) == 0 ==> stored == old(stored) && async.ring == old(async.ring) && events == {}
      ensures old(Wanted()) > 0 ==>
        var room := old(Room(async.ring, async.preallocBuf.Length)) / 2;
        var (n, faults) := Drained(adc, hwver, old(Wanted()), room, 0, 0);
        && stored == old(stored) + n
        && async.ring.committed == old(async.ring.committed) + Taken(adc, n)
        && events == faults + {if !continuous && stored == stopArg * scanlen then Eoa else Block}
      ensures var wanted := if continuous then 2049 else Min(2049, stopArg * scanlen - old(stored));
        && (wanted <= 0 ==> stored == old(stored) && events == {})
        && (wanted > 0 ==>
             && old(stored) <= stored
             && async.ring.committed == old(async.ring.committed) + Taken(adc, stored - old(stored))
             && var room := old(Room(async.ring, async.preallocBuf.Length)) / 2;
                TakenRight(adc, hwver, wanted, room, stored - old(stored), events - {Eoa, Block}))
      ensures !continuous ==> stored <= stopArg * scanlen
      ensures events <= async.events
      ensures Eoa in events || Error in events || Overflow in events ==> !started
      ensures started && (continuous || old(scanCount) > 0) ==> LevelReachable()
    {
      hide Cell, Stores, MungedLength, Wrap, Drained, Taken, Due, Announced, Announces;
      events := {};
      RemainingBounds(scanCount, scanlen, scanPos);
      var todo := Todo();
      if todo == 0 {
        return;
      }
      ghost var room := Room(async.ring, async.preallocBuf.Length) / 2;
      events := DrainFifo(adc, todo);
      InterruptIsRight(adc, hwver, todo, room);
      RemainingBounds(scanCount, scanlen, scanPos);
      events := Signal(events);
    }

    /** The end of the handler: what is reported, and whether and when there is a next interrupt. */
    method Signal(faults: set<Event>) returns (events: set<Event>)
      requires Valid() && faults <= {Overflow, Error}
      modifies this`started, this`fifoThresh, this`trigLevel, async`events
      ensures Valid()
      ensures events == faults + {if !continuous && scanCount == 0 then Eoa else Block}
      ensures async.events == old(async.events) + events
      ensures Eoa in events || Error in events || Overflow in events ==> !started
      ensures started && (continuous || scanCount > 0) ==> LevelReachable()
    {
      hide Cell, Stores, MungedLength, Wrap;
      if !continuous && scanCount == 0 {
        events := faults + {Eoa};
      } else {
        events := faults + {Block};
      }
      async.events := async.events + events;
      if Eoa in async.events || Error in async.events || Overflow in async.events {
        started := false;
      } else {
        UpdateFifoTriggerLevel();
      }
    }

    /** The loop that reads up to `todo` samples while the FIFO offers any. */
    method DrainFifo(adc: Adc, todo: u32) returns (events: set<Event>)
      requires Valid()
      requires !continuous ==> todo <= Remaining(scanCount, scanlen, scanPos)
      modifies this, async, async.preallocBuf
      ensures Valid() && async.preallocBuf == old(async.preallocBuf)
      ensures var (n, faults) := Drained(adc, hwver, todo, old(Room(async.ring, async.preallocBuf.Length)) / 2, 0, 0);
        && stored == old(stored) + n
        && async.ring.committed == old(async.ring.committed) + Taken(adc, n)
        && events == faults
      ensures old(stored) <= stored
      ensures var room := old(Room(async.ring, async.preallocBuf.Length)) / 2;
        TakenRight(adc, hwver, todo, room, stored - old(stored), events)
    {
      hide Cell, Stores, MungedLength, Wrap, TakenRight, Drained;
      InterruptIsRight(adc, hwver, todo, Room(async.ring, async.preallocBuf.Length) / 2);
      ghost var room := Room(async.ring, async.preallocBuf.Length);
      events := {};
      var fifoAmount: u32 := 0;
      var i: u32 := 0;
      while i < todo
        invariant i <= todo
        invariant Valid() && async.preallocBuf == old(async.preallocBuf)
        invariant stored == old(stored) + i
        invariant async.ring.committed == old(async.ring.committed) + Taken(adc, i)
        invariant Room(async.ring, async.preallocBuf.Length) == room - 2 * i
        invariant Drained(adc, hwver, todo, room / 2, i, fifoAmount) == Drained(adc, hwver, todo, room / 2, 0, 0)
      {
        DrainTurn(adc, hwver, todo, room / 2, i, fifoAmount);
        if fifoAmount == 0 {
          match adc.status(i) {
            case FullLatched =>
              events := {Overflow, Error};
              return;
            case FifoEmpty =>
              return;
            case HalfFull =>
              fifoAmount := HALF_FULL;
            case NotEmpty =>
              if hwver > 0 {
                fifoAmount := adc.level(i);
                if fifoAmount == 0 {
                  return;
                }
              } else {
                fifoAmount := 1;
              }
          }
        }
        var ok := StoreSample([adc.low(i), adc.high(i)]);
        if !ok {
          events := {Error, Overflow};
          return;
        }
        fifoAmount := fifoAmount - 1;
        i := i + 1;
      }
      DrainTurn(adc, hwver, todo, room / 2, i, fifoAmount);
    }

    /** How many samples the FIFO must hold to interrupt. */
    function InterruptLevel(): nat
      reads this
    {
      match trigLevel
      case IntHalf => HALF_FULL
      case IntThresh => fifoThresh
      case IntNotEmpty => 1
    }

    /** The next interrupt comes before the hardware has delivered its last sample. */
    ghost predicate LevelReachable()
      reads this
    {
      !continuous ==> InterruptLevel() <= Remaining(scanCount, scanlen, scanPos)
    }

    /** pci230_ai_update_fifo_trigger_level: waits for the rest of the scan or of the command, up to
        half a FIFO, and so never for more samples than are still to come. Boards without a programmable
        level that cannot wait for half a FIFO wait for one sample. */
    method UpdateFifoTriggerLevel()
      requires Valid() && (continuous || scanCount > 0)
      modifies this`fifoThresh, this`trigLevel
      ensures Valid() && LevelReachable()
      ensures var rest: int :=
          if wakeEos then scanlen - scanPos
          else if continuous then 2049
          else scanCount * scanlen - scanPos;
        InterruptLevel() == if rest >= 2049 then 2049 else if hwver > 0 then rest else 1
    {
      hide Cell, Stores, MungedLength, Wrap;
      RemainingBounds(scanCount, scanlen, scanPos);
      var wake: u32;
      if wakeEos {
        wake := scanlen - scanPos;
      } else if continuous || scanCount >= HALF_FULL || scanlen >= HALF_FULL {
        wake := HALF_FULL;
      } else {
        ProductFits(scanCount, scanlen);
        wake := scanCount * scanlen - scanPos;
      }
      if wake >= HALF_FULL {
        trigLevel := IntHalf;
      } else if wake > 1 && hwver > 0 {
        if fifoThresh != wake {
          fifoThresh := wake;
        }
        trigLevel := IntThresh;
      } else {
        trigLevel := IntNotEmpty;
      }
    }
  }

  /** `x--` on an unsigned int. */
  function WrapDown(x: u32): (r: u32)
    ensures x > 0 ==> r == x - 1
  {
    if x == 0 then UINT_MAX else x - 1
  }

  lemma ProductFits(a: nat, b: nat)
    requires a <= 2049 && b <= 2049
    ensures a * b < TWO_32
  {
    assert a * b <= 2049 * b by { assert 2049 * b == a * b + (2049 - a) * b; }
  }
}
