/** An 8254 counter chip as i8254_load (comedi/drivers/8253.h) programs it. */
module Timer8254 {
  import opened Word32

  /** One counter: its mode, its count register, and whether the low byte of a two-byte write has
      arrived. */
  datatype Counter = Counter(mode: nat, count: nat, lowByte: nat, halfWritten: bool)

  class Chip {
    var counters: seq<Counter>

    ghost predicate Valid()
      reads this
    {
      |counters| == 3
    }

    constructor ()
      ensures Valid()
    {
      counters := seq(3, _ => Counter(0, 0, 0, false));
    }

    /** A byte written to the control register: counter in bits 7-6, "low byte then high byte" in
        bits 5-4, mode in bits 3-1. */
    method OutControl(value: nat)
      requires Valid() && value / 64 < 3 && value / 16 % 4 == 3
      modifies this
      ensures Valid()
      ensures counters == old(counters)[value / 64 :=
        old(counters)[value / 64].(mode := value / 2 % 8, halfWritten := false)]
    {
      var n := value / 64;
      counters := counters[n := counters[n].(mode := value / 2 % 8, halfWritten := false)];
    }

    /** A byte written to counter `n`'s data register. */
    method OutData(n: nat, value: nat)
      requires Valid() && n < 3 && value < 256
      modifies this
      ensures Valid()
      ensures counters == old(counters)[n :=
        if old(counters)[n].halfWritten
        then old(counters)[n].(count := old(counters)[n].lowByte + 256 * value, halfWritten := false)
        else old(counters)[n].(lowByte := value, halfWritten := true)]
    {
      var c := counters[n];
      counters := counters[n :=
        if c.halfWritten then c.(count := c.lowByte + 256 * value, halfWritten := false)
        else c.(lowByte := value, halfWritten := true)];
    }

    /** i8254_load: refuses what the chip cannot take and otherwise leaves exactly `count` and
        `mode` in the counter, the other counters alone. */
    method Load(counterNumber: u32, count: u32, mode: u32) returns (ret: int)
      requires Valid()
      modifies this
      ensures Valid()
      ensures ret == 0 <==>
        counterNumber <= 2 && count <= 0xffff && mode <= 5 && !((mode == 2 || mode == 3) && count == 1)
      ensures ret != 0 ==> ret == -1 && counters == old(counters)
      ensures ret == 0 ==> counters[counterNumber].count == count && counters[counterNumber].mode == mode
      ensures forall n | 0 <= n < 3 && n != counterNumber :: counters[n] == old(counters)[n]
    {
      if counterNumber > 2 {
        return -1;
      }
      if count > 0xffff {
        return -1;
      }
      if mode > 5 {
        return -1;
      }
      if (mode == 2 || mode == 3) && count == 1 {
        return -1;
      }
      ControlByte(counterNumber, mode);
      CountBytes(count);
      OutControl(counterNumber * 64 + 0x30 + mode * 2);
      OutData(counterNumber, count % 256);
      OutData(counterNumber, count / 256 % 256);
      return 0;
    }
  }

  lemma ControlByte(counterNumber: nat, mode: nat)
    requires counterNumber <= 2 && mode <= 5
    ensures var value := counterNumber * 64 + 0x30 + mode * 2;
      value / 64 == counterNumber && value / 16 % 4 == 3 && value / 2 % 8 == mode
  {
  }

  lemma CountBytes(count: nat)
    requires count <= 0xffff
    ensures count % 256 + 256 * (count / 256 % 256) == count
  {
  }
}
