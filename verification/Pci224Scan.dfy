/** The scan order of amplc_pci224.c: samples leave in channel order, whatever the channel list. */
module Pci224Scan {
  import opened Word32

  type sampl = bv16

  datatype ChanSpec = ChanSpec(chan: nat, range: nat, aref: nat)

  // ---------------------------------------------------------------- ranks

  /** How many of the first `n` entries have a channel below `ch`. */
  function Below(chanlist: seq<ChanSpec>, ch: nat, n: nat): (rank: nat)
    requires n <= |chanlist|
    ensures rank <= n
  {
    if n == 0 then 0
    else Below(chanlist, ch, n - 1) + (if chanlist[n - 1].chan < ch then 1 else 0)
  }

  function Rank(chanlist: seq<ChanSpec>, i: nat): nat
    requires i < |chanlist|
  {
    Below(chanlist, chanlist[i].chan, |chanlist|)
  }

  ghost predicate NoDuplicates(chanlist: seq<ChanSpec>) {
    forall i, j | 0 <= i < j < |chanlist| :: chanlist[i].chan != chanlist[j].chan
  }

  lemma {:induction false} BelowMonotone(chanlist: seq<ChanSpec>, low: nat, high: nat, n: nat, i: nat)
    requires n <= |chanlist| && low <= high && i < |chanlist|
    ensures Below(chanlist, low, n) <= Below(chanlist, high, n)
    ensures i < n && low <= chanlist[i].chan < high ==> Below(chanlist, low, n) < Below(chanlist, high, n)
    ensures i < n && low <= chanlist[i].chan ==> Below(chanlist, low, n) < n
  {
    if n > 0 {
      BelowMonotone(chanlist, low, high, n - 1, i);
    }
  }

  /** Ranks order entries as their channels do. */
  lemma RankFollowsChannel(chanlist: seq<ChanSpec>, i: nat, j: nat)
    requires i < |chanlist| && j < |chanlist|
    ensures Rank(chanlist, i) < |chanlist|
    ensures Rank(chanlist, i) < Rank(chanlist, j) <==> chanlist[i].chan < chanlist[j].chan
  {
    var ci, cj := chanlist[i].chan, chanlist[j].chan;
    BelowMonotone(chanlist, ci, ci, |chanlist|, i);
    if ci < cj {
      BelowMonotone(chanlist, ci, cj, |chanlist|, i);
    } else {
      BelowMonotone(chanlist, cj, ci, |chanlist|, j);
    }
  }

  /** Without duplicates every position below the list length is the rank of some entry. */
  lemma EveryRankOccurs(chanlist: seq<ChanSpec>, k: nat)
    requires NoDuplicates(chanlist) && k < |chanlist|
    ensures exists i: nat :: i < |chanlist| && Rank(chanlist, i) == k
  {
    var n := |chanlist|;
    var ranks := seq(n, i requires 0 <= i < n => Rank(chanlist, i));
    forall i, j | 0 <= i < j < n ensures ranks[i] != ranks[j] {
      RankFollowsChannel(chanlist, i, j);
      RankFollowsChannel(chanlist, j, i);
    }
    forall i | 0 <= i < n ensures ranks[i] < n {
      RankFollowsChannel(chanlist, i, i);
    }
    Pigeonhole(ranks, n, k);
    var i :| 0 <= i < n && ranks[i] == k;
    assert Rank(chanlist, i) == k;
  }

  /** `n` distinct values below `n` include every value below `n`. */
  lemma Pigeonhole(s: seq<nat>, n: nat, k: nat)
    requires |s| == n && k < n
    requires forall i | 0 <= i < n :: s[i] < n
    requires forall i, j | 0 <= i < j < n :: s[i] != s[j]
    ensures k in s
  {
    if k !in s {
      SubsetSize(Elements(s), UpTo(n) - {k});
      assert false;
    }
  }

  ghost function UpTo(n: nat): (r: set<nat>)
    ensures |r| == n && forall x: nat :: x in r <==> x < n
  {
    if n == 0 then {} else UpTo(n - 1) + {n - 1}
  }

  ghost function Elements(s: seq<nat>): (r: set<nat>)
    requires forall i, j | 0 <= i < j < |s| :: s[i] != s[j]
    ensures |r| == |s| && forall x: nat :: x in r <==> x in s
  {
    if s == [] then {} else
      assert s == s[..|s| - 1] + [s[|s| - 1]];
      Elements(s[..|s| - 1]) + {s[|s| - 1]}
  }

  lemma {:induction false} SubsetSize(a: set<nat>, b: set<nat>)
    requires a <= b
    ensures |a| <= |b|
  {
    if a != {} {
      var x :| x in a;
      SubsetSize(a - {x}, b - {x});
    }
  }

  // ---------------------------------------------------------------- orders

  /** `order` visits the entries of the channel list once each, by ascending channel. */
  ghost predicate IsScanOrder(order: seq<nat>, chanlist: seq<ChanSpec>) {
    && |order| == |chanlist|
    && (forall k | 0 <= k < |order| :: order[k] < |chanlist|)
    && (forall i | 0 <= i < |chanlist| :: Rank(chanlist, i) < |order| && order[Rank(chanlist, i)] == i)
    && (forall j, k | 0 <= j < k < |order| :: chanlist[order[j]].chan < chanlist[order[k]].chan)
  }

  /** Filling each entry's rank with its index gives a scan order. */
  lemma FilledIsScanOrder(order: seq<nat>, chanlist: seq<ChanSpec>)
    requires NoDuplicates(chanlist) && |order| == |chanlist|
    requires forall i: nat | i < |chanlist| :: Rank(chanlist, i) < |order| && order[Rank(chanlist, i)] == i
    ensures IsScanOrder(order, chanlist)
  {
    hide Rank;
    forall k: nat | k < |order| ensures order[k] < |chanlist| && Rank(chanlist, order[k]) == k {
      EveryRankOccurs(chanlist, k);
    }
    forall j: nat, k: nat | j < k < |order| ensures chanlist[order[j]].chan < chanlist[order[k]].chan {
      RankFollowsChannel(chanlist, order[j], order[k]);
    }
  }

  function Reordered(order: seq<nat>, scan: seq<sampl>): (r: seq<sampl>)
    requires |order| == |scan| && forall k | 0 <= k < |order| :: order[k] < |scan|
    ensures |r| == |scan|
  {
    seq(|order|, k requires 0 <= k < |order| => scan[order[k]])
  }

  /** What leaves for a scan: every sample, at the place of its channel among the channels. */
  lemma EachSampleInChannelOrder(order: seq<nat>, chanlist: seq<ChanSpec>, scan: seq<sampl>, i: nat)
    requires IsScanOrder(order, chanlist) && |scan| == |chanlist| && i < |scan|
    ensures Rank(chanlist, i) < |scan|
    ensures Reordered(order, scan)[Rank(chanlist, i)] == scan[i]
    ensures forall j: nat | j < |scan| ::
      Rank(chanlist, i) < Rank(chanlist, j) <==> chanlist[i].chan < chanlist[j].chan
  {
    hide Rank;
    forall j: nat | j < |scan|
      ensures Rank(chanlist, i) < Rank(chanlist, j) <==> chanlist[i].chan < chanlist[j].chan
    {
      RankFollowsChannel(chanlist, i, j);
    }
  }

  // ---------------------------------------------------------------- cmdtest and cmd

  /** pci224_ao_cmdtest, step 5. The channels seen so far stand for the bits of a word: channels
      are below 16. */
  method CheckChanlist(chanlist: seq<ChanSpec>) returns (dupChan: bool, rangeErr: bool)
    requires |chanlist| > 0 && forall i | 0 <= i < |chanlist| :: chanlist[i].chan < 16
    ensures !dupChan <==> NoDuplicates(chanlist)
    ensures !rangeErr <==> forall i | 0 <= i < |chanlist| :: chanlist[i].range == chanlist[0].range
  {
    var range := chanlist[0].range;
    dupChan, rangeErr := false, false;
    var seen: set<nat> := {};
    for n := 0 to |chanlist|
      invariant forall c: nat :: c in seen <==> exists i :: 0 <= i < n && chanlist[i].chan == c
      invariant !dupChan <==> NoDuplicates(chanlist[..n])
      invariant !rangeErr <==> forall i | 0 <= i < n :: chanlist[i].range == range
    {
      var ch := chanlist[n].chan;
      assert chanlist[..n + 1][..n] == chanlist[..n];
      if ch in seen {
        dupChan := true;
        var i :| 0 <= i < n && chanlist[i].chan == ch;
        assert chanlist[..n + 1][i].chan == chanlist[..n + 1][n].chan;
      }
      seen := seen + {ch};
      if chanlist[n].range != range {
        rangeErr := true;
      }
    }
    assert chanlist[..|chanlist|] == chanlist;
  }

  /** pci224_ao_cmd: the rank loops fill the scan order; for a list cmdtest accepted they visit
      each entry once, by strictly ascending channel; the channels enabled are those listed. */
  method SetScanOrder(chanlist: seq<ChanSpec>, aoScanOrder: array<nat>) returns (aoEnab: set<nat>)
    requires |chanlist| <= aoScanOrder.Length && NoDuplicates(chanlist)
    modifies aoScanOrder
    ensures IsScanOrder(aoScanOrder[..|chanlist|], chanlist)
    ensures forall ch :: ch in aoEnab <==> exists i :: 0 <= i < |chanlist| && chanlist[i].chan == ch
  {
    aoEnab := {};
    for i := 0 to |chanlist|
      invariant forall k | 0 <= k < i :: Rank(chanlist, k) < |chanlist| && aoScanOrder[Rank(chanlist, k)] == k
      invariant forall ch :: ch in aoEnab <==> exists k :: 0 <= k < i && chanlist[k].chan == ch
    {
      var ch := chanlist[i].chan;
      aoEnab := aoEnab + {ch};
      var rank := 0;
      for j := 0 to |chanlist|
        invariant rank == Below(chanlist, ch, j)
      {
        if chanlist[j].chan < ch {
          rank := rank + 1;
        }
      }
      RankFollowsChannel(chanlist, i, i);
      forall k | 0 <= k < i ensures Rank(chanlist, k) != rank {
        RankFollowsChannel(chanlist, k, i);
        RankFollowsChannel(chanlist, i, k);
      }
      aoScanOrder[rank] := i;
    }
    FilledIsScanOrder(aoScanOrder[..|chanlist|], chanlist);
  }

  // ---------------------------------------------------------------- the output FIFO

  datatype FifoLevel = Empty | OneToHalf | HalfToFull | Full

  datatype Event = Eoa | Overflow

  function Room(level: FifoLevel): nat {
    match level
    case Empty => 4096
    case OneToHalf => 2048
    case HalfToFull => 1
    case Full => 0
  }

  function ScansIn(total: nat, n: nat): nat
    requires n > 0
  {
    total / n
  }

  /** It is the greatest number of whole scans. */
  lemma ScansInIsGreatest(total: nat, n: nat)
    requires n > 0
    ensures ScansIn(total, n) * n <= total < (ScansIn(total, n) + 1) * n
  {
    var q := total / n;
    assert total == n * q + total % n;
    assert (q + 1) * n == q * n + n;
    assert n * q == q * n;
  }

  /** No more scans of `n` samples are wanted than `k`, or wait, or fit. */
  predicate IsMost(k: nat, n: nat, waiting: nat, room: nat, continuous: bool, wanted: nat) {
    (!continuous && k == wanted) || (k + 1) * n > waiting || (k + 1) * n > room
  }

  lemma MinimumIsMost(n: nat, waiting: nat, room: nat, continuous: bool, wanted: nat)
    requires n > 0
    ensures var ready := if continuous then ScansIn(waiting, n) else Min(ScansIn(waiting, n), wanted);
      && IsMost(Min(ready, ScansIn(room, n)), n, waiting, room, continuous, wanted)
      && (ready == 0 <==> waiting < n || (!continuous && wanted == 0))
  {
    hide ScansIn;
    ScansInIsGreatest(waiting, n);
    ScansInIsGreatest(room, n);
    if ScansIn(waiting, n) > 0 {
      assert ScansIn(waiting, n) * n == n + (ScansIn(waiting, n) - 1) * n;
    }
  }

  /** The samples of the first `k` scans, each scan in scan order. */
  function Scans(order: seq<nat>, samples: seq<sampl>, k: nat): (r: seq<sampl>)
    requires |order| > 0 && forall i | 0 <= i < |order| :: order[i] < |order|
    requires k * |order| <= |samples|
    ensures |r| == k * |order|
    decreases k
  {
    if k == 0 then []
    else
      assert (k - 1) * |order| + |order| == k * |order|;
      Scans(order, samples, k - 1) + Reordered(order, samples[(k - 1) * |order|..(k - 1) * |order| + |order|])
  }

  lemma {:induction false} ScansPrefix(order: seq<nat>, s: seq<sampl>, more: seq<sampl>, k: nat)
    requires |order| > 0 && forall i | 0 <= i < |order| :: order[i] < |order|
    requires k * |order| <= |s|
    ensures Scans(order, s + more, k) == Scans(order, s, k)
  {
    if k > 0 {
      ProductGrows(k - 1, k, |order|);
      ScansPrefix(order, s, more, k - 1);
      var from := (k - 1) * |order|;
      assert (s + more)[from..from + |order|] == s[from..from + |order|];
    }
  }

  /** The scans of a stream are those of its parts. */
  lemma {:induction false} ScansAppend(order: seq<nat>, a: seq<sampl>, b: seq<sampl>, j: nat, k: nat)
    requires |order| > 0 && forall i | 0 <= i < |order| :: order[i] < |order|
    requires |a| == j * |order| && k * |order| <= |b|
    ensures (j + k) * |order| == |a| + k * |order|
    ensures Scans(order, a + b, j + k) == Scans(order, a, j) + Scans(order, b, k)
  {
    hide Scans, Reordered;
    var n := |order|;
    TimesSum(j, k, n);
    if k == 0 {
      ScansPrefix(order, a, b, j);
      NoScans(order, b);
    } else {
      ProductGrows(k - 1, k, n);
      TimesSum(j, k - 1, n);
      ProductGrows(j + k - 1, j + k, n);
      ScansAppend(order, a, b, j, k - 1);
      ScansStep(order, b, k - 1);
      ScansStep(order, a + b, j + k - 1);
      LaterSlice(a, b, (k - 1) * n, n);
    }
  }

  lemma NoScans(order: seq<nat>, s: seq<sampl>)
    requires |order| > 0 && forall i | 0 <= i < |order| :: order[i] < |order|
    ensures 0 * |order| == 0 && Scans(order, s, 0) == []
  {
  }

  lemma LaterSlice(a: seq<sampl>, b: seq<sampl>, from: nat, n: nat)
    requires from + n <= |b|
    ensures (a + b)[|a| + from..|a| + from + n] == b[from..from + n]
  {
  }

  lemma ScansStep(order: seq<nat>, s: seq<sampl>, k: nat)
    requires |order| > 0 && forall i | 0 <= i < |order| :: order[i] < |order|
    requires 0 <= k * |order| && k * |order| + |order| == (k + 1) * |order| <= |s|
    ensures Scans(order, s, k + 1) == Scans(order, s, k) + Reordered(order, s[k * |order|..k * |order| + |order|])
  {
  }

  lemma TimesSum(j: nat, k: nat, n: nat)
    ensures (j + k) * n == j * n + k * n
  {
  }

  /** The FIFO level that interrupts, and what triggers a scan. */
  datatype FifoIntr = WhenNotHalfFull | WhenEmpty

  datatype Trigger = TrigNone | TrigSw | TrigZ2Ct0 | TrigExtP | TrigExtN

  class Output {
    const chanlist: seq<ChanSpec>
    const order: seq<nat>
    const stopArg: u32
    const stopContinuous: bool
    const scanTrigger: Trigger
    var stopCount: u32
    var started: bool
    var fifoIntr: FifoIntr
    var trigger: Trigger
    /** Samples waiting in Comedi's buffer, and everything written to the DAC FIFO. */
    var pending: seq<sampl>
    var dacData: seq<sampl>
    /** The samples taken so far, and how many scans they make. */
    ghost var consumed: seq<sampl>
    ghost var scansOut: nat

    predicate Ordered() {
      |chanlist| > 0 && |order| == |chanlist| && forall i | 0 <= i < |order| :: order[i] < |order|
    }

    /** Over any run: what was written is every sample taken, scan by scan in scan order, and the scans
        written and the scans still wanted make up the command. */
    ghost predicate Valid()
      reads this
    {
      && Ordered() && IsScanOrder(order, chanlist)
      && |consumed| == scansOut * |order|
      && dacData == Scans(order, consumed, scansOut)
      && (!stopContinuous ==> scansOut + stopCount == stopArg)
    }

    constructor (chanlist: seq<ChanSpec>, order: seq<nat>, stopArg: u32, continuous: bool, scanTrigger: Trigger)
      requires |chanlist| > 0 && IsScanOrder(order, chanlist)
      ensures Valid() && pending == [] && dacData == [] && consumed == [] && started
      ensures this.chanlist == chanlist && this.order == order && this.stopArg == stopArg
      ensures stopContinuous == continuous && this.scanTrigger == scanTrigger
      ensures trigger == TrigNone && fifoIntr == WhenNotHalfFull
    {
      this.chanlist, this.order, this.stopArg, this.scanTrigger := chanlist, order, stopArg, scanTrigger;
      stopContinuous, stopCount := continuous, if continuous then 0 else stopArg;
      started, fifoIntr, trigger, pending, dacData := true, WhenNotHalfFull, TrigNone, [], [];
      consumed, scansOut := [], 0;
    }

    /** pci224_ao_stop */
    method Stop()
      modifies this`started, this`fifoIntr, this`trigger
      ensures !started
      ensures fifoIntr == (if old(started) then WhenEmpty else old(fifoIntr))
      ensures trigger == (if old(started) then TrigSw else old(trigger))
    {
      if !started {
        return;
      }
      started, fifoIntr, trigger := false, WhenEmpty, TrigSw;
    }

    /** Whole scans that are waiting and still wanted. */
    ghost function Ready(): nat
      requires Ordered()
      reads this
    {
      var waiting := ScansIn(|pending|, |order|);
      if stopContinuous then waiting else Min(waiting, stopCount)
    }

    /** The FIFO ran empty and the command has no scans left. */
    ghost predicate Over(level: FifoLevel)
      reads this
    {
      level == Empty && !stopContinuous && stopCount == 0
    }

    /** pci224_ao_handle_fifo: whole scans move to the FIFO, as many as are waiting, wanted and
        fit. The end is signalled only after all scans of the command, and running dry is an error.
        The first interrupt sets the scan trigger, and when nothing is left to write the FIFO
        interrupts next when it is empty. */
    method HandleFifo(level: FifoLevel) returns (events: set<Event>, ghost moved: nat)
      requires Valid()
      modifies this
      ensures Valid()
      ensures moved == if old(Over(level)) then 0 else Min(old(Ready()), ScansIn(Room(level), |order|))
      ensures moved * |order| <= |old(pending)| && moved * |order| <= Room(level)
      ensures scansOut == old(scansOut) + moved
      ensures pending == old(pending)[moved * |order|..]
      ensures consumed == old(consumed) + old(pending)[..moved * |order|]
      ensures events ==
        if old(Over(level)) then {Eoa}
        else if (level == Empty || level == OneToHalf) && old(Ready()) == 0 then {Overflow}
        else {}
      ensures Eoa in events ==> !stopContinuous && scansOut == stopArg
      ensures Eoa in events <==> level == Empty && !stopContinuous && old(stopCount) == 0
      ensures var room := match level case Empty => 4096 case OneToHalf => 2048 case HalfToFull => 1 case Full => 0;
        Eoa !in events ==> IsMost(moved, |order|, |old(pending)|, room, stopContinuous, old(stopCount))
      ensures Overflow in events <==>
        && (level == OneToHalf || (level == Empty && Eoa !in events))
        && (|old(pending)| < |order| || (!stopContinuous && old(stopCount) == 0))
      ensures started == (old(started) && events == {})
      ensures events == {} && !stopContinuous && stopCount == 0 ==> fifoIntr == WhenEmpty
      ensures events == {} && old(trigger) == TrigNone ==> trigger == scanTrigger
      ensures events == {} && old(trigger) != TrigNone ==> trigger == old(trigger)
    {
      hide IsScanOrder, Scans, ScansIn, IsMost;
      var n := |chanlist|;
      events, moved := {}, 0;
      MinimumIsMost(n, |pending|, Room(level), stopContinuous, stopCount);
      var numScans := ScansIn(|pending|, n);
      if !stopContinuous && numScans > stopCount {
        numScans := stopCount;
      }
      if level == Empty && !stopContinuous && stopCount == 0 {
        Stop();
        return {Eoa}, 0;
      }
      var room := Room(level);
      if room >= 2048 && numScans == 0 {
        Stop();
        events := {Overflow};
      }
      room := ScansIn(room, n);
      if numScans > room {
        numScans := room;
      }
      FloorFits(|pending|, n, numScans);
      FloorFits(Room(level), n, numScans);
      MoveScans(numScans);
      moved := numScans;
      SetTriggers();
    }

    /** The register updates that end the handler. */
    method SetTriggers()
      modifies this`fifoIntr, this`trigger
      ensures fifoIntr == if !stopContinuous && stopCount == 0 then WhenEmpty else old(fifoIntr)
      ensures trigger == if old(trigger) == TrigNone then scanTrigger else old(trigger)
    {
      if !stopContinuous && stopCount == 0 {
        fifoIntr := WhenEmpty;
      }
      if trigger == TrigNone {
        trigger := scanTrigger;
      }
    }

    /** The scans are taken and counted. */
    method MoveScans(numScans: nat)
      requires Valid() && numScans * |order| <= |pending| && (!stopContinuous ==> numScans <= stopCount)
      modifies this`pending, this`dacData, this`consumed, this`scansOut, this`stopCount
      ensures Valid() && scansOut == old(scansOut) + numScans
      ensures pending == old(pending)[numScans * |order|..]
      ensures consumed == old(consumed) + old(pending)[..numScans * |order|]
    {
      hide IsScanOrder, Scans;
      ghost var taken := pending[..numScans * |order|];
      assert pending == taken + pending[|taken|..];
      ScansPrefix(order, taken, pending[|taken|..], numScans);
      ScansAppend(order, consumed, taken, scansOut, numScans);
      WriteScans(numScans);
      consumed, scansOut := consumed + taken, scansOut + numScans;
      if !stopContinuous {
        stopCount := stopCount - numScans;
      }
    }

    /** The loops that read scans from the buffer and write their samples in scan order. */
    method WriteScans(numScans: nat)
      requires Ordered() && numScans * |order| <= |pending|
      modifies this`pending, this`dacData
      ensures pending == old(pending)[numScans * |order|..]
      ensures dacData == old(dacData) + Scans(order, old(pending), numScans)
    {
      hide Scans, Reordered;
      var n := |chanlist|;
      var k := 0;
      while k < numScans
        invariant k <= numScans && k * n <= |old(pending)|
        invariant pending == old(pending)[k * n..]
        invariant dacData == old(dacData) + Scans(order, old(pending), k)
      {
        ProductGrows(k, numScans, n);
        ScansStep(order, old(pending), k);
        var vals := pending[..n];
        pending := pending[n..];
        assert vals == old(pending)[k * n..k * n + n];
        WriteScan(vals);
        k := k + 1;
      }
    }

    method WriteScan(vals: seq<sampl>)
      requires Ordered() && |vals| == |order|
      modifies this`dacData
      ensures dacData == old(dacData) + Reordered(order, vals)
    {
      for i := 0 to |chanlist|
        invariant dacData == old(dacData) + Reordered(order, vals)[..i]
      {
        dacData := dacData + [vals[order[i]]];
      }
    }
  }

  lemma FloorFits(total: nat, n: nat, k: nat)
    requires n > 0 && k <= ScansIn(total, n)
    ensures k * n <= total
  {
    var q := total / n;
    assert total == n * q + total % n;
    assert n * q == k * n + (q - k) * n;
  }

  lemma ProductGrows(k: nat, m: nat, n: nat)
    requires k < m
    ensures k * n + n == (k + 1) * n <= m * n
  {
    assert m * n == (k + 1) * n + (m - k - 1) * n;
  }
}
