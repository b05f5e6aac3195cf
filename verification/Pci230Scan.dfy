/** The channel list rules of amplc_pci230.c and what they guarantee the gain register. */
module Pci230Scan {

  datatype Aref = Ground | Common | Diff | Other

  datatype ChanSpec = ChanSpec(chan: nat, range: nat, aref: Aref, flags: nat)

  /** pci230_ai_bipolar and pci230_ai_gain */
  function Bipolar(range: nat): bool { range < 4 }

  function Gain(range: nat): (g: nat)
    ensures g < 4
  {
    if range < 4 then range else if range < 7 then range - 3 else 0
  }

  /** What check_chanlist has established for every entry: 16 channels and 7 ranges. */
  predicate Specs(chanlist: seq<ChanSpec>) {
    forall i | 0 <= i < |chanlist| :: chanlist[i].chan < 16 && chanlist[i].range < 7
  }

  /** The first `len` channels strictly ascend. */
  predicate Ascends(chanlist: seq<ChanSpec>, len: nat)
    requires len <= |chanlist|
  {
    forall i, j | 0 <= i < j < len :: chanlist[i].chan < chanlist[j].chan
  }

  /** Every entry repeats the one `len` earlier. */
  predicate Repeats(chanlist: seq<ChanSpec>, len: nat)
    requires len > 0
  {
    forall i | 0 <= i < |chanlist| :: i % len < |chanlist| && chanlist[i] == chanlist[i % len]
  }

  /** The list is a whole number of exact repeats of a strictly ascending prefix. */
  ghost predicate Regular(chanlist: seq<ChanSpec>) {
    exists len: nat :: WholeRepeats(chanlist, len)
  }

  predicate WholeRepeats(chanlist: seq<ChanSpec>, len: nat) {
    && 0 < len <= |chanlist| && |chanlist| % len == 0
    && Ascends(chanlist, len) && Repeats(chanlist, len)
  }

  predicate SamePair(a: ChanSpec, b: ChanSpec) {
    a.chan / 2 == b.chan / 2
  }

  datatype Errors = Errors(seqErr: bool, rangepairErr: bool, polarityErr: bool, arefErr: bool,
                           diffchanErr: bool, buggyChan0Err: bool)

  /** The longest ascending prefix: 0 while no descent has been met in the first `n` entries. */
  function FirstDescent(chanlist: seq<ChanSpec>, n: nat): (d: nat)
    requires n <= |chanlist|
    ensures d < n || d == 0
    ensures d == 0 ==> forall i | 0 < i < n :: chanlist[i - 1].chan < chanlist[i].chan
    ensures d > 0 ==> chanlist[d].chan <= chanlist[d - 1].chan
    ensures d > 0 ==> forall i | 0 < i < d :: chanlist[i - 1].chan < chanlist[i].chan
  {
    if n <= 1 then 0
    else
      var d := FirstDescent(chanlist, n - 1);
      if d == 0 && chanlist[n - 1].chan <= chanlist[n - 2].chan then n - 1 else d
  }

  // The conditions the loop tests entry by entry.

  predicate EntryRepeats(chanlist: seq<ChanSpec>, len: nat, i: nat)
    requires i < |chanlist| && (len <= i || len == 0)
  {
    len > 0 ==> chanlist[i] == chanlist[i % len]
  }

  datatype Rule = SameAref | SamePolarity | PairSharesRange | DiffInRange

  /** What the rule asks of entry `i`, given its predecessor. */
  predicate RuleAt(rule: Rule, chanlist: seq<ChanSpec>, i: nat)
    requires i < |chanlist|
  {
    match rule
    case SameAref => i > 0 ==> chanlist[i].aref == chanlist[i - 1].aref
    case SamePolarity => i > 0 ==> Bipolar(chanlist[i].range) == Bipolar(chanlist[i - 1].range)
    case PairSharesRange => i > 0 && chanlist[i].aref != Diff && SamePair(chanlist[i], chanlist[i - 1]) ==>
      chanlist[i].range == chanlist[i - 1].range
    case DiffInRange => chanlist[i].aref == Diff ==> chanlist[i].chan < 8
  }

  predicate Obeys(rule: Rule, chanlist: seq<ChanSpec>, n: nat)
    requires n <= |chanlist|
  {
    n == 0 || (Obeys(rule, chanlist, n - 1) && RuleAt(rule, chanlist, n - 1))
  }

  lemma {:induction false} ObeysEverywhere(rule: Rule, chanlist: seq<ChanSpec>, n: nat)
    requires n <= |chanlist|
    ensures Obeys(rule, chanlist, n) <==> forall i | 0 <= i < n :: RuleAt(rule, chanlist, i)
  {
    if n > 0 {
      ObeysEverywhere(rule, chanlist, n - 1);
    }
  }

  /** Neighbours all agree exactly when every entry agrees with the first. */
  lemma {:induction false} ObeysUniformly(chanlist: seq<ChanSpec>, n: nat)
    requires 0 < n <= |chanlist|
    ensures Obeys(SameAref, chanlist, n) <==> forall i | 0 <= i < n :: chanlist[i].aref == chanlist[0].aref
    ensures Obeys(SamePolarity, chanlist, n) <==>
      forall i | 0 <= i < n :: Bipolar(chanlist[i].range) == Bipolar(chanlist[0].range)
  {
    if n > 1 {
      ObeysUniformly(chanlist, n - 1);
    } else {
      assert Obeys(SameAref, chanlist, 0) && Obeys(SamePolarity, chanlist, 0);
    }
  }

  /** From the first descent on, every entry so far repeats. */
  ghost predicate RepeatsSoFar(chanlist: seq<ChanSpec>, len: nat, n: nat)
    requires n <= |chanlist| && (len < n || len == 0)
  {
    forall i | len <= i < n :: EntryRepeats(chanlist, len, i)
  }

  /** What the error flags mean after the first `n` entries. */
  ghost predicate Flagged(chanlist: seq<ChanSpec>, e: Errors, n: nat)
    requires n <= |chanlist|
  {
    && (!e.seqErr <==> RepeatsSoFar(chanlist, FirstDescent(chanlist, n), n))
    && (!e.arefErr <==> Obeys(SameAref, chanlist, n))
    && (!e.polarityErr <==> Obeys(SamePolarity, chanlist, n))
    && (!e.rangepairErr <==> Obeys(PairSharesRange, chanlist, n))
    && (!e.diffchanErr <==> Obeys(DiffInRange, chanlist, n))
    && !e.buggyChan0Err
  }

  /** pci230_ai_cmdtest, step 5. */
  method CheckChanlist(chanlist: seq<ChanSpec>, hwver: nat) returns (e: Errors)
    requires |chanlist| > 0 && Specs(chanlist)
    ensures !e.seqErr <==> Regular(chanlist)
    ensures !e.arefErr <==> forall i | 0 <= i < |chanlist| :: chanlist[i].aref == chanlist[0].aref
    ensures !e.polarityErr <==>
      forall i | 0 <= i < |chanlist| :: Bipolar(chanlist[i].range) == Bipolar(chanlist[0].range)
    ensures !e.rangepairErr <==> forall i | 0 < i < |chanlist| ::
      chanlist[i].aref != Diff && chanlist[i].chan / 2 == chanlist[i - 1].chan / 2 ==>
        chanlist[i].range == chanlist[i - 1].range
    ensures !e.diffchanErr <==> forall i | 0 <= i < |chanlist| :: chanlist[i].aref == Diff ==> chanlist[i].chan < 8
    ensures e.buggyChan0Err <==>
      0 < hwver < 4 && |chanlist| > 1 && FirstDescent(chanlist, |chanlist|) != 1 && chanlist[0].chan != 0
  {
    hide Regular, RepeatsSoFar, RuleAt, EntryRepeats;
    var subseqLen := 0;
    e := Errors(false, false, false, false, false, false);
    assert RepeatsSoFar(chanlist, 0, 0) by { NothingRepeats(chanlist); }
    for n := 0 to |chanlist|
      invariant subseqLen == FirstDescent(chanlist, n)
      invariant Flagged(chanlist, e, n)
    {
      hide Flagged, FirstDescent;
      e, subseqLen := CheckEntry(chanlist, n, e, subseqLen);
    }
    ghost var descent := subseqLen;
    RegularIffNoError(chanlist, descent);
    ObeysUniformly(chanlist, |chanlist|);
    PairRanges(chanlist);
    DiffChannels(chanlist);
    if subseqLen == 0 {
      subseqLen := |chanlist|;
    }
    e := FinishCheck(chanlist, hwver, e, descent, subseqLen);
  }

  /** The tests after the loop: a whole number of repeats, and the chan-0-first hardware bug. */
  method FinishCheck(chanlist: seq<ChanSpec>, hwver: nat, before: Errors, ghost descent: nat, subseqLen: nat)
    returns (e: Errors)
    requires |chanlist| > descent && !before.buggyChan0Err
    requires subseqLen == (if descent == 0 then |chanlist| else descent)
    ensures e.seqErr <==> before.seqErr || (descent > 0 && |chanlist| % descent != 0)
    ensures e.buggyChan0Err <==> 0 < hwver < 4 && |chanlist| > 1 && descent != 1 && chanlist[0].chan != 0
    ensures e == before.(seqErr := e.seqErr, buggyChan0Err := e.buggyChan0Err)
  {
    e := before;
    SmallMod(0, |chanlist|);
    if |chanlist| % subseqLen != 0 {
      e := e.(seqErr := true);
    }
    if 0 < hwver < 4 {
      if subseqLen > 1 && chanlist[0].chan != 0 {
        e := e.(buggyChan0Err := true);
      }
    }
  }

  /** One turn of the checking loop; the `prev` variables of the loop describe entry n - 1. */
  method CheckEntry(chanlist: seq<ChanSpec>, n: nat, before: Errors, subseqBefore: nat)
    returns (e: Errors, subseqLen: nat)
    requires n < |chanlist| && subseqBefore == FirstDescent(chanlist, n)
    requires Flagged(chanlist, before, n)
    ensures subseqLen == FirstDescent(chanlist, n + 1)
    ensures Flagged(chanlist, e, n + 1)
  {
    hide EntryRepeats, RepeatsSoFar, FirstDescent, Obeys, RuleAt;
    var seqErr;
    seqErr, subseqLen := CheckSequence(chanlist, n, before.seqErr, subseqBefore);
    var diffchanErr := before.diffchanErr || (chanlist[n].aref == Diff && chanlist[n].chan >= 8);
    var arefErr := before.arefErr || (n > 0 && chanlist[n].aref != chanlist[n - 1].aref);
    var polarityErr := before.polarityErr || (n > 0 && Bipolar(chanlist[n].range) != Bipolar(chanlist[n - 1].range));
    var rangepairErr := before.rangepairErr ||
      (n > 0 && chanlist[n].aref != Diff && SamePair(chanlist[n], chanlist[n - 1])
       && chanlist[n].range != chanlist[n - 1].range);
    NextEntry(chanlist, n);
    e := Errors(seqErr, rangepairErr, polarityErr, arefErr, diffchanErr, false);
  }

  lemma NextEntry(chanlist: seq<ChanSpec>, n: nat)
    requires n < |chanlist|
    ensures Obeys(SameAref, chanlist, n + 1) <==>
      Obeys(SameAref, chanlist, n) && (n > 0 ==> chanlist[n].aref == chanlist[n - 1].aref)
    ensures Obeys(SamePolarity, chanlist, n + 1) <==>
      Obeys(SamePolarity, chanlist, n) && (n > 0 ==> Bipolar(chanlist[n].range) == Bipolar(chanlist[n - 1].range))
    ensures Obeys(PairSharesRange, chanlist, n + 1) <==>
      Obeys(PairSharesRange, chanlist, n)
      && !(n > 0 && chanlist[n].aref != Diff && SamePair(chanlist[n], chanlist[n - 1])
           && chanlist[n].range != chanlist[n - 1].range)
    ensures Obeys(DiffInRange, chanlist, n + 1) <==>
      Obeys(DiffInRange, chanlist, n) && (chanlist[n].aref == Diff ==> chanlist[n].chan < 8)
  {
  }

  /** The part of the turn that follows the ascending prefix and its repeats. */
  method CheckSequence(chanlist: seq<ChanSpec>, n: nat, before: bool, subseqBefore: nat)
    returns (seqErr: bool, subseqLen: nat)
    requires n < |chanlist| && subseqBefore == FirstDescent(chanlist, n)
    requires !before <==> RepeatsSoFar(chanlist, subseqBefore, n)
    ensures subseqLen == FirstDescent(chanlist, n + 1)
    ensures !seqErr <==> RepeatsSoFar(chanlist, subseqLen, n + 1)
  {
    hide EntryRepeats, RepeatsSoFar;
    seqErr, subseqLen := before, subseqBefore;
    NothingRepeats(chanlist);
    if n > 0 {
      if chanlist[n].chan <= chanlist[n - 1].chan && subseqLen == 0 {
        subseqLen := n;
      }
      RepeatsOneMore(chanlist, subseqBefore, subseqLen, n);
      if subseqLen > 0 && chanlist[n] != chanlist[n % subseqLen] {
        seqErr := true;
      }
    }
  }

  lemma NothingRepeats(chanlist: seq<ChanSpec>)
    ensures RepeatsSoFar(chanlist, 0, 0)
    ensures |chanlist| > 0 ==> RepeatsSoFar(chanlist, 0, 1)
  {
  }

  lemma RepeatsOneMore(chanlist: seq<ChanSpec>, d: nat, d': nat, n: nat)
    requires 0 < n < |chanlist| && (d < n || d == 0) && d' == (if d == 0 then d' else d) && (d' <= n)
    requires d == 0 ==> d' == 0 || d' == n
    ensures RepeatsSoFar(chanlist, d', n + 1) <==>
      RepeatsSoFar(chanlist, d, n) && (d' > 0 ==> chanlist[n] == chanlist[n % d'])
  {
    if RepeatsSoFar(chanlist, d', n + 1) {
      assert EntryRepeats(chanlist, d', n);
      forall i | d <= i < n ensures EntryRepeats(chanlist, d, i) {
        if d > 0 { assert EntryRepeats(chanlist, d', i); }
      }
    }
  }

  lemma PairRanges(chanlist: seq<ChanSpec>)
    ensures Obeys(PairSharesRange, chanlist, |chanlist|) <==> forall i | 0 < i < |chanlist| ::
      chanlist[i].aref != Diff && chanlist[i].chan / 2 == chanlist[i - 1].chan / 2 ==>
        chanlist[i].range == chanlist[i - 1].range
  {
    ObeysEverywhere(PairSharesRange, chanlist, |chanlist|);
    forall i | 0 <= i < |chanlist|
      ensures RuleAt(PairSharesRange, chanlist, i) <==>
        (i > 0 && chanlist[i].aref != Diff && chanlist[i].chan / 2 == chanlist[i - 1].chan / 2 ==>
           chanlist[i].range == chanlist[i - 1].range)
    {
    }
  }

  lemma DiffChannels(chanlist: seq<ChanSpec>)
    ensures Obeys(DiffInRange, chanlist, |chanlist|) <==>
      forall i | 0 <= i < |chanlist| :: chanlist[i].aref == Diff ==> chanlist[i].chan < 8
  {
    ObeysEverywhere(DiffInRange, chanlist, |chanlist|);
    forall i | 0 <= i < |chanlist|
      ensures RuleAt(DiffInRange, chanlist, i) <==> (chanlist[i].aref == Diff ==> chanlist[i].chan < 8)
    {
    }
  }

  // ---------------------------------------------------------------- the sequence rule

  lemma {:induction false} AdjacentAscends(chanlist: seq<ChanSpec>, len: nat)
    requires len <= |chanlist|
    requires forall i | 0 < i < len :: chanlist[i - 1].chan < chanlist[i].chan
    ensures Ascends(chanlist, len)
  {
    if len > 0 {
      AdjacentAscends(chanlist, len - 1);
      if len > 1 {
        assert chanlist[len - 2].chan < chanlist[len - 1].chan;
      }
    }
  }

  lemma SmallMod(i: nat, n: nat)
    requires i < n
    ensures i % n == i && n % n == 0
  {
  }

  /** No sequence error is raised exactly for whole repeats of an ascending prefix. */
  lemma RegularIffNoError(chanlist: seq<ChanSpec>, d: nat)
    requires |chanlist| > 0 && d == FirstDescent(chanlist, |chanlist|)
    ensures Regular(chanlist) <==>
      RepeatsSoFar(chanlist, d, |chanlist|) && (d > 0 ==> |chanlist| % d == 0)
  {
    var len := if d == 0 then |chanlist| else d;
    if RepeatsSoFar(chanlist, d, |chanlist|) && (d > 0 ==> |chanlist| % d == 0) {
      AdjacentAscends(chanlist, len);
      RepeatsFromDescent(chanlist, d, len);
      SmallMod(0, |chanlist|);
      assert WholeRepeats(chanlist, len);
    }
    if Regular(chanlist) {
      var l: nat :| WholeRepeats(chanlist, l);
      DescentIsPeriod(chanlist, l, d);
      assert RepeatsSoFar(chanlist, d, |chanlist|);
    }
  }

  lemma RepeatsFromDescent(chanlist: seq<ChanSpec>, d: nat, len: nat)
    requires |chanlist| > 0 && d < |chanlist| && len == (if d == 0 then |chanlist| else d)
    requires RepeatsSoFar(chanlist, d, |chanlist|)
    ensures Repeats(chanlist, len)
  {
    forall i: nat | i < |chanlist| ensures i % len < |chanlist| && chanlist[i] == chanlist[i % len] {
      if i < len {
        SmallMod(i, len);
      } else {
        assert EntryRepeats(chanlist, d, i);
      }
    }
  }

  /** In a regular list the first descent is where the prefix starts over. */
  lemma DescentIsPeriod(chanlist: seq<ChanSpec>, l: nat, d: nat)
    requires |chanlist| > 0 && WholeRepeats(chanlist, l) && d == FirstDescent(chanlist, |chanlist|)
    ensures d == if l == |chanlist| then 0 else l
  {
    if d > 0 && d < l {
      assert false;
    }
    if l < |chanlist| {
      SmallMod(0, l);
      assert chanlist[l] == chanlist[l % l];
      assert chanlist[l].chan <= chanlist[l - 1].chan;
    }
  }

  // ---------------------------------------------------------------- gains

  /** A list cmdtest raised no sequence, pair, reference or differential error for. */
  ghost predicate AcceptedList(chanlist: seq<ChanSpec>) {
    && |chanlist| > 0 && Specs(chanlist) && Regular(chanlist)
    && (forall i | 0 <= i < |chanlist| :: RuleAt(PairSharesRange, chanlist, i))
    && (forall i | 0 <= i < |chanlist| :: chanlist[i].aref == chanlist[0].aref)
    && (forall i | 0 <= i < |chanlist| :: chanlist[i].aref == Diff ==> chanlist[i].chan < 8)
  }

  /** The two-bit field of the gain register that serves an entry. */
  function Field(diff: bool, c: ChanSpec): nat {
    if diff then c.chan else c.chan / 2
  }

  /** The neighbour-only check suffices: entries that use the same gain field ask for the same
      range, wherever they stand in the list. */
  lemma SameFieldSameRange(chanlist: seq<ChanSpec>, i: nat, j: nat)
    requires AcceptedList(chanlist) && i < |chanlist| && j < |chanlist|
    requires var diff := chanlist[0].aref == Diff; Field(diff, chanlist[i]) == Field(diff, chanlist[j])
    ensures chanlist[i].range == chanlist[j].range
  {
    var l: nat :| WholeRepeats(chanlist, l);
    var a, b := i % l, j % l;
    assert chanlist[i] == chanlist[a] && chanlist[j] == chanlist[b];
    if a < b {
      PrefixPair(chanlist, l, a, b);
    } else if b < a {
      PrefixPair(chanlist, l, b, a);
    }
  }

  /** Within the ascending prefix only neighbours can share a field, and only single-ended. */
  lemma PrefixPair(chanlist: seq<ChanSpec>, l: nat, a: nat, b: nat)
    requires AcceptedList(chanlist) && l <= |chanlist| && Ascends(chanlist, l) && a < b < l
    requires var diff := chanlist[0].aref == Diff; Field(diff, chanlist[a]) == Field(diff, chanlist[b])
    ensures chanlist[a].range == chanlist[b].range
  {
    assert chanlist[a].chan < chanlist[b].chan;
    if a + 1 < b {
      FarApart(chanlist, l, a, b);
    }
    assert chanlist[b].aref == chanlist[0].aref;
    assert RuleAt(PairSharesRange, chanlist, b);
  }

  lemma FarApart(chanlist: seq<ChanSpec>, l: nat, a: nat, b: nat)
    requires l <= |chanlist| && Ascends(chanlist, l) && a + 1 < b < l
    ensures chanlist[a].chan + 2 <= chanlist[b].chan
  {
    assert chanlist[a].chan < chanlist[a + 1].chan;
  }

  /** The span of a range in quarter volts: 10 V, 5 V, 2.5 V and 1.25 V to either side, then from 0 V up
      to 10 V, 5 V and 2.5 V. */
  function Span(range: nat): nat
    requires range < 7
  {
    [80, 40, 20, 10, 40, 20, 10][range]
  }

  /** Each step of gain halves the span the converter sees, and no two ranges share polarity and gain,
      so that the settings made are those of one range. */
  lemma GainFitsRange(r: nat, q: nat)
    requires r < 7 && q < 7
    ensures Span(r) * [1, 2, 4, 8][Gain(r)] == 80
    ensures Bipolar(r) == Bipolar(q) && Gain(r) == Gain(q) ==> r == q
  {
  }

  /** Input `b` belongs to an entry. The original boards want both inputs of a differential channel. */
  predicate IsInput(diff: bool, hwver: nat, c: ChanSpec, b: nat) {
    if diff then b == 2 * c.chan || (hwver == 0 && b == 2 * c.chan + 1) else b == c.chan
  }

  lemma InputsAre(diff: bool, hwver: nat, c: ChanSpec)
    ensures var bits: set<nat> :=
        if !diff then {c.chan} else if hwver == 0 then {2 * c.chan, 2 * c.chan + 1} else {2 * c.chan};
      forall b :: b in bits <==> IsInput(diff, hwver, c, b)
  {
  }

  /** pci230_ai_cmd, the gain loop on the gain register's eight two-bit fields: although the last
      writer wins, every entry ends up with the gain of the range it asked for, and fields no
      entry uses keep their setting. The inputs enabled are those of the entries. */
  method SetGains(chanlist: seq<ChanSpec>, hwver: nat, before: seq<nat>) returns (adcg: seq<nat>, adcen: set<nat>)
    requires AcceptedList(chanlist) && |before| == 8
    ensures |adcg| == 8
    ensures forall i | 0 <= i < |chanlist| ::
      var f := Field(chanlist[0].aref == Diff, chanlist[i]); f < 8 && adcg[f] == Gain(chanlist[i].range)
    ensures forall f | 0 <= f < 8 ::
      (forall i | 0 <= i < |chanlist| :: Field(chanlist[0].aref == Diff, chanlist[i]) != f) ==> adcg[f] == before[f]
    ensures forall b :: b in adcen <==>
      exists i :: 0 <= i < |chanlist| && IsInput(chanlist[0].aref == Diff, hwver, chanlist[i], b)
  {
    hide Gain, IsInput;
    var diff := chanlist[0].aref == Diff;
    adcg, adcen := before, {};
    for i := 0 to |chanlist|
      invariant forall b :: b in adcen <==> exists k :: 0 <= k < i && IsInput(diff, hwver, chanlist[k], b)
      invariant |adcg| == 8
      invariant forall k | 0 <= k < i ::
        Field(diff, chanlist[k]) < 8 && adcg[Field(diff, chanlist[k])] == Gain(chanlist[k].range)
      invariant forall f | 0 <= f < 8 ::
        (forall k | 0 <= k < i :: Field(diff, chanlist[k]) != f) ==> adcg[f] == before[f]
    {
      var chan := chanlist[i].chan;
      InputsAre(diff, hwver, chanlist[i]);
      adcen := adcen + if !diff then {chan} else if hwver == 0 then {2 * chan, 2 * chan + 1} else {2 * chan};
      forall k | 0 <= k < i && Field(diff, chanlist[k]) == Field(diff, chanlist[i])
        ensures chanlist[k].range == chanlist[i].range
      {
        SameFieldSameRange(chanlist, k, i);
      }
      var f := if diff then chanlist[i].chan else chanlist[i].chan / 2;
      adcg := adcg[f := Gain(chanlist[i].range)];
    }
  }
}
