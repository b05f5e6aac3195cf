/** The timer arithmetic of comedi/drivers/8253.h, in 32-bit words. */
module Cascade {
  import opened Word32
  import opened Divisors

  /** Marks an `unsigned int` result that is exact: Dafny checks that it fits the word. */
  function Exact(x: int): u32
    requires 0 <= x < TWO_32
  {
    x
  }

  /** The best divisor pairs found so far, below and above the wanted period. */
  datatype Best = Best(glb1: u32, glb2: u32, nsGlb: u32, lub1: u32, lub2: u32, nsLub: u32)

  /** What has been found is right: a usable pair, or the initial value. */
  ghost predicate Sound(base: u32, ns: u32, s: Best) {
    && (s.nsGlb == 0 ||
        (Divisor(s.glb1) && Divisor(s.glb2) && s.nsGlb == base * Prod(s.glb1, s.glb2) <= ns))
    && (if s.nsLub == UINT_MAX then s.lub1 == s.lub2 == 0
        else Divisor(s.lub1) && Divisor(s.lub2) && s.nsLub == base * Prod(s.lub1, s.lub2) >= ns)
  }

  /** The pair (a, b) can no longer improve on `s`. */
  ghost predicate Beaten(base: u32, ns: u32, s: Best, a: nat, b: nat) {
    && (base * Prod(a, b) <= ns ==> base * Prod(a, b) <= s.nsGlb)
    && (ns <= base * Prod(a, b) ==> s.nsLub <= base * Prod(a, b) || base * Prod(a, b) >= UINT_MAX)
  }

  /** Every pair with first divisor `a` is beaten; below the period only when the row is reachable
      at all, its first second divisor being at most 65536. */
  ghost predicate RowDone(base: u32, ns: u32, s: Best, a: nat)
    requires base > 0 && a > 0
  {
    forall b: nat | Divisor(b) ::
      && (ns / base / a <= MAX_COUNT ==> (base * Prod(a, b) <= ns ==> base * Prod(a, b) <= s.nsGlb))
      && (ns <= base * Prod(a, b) ==> s.nsLub <= base * Prod(a, b) || base * Prod(a, b) >= UINT_MAX)
  }

  ghost predicate NoWorse(s: Best, t: Best) {
    t.nsGlb >= s.nsGlb && t.nsLub <= s.nsLub
  }

  /** The two comparisons of the inner loop. */
  method Consider(base: u32, ns: u32, div1: u32, div2: u32, s: Best) returns (t: Best)
    requires InRange(base, ns) && Sound(base, ns, s)
    requires Divisor(div1) && Divisor(div2)
    requires base * Prod(div1, div2) < TWO_32 || base * Prod(div1, div2) - TWO_32 < s.nsGlb
    requires base * Prod(div1, div2) < 2 * TWO_32
    ensures Sound(base, ns, t) && NoWorse(s, t)
    ensures Beaten(base, ns, t, div1, div2)
  {
    hide Prod, Wrap;
    var p := base * Prod(div1, div2);
    OneWrap(p);
    var product := Wrap(p);
    t := s;
    if product <= ns && product > t.nsGlb {
      t := t.(nsGlb := product, glb1 := div1, glb2 := div2);
    }
    if product >= ns && product < t.nsLub {
      t := t.(nsLub := product, lub1 := div1, lub2 := div2);
    }
  }

  lemma OneWrap(p: nat)
    requires p < 2 * TWO_32
    ensures Wrap(p) == if p < TWO_32 then p else p - TWO_32
  {
  }

  /** The quotient of a row: its second divisors just below and just above the target. */
  lemma RowQuotient(q: nat, div1: nat)
    requires q >= 4 && 2 <= div1 <= q / div1 + 1
    ensures q / div1 >= 2
    ensures Prod(div1, q / div1) <= q < Prod(div1, q / div1) + div1 == Prod(div1, q / div1 + 1)
  {
    var k := q / div1;
    assert q == div1 * k + q % div1;
    assert div1 * (k + 1) == div1 * k + div1;
    if k < 2 {
      assert false;
    }
  }

  lemma ProdMonotone(a: nat, b: nat, b': nat)
    requires b <= b'
    ensures Prod(a, b) <= Prod(a, b')
    ensures b < b' ==> Prod(a, b) + a <= Prod(a, b')
  {
    if a > 0 { MulLess(a, b, b'); }
  }

  lemma Doubled(a: nat)
    ensures Prod(a, 2) == 2 * a
  {
  }

  lemma Distribute(base: nat, a: nat, b: nat)
    ensures base * (a + b) == base * a + base * b
  {
  }

  lemma ProdCommutes(a: nat, b: nat)
    ensures Prod(a, b) == Prod(b, a)
  {
  }

  /** Products in the scanned part of a row: any wrap lands below the row's own lower candidate. */
  lemma RowProduct(base: u32, ns: u32, div1: nat, p: nat)
    requires InRange(base, ns)
    requires 2 <= div1 <= ns / base / div1 + 1
    requires p <= ns / base + div1 + 1
    ensures base * p < 2 * TWO_32
    ensures base * p - TWO_32 < base * Prod(div1, ns / base / div1)
  {
    hide Prod;
    var q := ns / base;
    QuotientAtLeast(ns, base, 4);
    RowQuotient(q, div1);
    var low := Prod(div1, q / div1);
    ProdMonotone(div1, 2, q / div1);
    Doubled(div1);
    CeilBound(ns, base);
    MulLess(base, p, q + low);
    MulLess(base, low, q);
    Distribute(base, q, low);
  }

  /** The inner loop: second divisors from the quotient of the row upwards. */
  method ScanRow(base: u32, ns: u32, divider: u32, div1: u32, s: Best) returns (t: Best)
    requires InRange(base, ns) && Sound(base, ns, s) && divider == ns / base
    requires Divisor(div1) && div1 <= divider / div1 + 1
    ensures Sound(base, ns, t) && NoWorse(s, t)
    ensures RowDone(base, ns, t, div1)
  {
    hide Prod, Sound, Beaten, RowDone;
    QuotientAtLeast(ns, base, 4);
    CeilBound(ns, base);
    RowQuotient(divider, div1);
    ghost var k := divider / div1;
    t := s;
    var div2 := divider / div1;
    while Exact(Prod(div1, div2)) <= Exact(divider + div1 + 1) && div2 <= MAX_COUNT
      invariant k <= div2
      invariant Sound(base, ns, t) && NoWorse(s, t)
      invariant forall b | k <= b < div2 :: Beaten(base, ns, t, div1, b)
      invariant Prod(div1, div2) <= divider + 2 * div1 + 1
      invariant div2 > k ==> k <= MAX_COUNT
      decreases MAX_COUNT + 1 - div2
    {
      RowProduct(base, ns, div1, Prod(div1, div2));
      if div2 > k { LowFound(base, ns, t, div1, k); }
      else { CompareProduct(ns, base, Prod(div1, k)); }
      ghost var before := t;
      t := Consider(base, ns, div1, div2, t);
      StillBeaten(base, ns, before, t, div1, k, div2);
      ProdMonotone(div1, div2, div2 + 1);
      assert Prod(div1, div2 + 1) == Prod(div1, div2) + div1 by { ProdStep(div1, div2); }
      div2 := div2 + 1;
    }
    RowFinished(base, ns, t, div1, div2);
  }

  lemma ProdStep(a: nat, b: nat)
    ensures Prod(a, b + 1) == Prod(a, b) + a
  {
  }

  lemma LowFound(base: u32, ns: u32, t: Best, div1: nat, k: nat)
    requires base >= 2 && Prod(div1, k) <= ns / base
    requires Beaten(base, ns, t, div1, k)
    ensures base * Prod(div1, k) <= t.nsGlb
  {
    CompareProduct(ns, base, Prod(div1, k));
  }

  lemma StillBeaten(base: u32, ns: u32, s: Best, t: Best, a: nat, low: nat, high: nat)
    requires NoWorse(s, t) && Beaten(base, ns, t, a, high)
    requires forall b | low <= b < high :: Beaten(base, ns, s, a, b)
    ensures forall b | low <= b < high + 1 :: Beaten(base, ns, t, a, b)
  {
    hide Prod;
    forall b | low <= b < high + 1 ensures Beaten(base, ns, t, a, b) {
      if b < high {
        assert Beaten(base, ns, s, a, b);
      }
    }
  }

  /** Once the inner loop stops, nothing in the row can improve on what was found. */
  lemma RowFinished(base: u32, ns: u32, t: Best, div1: u32, div2: nat)
    requires InRange(base, ns)
    requires Divisor(div1) && div1 <= ns / base / div1 + 1
    requires var k := ns / base / div1;
      k <= div2 && (forall b | k <= b < div2 :: Beaten(base, ns, t, div1, b))
    requires Prod(div1, div2) > ns / base + div1 + 1 || div2 > MAX_COUNT
    ensures RowDone(base, ns, t, div1)
  {
    hide Prod, Beaten;
    forall b: nat | Divisor(b)
      ensures ns / base / div1 <= MAX_COUNT ==> (base * Prod(div1, b) <= ns ==> base * Prod(div1, b) <= t.nsGlb)
      ensures ns <= base * Prod(div1, b) ==> t.nsLub <= base * Prod(div1, b) || base * Prod(div1, b) >= UINT_MAX
    {
      PairDone(base, ns, t, div1, div2, b);
    }
  }

  lemma PairDone(base: u32, ns: u32, t: Best, div1: u32, div2: nat, b: nat)
    requires InRange(base, ns)
    requires Divisor(div1) && div1 <= ns / base / div1 + 1 && Divisor(b)
    requires var k := ns / base / div1;
      k <= div2 && (forall b | k <= b < div2 :: Beaten(base, ns, t, div1, b))
    requires Prod(div1, div2) > ns / base + div1 + 1 || div2 > MAX_COUNT
    ensures ns / base / div1 <= MAX_COUNT ==> (base * Prod(div1, b) <= ns ==> base * Prod(div1, b) <= t.nsGlb)
    ensures ns <= base * Prod(div1, b) ==> t.nsLub <= base * Prod(div1, b) || base * Prod(div1, b) >= UINT_MAX
  {
    hide Prod;
    var q := ns / base;
    var k := q / div1;
    var p := Prod(div1, b);
    QuotientAtLeast(ns, base, 4);
    RowQuotient(q, div1);
    CeilBound(ns, base);
    CompareProduct(ns, base, p);
    if k <= b < div2 {
      assert Beaten(base, ns, t, div1, b);
    } else if b < k {
      ProdMonotone(div1, b, k);
      MulLess(base, p, Prod(div1, k));
      if k <= MAX_COUNT {
        KeptBelow(ns, base, div1, k, div2);
        assert Beaten(base, ns, t, div1, k);
        CompareProduct(ns, base, Prod(div1, k));
      }
    } else {
      ProdMonotone(div1, div2, b);
      ProdMonotone(div1, k + 1, b);
      KeptBelow(ns, base, div1, k + 1, div2);
      assert Beaten(base, ns, t, div1, k + 1);
      CompareProduct(ns, base, Prod(div1, k + 1));
      MulLess(base, Prod(div1, k + 1), p);
    }
  }

  /** The inner loop does not stop before the two candidates next to the quotient. */
  lemma KeptBelow(ns: u32, base: nat, div1: nat, b: nat, div2: nat)
    requires base >= 2 && b <= MAX_COUNT
    requires Prod(div1, b) <= ns / base + div1 + 1
    requires Prod(div1, div2) > ns / base + div1 + 1 || div2 > MAX_COUNT
    ensures b < div2
  {
    if div2 <= b {
      ProdMonotone(div1, div2, b);
    }
  }

  // ---------------------------------------------------------------- the outer loop

  function Start(divider: nat): nat {
    if divider / MAX_COUNT < 2 then 2 else divider / MAX_COUNT
  }

  predicate InLoop(divider: nat, div1: nat)
    requires div1 > 0
  {
    div1 <= divider / div1 + 1 && div1 <= MAX_COUNT
  }

  /** The outer loop: first divisors from divider / 65536 up to about its square root. */
  method Search(base: u32, ns: u32) returns (s: Best)
    requires InRange(base, ns)
    ensures Sound(base, ns, s)
    ensures s.nsGlb == Low(base, ns)
    ensures s.nsLub == if High(base, ns) < UINT_MAX then High(base, ns) else UINT_MAX
  {
    hide Prod, RowDone, Sound;
    var divider := ns / base;
    QuotientAtLeast(ns, base, 4);
    CeilBound(ns, base);
    s := Best(0, 0, 0, 0, 0, UINT_MAX);
    assert Sound(base, ns, s) by { NothingFound(base, ns); }
    var start := divider / MAX_COUNT;
    if start < 2 {
      start := 2;
    }
    var div1 := start;
    while div1 <= divider / div1 + 1 && div1 <= MAX_COUNT
      invariant start <= div1
      invariant Sound(base, ns, s)
      invariant forall a | start <= a < div1 :: RowDone(base, ns, s, a)
      decreases MAX_COUNT + 1 - div1
    {
      ghost var before := s;
      s := ScanRow(base, ns, divider, div1, s);
      RowsStillDone(base, ns, before, s, start, div1);
      div1 := div1 + 1;
    }
    GreatestFound(base, ns, s, div1);
    LeastFound(base, ns, s, div1);
  }

  lemma NothingFound(base: u32, ns: u32)
    ensures Sound(base, ns, Best(0, 0, 0, 0, 0, UINT_MAX))
  {
  }

  lemma RowsStillDone(base: u32, ns: u32, s: Best, t: Best, start: nat, div1: nat)
    requires base > 0 && 2 <= start <= div1 && NoWorse(s, t) && RowDone(base, ns, t, div1)
    requires forall a | start <= a < div1 :: RowDone(base, ns, s, a)
    ensures forall a | start <= a < div1 + 1 :: RowDone(base, ns, t, a)
  {
    hide Prod;
    forall a | start <= a < div1 + 1 ensures RowDone(base, ns, t, a) {
      if a < div1 {
        assert RowDone(base, ns, s, a);
      }
    }
  }

  /** State of the search when the outer loop has stopped at `end`. */
  ghost predicate Finished(base: u32, ns: u32, s: Best, end: nat) {
    && InRange(base, ns) && Sound(base, ns, s)
    && 2 <= Start(ns / base) <= end && !InLoop(ns / base, end)
    && forall a | Start(ns / base) <= a < end :: RowDone(base, ns, s, a)
  }

  /** The first row is always scanned. */
  lemma FirstRow(q: nat, end: nat)
    requires 4 <= q <= TWO_31 && Start(q) <= end && !InLoop(q, end)
    ensures Start(q) < end && Start(q) <= 0x8000
    ensures q / MAX_COUNT >= 2 ==> q >= Prod(Start(q), MAX_COUNT)
    ensures q < Prod(Start(q) + 1, MAX_COUNT)
  {
    var start := Start(q);
    assert start * start <= q by {
      if start > 2 { MulLess(start, start, 0x8000); }
    }
    QuotientAtLeast(q, start, start);
  }

  /** The second row is scanned when the first has no second divisor within range; it then holds a
      candidate at least as good as anything the first row could have had. */
  lemma SecondRow(q: nat, end: nat)
    requires 4 <= q <= TWO_31 && Start(q) <= end && !InLoop(q, end)
    requires q / Start(q) > MAX_COUNT
    ensures Start(q) + 1 < end && 2 <= q / (Start(q) + 1) <= MAX_COUNT
    ensures Prod(Start(q), MAX_COUNT) <= Prod(Start(q) + 1, q / (Start(q) + 1)) <= q
  {
    FirstRow(q, end);
    var start := Start(q);
    var r := start + 1;
    var k := q / r;
    assert q == start * (q / start) + q % start;
    MulLess(start, MAX_COUNT + 1, q / start);
    assert q == r * k + q % r;
    QuotientAtLeast(q, r, 0x8000) by { MulLess(0x8000, r, 2 * start); }
    NarrowRow(q, r);
  }

  lemma {:induction false} GreatestFound(base: u32, ns: u32, s: Best, end: nat)
    requires Finished(base, ns, s, end)
    ensures s.nsGlb == Low(base, ns)
  {
    hide Prod, RowDone, InLoop, Start;
    var q := ns / base;
    QuotientAtLeast(ns, base, 4);
    var g := Greatest(q);
    CompareProduct(ns, base, g);
    GreatestCovered(base, ns, s, end, g);
    FoundIsReachable(base, ns, s, q, g);
  }

  lemma FoundIsReachable(base: u32, ns: u32, s: Best, q: nat, g: nat)
    requires base >= 2 && Sound(base, ns, s) && q == ns / base >= 4 && IsGreatest(q, g)
    ensures s.nsGlb <= base * g
  {
    hide Prod;
    if s.nsGlb > 0 {
      var p := Prod(s.glb1, s.glb2);
      assert Reachable(p);
      CompareProduct(ns, base, p);
      MulLess(base, p, g);
    }
  }

  lemma GreatestCovered(base: u32, ns: u32, s: Best, end: nat, g: nat)
    requires Finished(base, ns, s, end) && Reachable(g) && g <= ns / base
    ensures base * g <= s.nsGlb
  {
    hide RowDone, InLoop, Start;
    var a: nat, b: nat :| Divisor(a) && Divisor(b) && Prod(a, b) == g;
    if a <= b { LowerCovered(base, ns, s, end, a, b); }
    else { ProdCommutes(a, b); LowerCovered(base, ns, s, end, b, a); }
  }

  lemma LowerCovered(base: u32, ns: u32, s: Best, end: nat, a: nat, b: nat)
    requires Finished(base, ns, s, end)
    requires Divisor(a) && Divisor(b) && a <= b && Prod(a, b) <= ns / base
    ensures base * Prod(a, b) <= s.nsGlb
  {
    hide Prod;
    var q := ns / base;
    var start := Start(q);
    QuotientAtLeast(ns, base, 4);
    CeilBound(ns, base);
    FirstRow(q, end);
    BelowSquareRoot(q, end, a, b);
    CompareProduct(ns, base, Prod(a, b));
    if start <= a && q / a <= MAX_COUNT {
      assert RowDone(base, ns, s, a);
    } else {
      var r := if q / start <= MAX_COUNT then start else start + 1;
      EdgeRow(q, end, a, b, r);
      assert RowDone(base, ns, s, r);
      CompareProduct(ns, base, Prod(r, q / r));
      MulLess(base, Prod(a, b), Prod(r, q / r));
    }
  }

  /** Pairs the scan does not visit on the lower side are no better than one it does visit. */
  lemma EdgeRow(q: nat, end: nat, a: nat, b: nat, r: nat)
    requires 4 <= q <= TWO_31 && Start(q) <= end && !InLoop(q, end)
    requires Divisor(a) && Divisor(b) && Prod(a, b) <= q
    requires a < Start(q) || q / a > MAX_COUNT
    requires r == if q / Start(q) <= MAX_COUNT then Start(q) else Start(q) + 1
    ensures Start(q) <= r < end && Divisor(q / r) && q / r <= MAX_COUNT
    ensures Prod(a, b) <= Prod(r, q / r) <= q
  {
    var start := Start(q);
    FirstRow(q, end);
    ProdMonotone(a, b, MAX_COUNT);
    if a > start {
      NarrowRow(q, a);
      assert false;
    }
    MulLess(MAX_COUNT, a, start);
    if q / start > MAX_COUNT {
      SecondRow(q, end);
    } else {
      FullFirstRow(q, start);
    }
  }

  lemma NarrowRow(q: nat, a: nat)
    requires q < Prod(a, MAX_COUNT) && a > 0
    ensures q / a < MAX_COUNT
  {
    if q / a >= MAX_COUNT { MulLess(a, MAX_COUNT, q / a); }
  }

  lemma FullFirstRow(q: nat, start: nat)
    requires 2 <= start && Prod(start, MAX_COUNT) <= q && q / start <= MAX_COUNT
    ensures q / start == MAX_COUNT
  {
    QuotientAtLeast(q, start, MAX_COUNT);
  }

  lemma BelowSquareRoot(q: nat, end: nat, a: nat, b: nat)
    requires 0 < end && !InLoop(q, end) && Divisor(a) && a <= b && Prod(a, b) <= q
    ensures a < end
  {
    if end <= a {
      var k := q / end;
      assert q < end * (k + 1);
      MulLess(end, k + 1, end);
      MulLess(end, end, b);
      MulLess(b, end, a);
      assert false;
    }
  }

  lemma {:induction false} LeastFound(base: u32, ns: u32, s: Best, end: nat)
    requires Finished(base, ns, s, end)
    ensures s.nsLub == if High(base, ns) < UINT_MAX then High(base, ns) else UINT_MAX
  {
    hide Prod, RowDone, InLoop, Start;
    CeilBound(ns, base);
    var l := Least(CeilDiv(ns, base));
    if High(base, ns) < UINT_MAX {
      LeastCovered(base, ns, s, end, l);
    }
    if s.nsLub != UINT_MAX {
      var p := Prod(s.lub1, s.lub2);
      assert Reachable(p);
      CompareProduct(ns, base, p);
      MulLess(base, l, p);
    }
  }

  lemma LeastCovered(base: u32, ns: u32, s: Best, end: nat, l: nat)
    requires Finished(base, ns, s, end) && Reachable(l) && l >= CeilDiv(ns, base)
    requires base * l < UINT_MAX
    ensures s.nsLub <= base * l
  {
    hide RowDone, InLoop, Start;
    var a: nat, b: nat :| Divisor(a) && Divisor(b) && Prod(a, b) == l;
    if a <= b { UpperCovered(base, ns, s, end, a, b); }
    else { ProdCommutes(a, b); UpperCovered(base, ns, s, end, b, a); }
  }

  lemma UpperCovered(base: u32, ns: u32, s: Best, end: nat, a: nat, b: nat)
    requires Finished(base, ns, s, end)
    requires Divisor(a) && Divisor(b) && a <= b && Prod(a, b) >= CeilDiv(ns, base)
    requires base * Prod(a, b) < UINT_MAX
    ensures s.nsLub <= base * Prod(a, b)
  {
    hide Prod;
    var q := ns / base;
    QuotientAtLeast(ns, base, 4);
    CeilBound(ns, base);
    FirstRow(q, end);
    CompareProduct(ns, base, Prod(a, b));
    if a < Start(q) {
      BelowFirstRow(q, end, a, b);
    } else if a < end {
      assert RowDone(base, ns, s, a);
    } else {
      AboveLastRow(q, end, a, b);
      CompareProduct(ns, base, Prod(end - 1, end));
      MulLess(base, Prod(end - 1, end), Prod(a, b));
      assert RowDone(base, ns, s, end - 1);
    }
  }

  lemma BelowFirstRow(q: nat, end: nat, a: nat, b: nat)
    requires 4 <= q <= TWO_31 && Start(q) <= end && !InLoop(q, end)
    requires Divisor(a) && Divisor(b) && a < Start(q)
    ensures Prod(a, b) < q
  {
    FirstRow(q, end);
    MulLess(a, b, MAX_COUNT);
    MulLess(MAX_COUNT, a, Start(q));
  }

  /** Past the square root the last scanned row already reaches a product as small. */
  lemma AboveLastRow(q: nat, end: nat, a: nat, b: nat)
    requires 2 < end <= a <= b <= MAX_COUNT && !InLoop(q, end)
    ensures q + 1 <= Prod(end - 1, end) <= Prod(a, b)
  {
    var k := q / end;
    assert q < end * (k + 1);
    MulLess(end, k + 1, end - 1);
    assert Prod(end - 1, end) == end * (end - 1);
    MulLess(end, end - 1, b);
    MulLess(b, end, a);
    assert end * b == b * end && b * a == a * b;
  }

  // ---------------------------------------------------------------- the timer call

  /** A 16-bit count register: 0 means 65536. */
  function Decode(d: u32): u32 {
    if d != 0 then d else MAX_COUNT
  }

  function Mask(d: u32): u32 {
    d % MAX_COUNT
  }

  /** Divisors a caller may pass in: cleared, or left by an earlier call with the same base. */
  predicate CachedOk(base: u32, d1: u32, d2: u32) {
    && d1 < MAX_COUNT && d2 < MAX_COUNT
    && (d1 == d2 == 0 ||
        (Divisor(Decode(d1)) && Divisor(Decode(d2)) && base * Prod(Decode(d1), Decode(d2)) < TWO_32))
  }

  /** The early-exit test, overflow checks included. */
  predicate AlreadyRight(base: u32, d1: u32, d2: u32, ns: u32) {
    var div1, div2 := Decode(d1), Decode(d2);
    var divider := Wrap(Prod(div1, div2));
    && Wrap(divider * base) == ns
    && div1 > 1 && div1 <= MAX_COUNT
    && div2 > 1 && div2 <= MAX_COUNT
    && divider > div1 && divider > div2
    && Wrap(divider * base) > divider
    && Wrap(divider * base) > base
  }

  /** The divisors encode `period`, or are cleared when there is none. */
  ghost predicate Encodes(base: u32, e1: u32, e2: u32, period: nat) {
    && e1 < MAX_COUNT && e2 < MAX_COUNT
    && (if period == 0 then e1 == e2 == 0
        else Divisor(Decode(e1)) && Divisor(Decode(e2)) && base * Prod(Decode(e1), Decode(e2)) == period)
  }

  /** i8253_cascade_ns_to_timer_2div */
  method NsToTimer2Div(base: u32, d1: u32, d2: u32, ns: u32, mode: RoundMode)
    returns (e1: u32, e2: u32, period: u32)
    requires InRange(base, ns) && CachedOk(base, d1, d2)
    ensures period == if AlreadyRight(base, d1, d2, ns) then ns else Period(base, ns, mode)
    ensures Encodes(base, e1, e2, period) && CachedOk(base, e1, e2)
  {
    hide Prod, Wrap, Decode;
    if AlreadyRight(base, d1, d2, ns) {
      EarlyExitTest(base, d1, d2, ns);
      return d1, d2, ns;
    }
    var s := Search(base, ns);
    var div1, div2 := Choose(base, ns, mode, s);
    MaskedPair(base, div1, div2);
    e1, e2, period := Mask(div1), Mask(div2), Wrap(base * Prod(div1, div2));
  }

  /** The final switch on the rounding mode. */
  method Choose(base: u32, ns: u32, mode: RoundMode, s: Best) returns (div1: u32, div2: u32)
    requires InRange(base, ns) && Sound(base, ns, s)
    requires s.nsGlb == Low(base, ns)
    requires s.nsLub == if High(base, ns) < UINT_MAX then High(base, ns) else UINT_MAX
    ensures (Divisor(div1) && Divisor(div2)) || div1 == div2 == 0
    ensures base * Prod(div1, div2) == Period(base, ns, mode) < TWO_32
  {
    hide Prod, Wrap;
    LowIsPositive(base, ns);
    UnitProduct(0);
    SmallWord(s.nsGlb);
    SmallWord(if s.nsLub == UINT_MAX then 0 else s.nsLub);
    SmallWord(ns - s.nsGlb);
    match mode
    case Nearest =>
      var nsHigh := Wrap(base * Prod(s.lub1, s.lub2));
      var nsLow := Wrap(base * Prod(s.glb1, s.glb2));
      if Wrap(nsHigh - ns) < Wrap(ns - nsLow) {
        div1, div2 := s.lub1, s.lub2;
      } else {
        div1, div2 := s.glb1, s.glb2;
      }
    case Up =>
      div1, div2 := s.lub1, s.lub2;
    case Down =>
      div1, div2 := s.glb1, s.glb2;
  }

  lemma LowIsPositive(base: u32, ns: u32)
    requires InRange(base, ns)
    ensures 0 < Low(base, ns) <= ns
  {
    hide Prod;
    QuotientAtLeast(ns, base, 4);
    var g := Greatest(ns / base);
    CompareProduct(ns, base, g);
    var a: nat, b: nat :| Divisor(a) && Divisor(b) && Prod(a, b) == g;
    ProdMonotone(a, 1, b);
    assert Prod(a, 1) == a by { UnitProduct(a); }
    MulLess(base, 1, g);
  }

  lemma UnitProduct(a: nat)
    ensures Prod(a, 1) == a && Prod(0, 0) == 0
  {
  }

  lemma MaskedPair(base: u32, div1: u32, div2: u32)
    requires (Divisor(div1) && Divisor(div2)) || div1 == div2 == 0
    requires base * Prod(div1, div2) < TWO_32 && base >= 2
    ensures Encodes(base, Mask(div1), Mask(div2), base * Prod(div1, div2))
    ensures CachedOk(base, Mask(div1), Mask(div2))
    ensures Wrap(base * Prod(div1, div2)) == base * Prod(div1, div2)
  {
    if div1 != 0 {
      assert Decode(Mask(div1)) == div1 && Decode(Mask(div2)) == div2;
      ProdMonotone(div1, 1, div2);
      UnitProduct(div1);
      MulLess(base, 1, Prod(div1, div2));
    }
  }

  /** For cached divisors from an earlier call the early exit is taken exactly when they already
      produce `ns`; the overflow checks then never err. */
  lemma EarlyExitTest(base: u32, d1: u32, d2: u32, ns: u32)
    requires base >= 2 && CachedOk(base, d1, d2)
    ensures AlreadyRight(base, d1, d2, ns) <==>
      !(d1 == d2 == 0) && base * Prod(Decode(d1), Decode(d2)) == ns
    ensures AlreadyRight(base, d1, d2, ns) ==> Encodes(base, d1, d2, ns) && ns > 0
  {
    hide Prod, Wrap;
    var div1, div2 := Decode(d1), Decode(d2);
    var p := Prod(div1, div2);
    if d1 == d2 == 0 {
      FullProduct();
      WrapsToZero();
    } else {
      ExactProducts(base, div1, div2);
    }
  }

  lemma WrapsToZero()
    ensures Wrap(TWO_32) == 0
  {
  }

  /** When the product times the base fits a word, none of the intermediate words wraps. */
  lemma ExactProducts(base: u32, div1: u32, div2: u32)
    requires base >= 2 && Divisor(div1) && Divisor(div2) && base * Prod(div1, div2) < TWO_32
    ensures var p := Prod(div1, div2);
      && Wrap(p) == p && p > div1 && p > div2
      && Wrap(p * base) == p * base == base * p
      && p * base > p && p * base > base
  {
    hide Prod;
    var p := Prod(div1, div2);
    ProdMonotone(div1, 2, div2);
    ProdMonotone(div2, 2, div1);
    ProdCommutes(div1, div2);
    Doubled(div1);
    Doubled(div2);
    MulLess(p, 2, base);
    MulLess(base, 2, p);
    assert base * p == p * base;
  }

  lemma FullProduct()
    ensures Prod(MAX_COUNT, MAX_COUNT) == TWO_32
  {
  }
}
