/** Pairs of 8254 divisors and the products they reach: what the two-divisor search of
    comedi/drivers/8253.h is looking for. */
module Divisors {
  import opened Word32

  const MAX_COUNT: nat := 0x10000

  datatype RoundMode = Nearest | Down | Up

  predicate Divisor(d: int) {
    2 <= d <= MAX_COUNT
  }

  function Prod(a: nat, b: nat): nat {
    a * b
  }

  ghost predicate Reachable(p: nat) {
    exists a: nat, b: nat :: Divisor(a) && Divisor(b) && Prod(a, b) == p
  }

  ghost predicate IsGreatest(q: nat, g: nat) {
    && Reachable(g) && g <= q
    && (forall p: nat :: Reachable(p) && p <= q ==> p <= g)
  }

  ghost predicate IsLeast(c: nat, l: nat) {
    && Reachable(l) && c <= l
    && (forall p: nat :: Reachable(p) && c <= p ==> l <= p)
  }

  lemma {:induction false} GreatestExists(q: nat) returns (g: nat)
    requires q >= 4
    ensures IsGreatest(q, g)
  {
    assert Prod(2, 2) == 4;
    if Reachable(q) {
      g := q;
    } else {
      assert q > 4;
      g := GreatestExists(q - 1);
    }
  }

  lemma {:induction false} LeastExists(c: nat) returns (l: nat)
    requires c <= MAX_COUNT * MAX_COUNT
    ensures IsLeast(c, l)
    decreases MAX_COUNT * MAX_COUNT - c
  {
    assert Prod(MAX_COUNT, MAX_COUNT) == MAX_COUNT * MAX_COUNT;
    if Reachable(c) {
      l := c;
    } else {
      l := LeastExists(c + 1);
    }
  }

  /** The greatest product of two divisors not above `q`. */
  ghost function Greatest(q: nat): (g: nat)
    requires q >= 4
    ensures IsGreatest(q, g)
  {
    assert exists g: nat :: IsGreatest(q, g) by { var g := GreatestExists(q); }
    var g: nat :| IsGreatest(q, g);
    g
  }

  /** The least product of two divisors not below `c`. */
  ghost function Least(c: nat): (l: nat)
    requires c <= MAX_COUNT * MAX_COUNT
    ensures IsLeast(c, l)
  {
    assert exists l: nat :: IsLeast(c, l) by { var l := LeastExists(c); }
    var l: nat :| IsLeast(c, l);
    l
  }

  function CeilDiv(ns: nat, base: nat): nat
    requires base > 0
  {
    if ns % base == 0 then ns / base else ns / base + 1
  }

  /** Where the search is used: a timebase of at least 2 ns and a period no shorter than the shortest
      two divisors can make. */
  predicate InRange(base: u32, ns: u32) {
    2 <= base < TWO_31 && 4 * base <= ns
  }

  ghost function Low(base: u32, ns: u32): nat
    requires InRange(base, ns)
  {
    QuotientAtLeast(ns, base, 4);
    base * Greatest(ns / base)
  }

  ghost function High(base: u32, ns: u32): nat
    requires InRange(base, ns)
  {
    CeilBound(ns, base);
    base * Least(CeilDiv(ns, base))
  }

  /** The period the search settles on. When the least period not below `ns` is not below
      2^32 - 1 the search finds none, and the code then works with a period of 0. */
  ghost function Period(base: u32, ns: u32, mode: RoundMode): nat
    requires InRange(base, ns)
  {
    var low := Low(base, ns);
    var high := if High(base, ns) < UINT_MAX then High(base, ns) else 0;
    match mode
    case Down => low
    case Up => high
    case Nearest => if Wrap(high - ns) < ns - low then high else low
  }

  // ---------------------------------------------------------------- arithmetic

  lemma QuotientAtLeast(ns: nat, base: nat, k: nat)
    requires base > 0 && k * base <= ns
    ensures ns / base >= k
  {
    if ns / base < k {
      MulLess(base, ns / base + 1, k);
    }
  }

  lemma MulLess(base: nat, a: nat, b: nat)
    requires a <= b
    ensures base * a <= base * b
    ensures a < b && base > 0 ==> base * a + base <= base * b
  {
    var d := b - a;
    assert base * b == base * a + base * d;
    if d > 0 {
      assert base * d == base + base * (d - 1);
    }
  }

  lemma QuotientBounds(n: nat, row: nat)
    requires 0 < row
    ensures n / row * row <= n < n / row * row + row
    ensures n / row <= n
  {
    var d := n / row;
    assert n == row * d + n % row;
    assert row * d == d * row;
    MulLess(d, 1, row);
  }

  lemma CeilBound(ns: u32, base: nat)
    requires base >= 2
    ensures ns / base <= CeilDiv(ns, base) <= ns / base + 1 <= TWO_31
    ensures base * (ns / base) <= ns <= base * CeilDiv(ns, base)
    ensures ns < base * (ns / base + 1)
  {
    var q := ns / base;
    assert ns == base * q + ns % base;
    assert base * (q + 1) == base * q + base;
    assert q <= ns / 2 by { MulLess(q, 2, base); }
  }

  /** A product is usable below `ns` exactly when it is at most the quotient, and above `ns` exactly
      when it is at least the quotient rounded up. */
  lemma CompareProduct(ns: u32, base: nat, p: nat)
    requires base >= 2
    ensures base * p <= ns <==> p <= ns / base
    ensures base * p >= ns <==> p >= CeilDiv(ns, base)
  {
    CeilBound(ns, base);
    var q := ns / base;
    if p <= q { MulLess(base, p, q); } else { MulLess(base, q + 1, p); }
    if p < q { MulLess(base, p, q); }
    if p == q { assert base * p == ns - ns % base; }
  }
}
