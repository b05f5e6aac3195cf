/** Positions of an unbounded byte stream laid out in a buffer of `n` cells. */
module Cyclic {
  type byte = bv8

  /** `p % n`, by walking back one lap at a time. */
  function Cell(p: nat, n: nat): (c: nat)
    requires n > 0
    ensures c < n
  {
    if p < n then p else Cell(p - n, n)
  }

  /** The byte stored for stream position `p`. */
  function At(cells: seq<byte>, p: nat): byte
    requires |cells| > 0
  {
    cells[Cell(p, |cells|)]
  }

  lemma {:induction false} CellOfLaps(k: nat, r: nat, n: nat)
    requires n > 0 && r < n
    ensures k * n >= 0 && Cell(k * n + r, n) == r
  {
    if k > 0 {
      assert k * n + r == (k - 1) * n + r + n;
      CellOfLaps(k - 1, r, n);
    }
  }

  lemma CellIsMod(p: nat, n: nat)
    requires n > 0
    ensures Cell(p, n) == p % n
  {
    assert p == p / n * n + p % n;
    CellOfLaps(p / n, p % n, n);
  }

  /** Moving on by at most one lap from position `p`. */
  lemma {:induction false} CellStep(p: nat, i: nat, n: nat)
    requires n > 0 && i <= n
    ensures Cell(p + i, n) == if Cell(p, n) + i < n then Cell(p, n) + i else Cell(p, n) + i - n
  {
    if p >= n {
      CellStep(p - n, i, n);
    } else if p + i >= n && p == 0 {
      assert Cell(0, n) == 0;
    }
  }

  /** Reducing before or after adding gives the same cell. */
  lemma {:induction false} CellOfSum(p: nat, k: nat, n: nat)
    requires n > 0
    ensures Cell(Cell(p, n) + k, n) == Cell(p + k, n)
  {
    if p >= n {
      CellOfSum(p - n, k, n);
    }
  }

  /** Positions less than one lap apart lie in different cells. */
  lemma CellInjective(p: nat, q: nat, n: nat)
    requires n > 0 && p < q < p + n
    ensures Cell(p, n) != Cell(q, n)
  {
    CellStep(p, q - p, n);
  }
}
