/** The few facts about / and % that round-robin cursors and slot addresses rest on. */
module Modulo {
  lemma MulBounds(k: int, p: int)
    requires p > 0
    ensures k >= 1 ==> k * p >= p
    ensures k <= -1 ==> k * p <= -p
    ensures k == 0 ==> k * p == 0
  {
    if k >= 1 {
      assert (k - 1) * p >= 0;
    } else if k <= -1 {
      assert (-k - 1) * p >= 0;
    }
  }

  lemma MultipleBound(d: nat, p: nat)
    requires p > 0 && d > 0 && d % p == 0
    ensures d >= p
  {
    assert d == (d / p) * p;
    MulBounds(d / p, p);
  }

  /** Quotient and remainder are unique. */
  lemma DivModUnique(x: int, k: int, r: int, p: int)
    requires p > 0 && x == k * p + r && 0 <= r < p
    ensures x / p == k && x % p == r
  {
    var q, t := x / p, x % p;
    assert x == q * p + t;
    assert (q - k) * p == r - t;
    MulBounds(q - k, p);
  }

  lemma AddMultiple(x: int, k: int, p: int)
    requires p > 0
    ensures (x + k * p) % p == x % p
  {
    var q := x / p;
    assert x + k * p == (q + k) * p + x % p;
    DivModUnique(x + k * p, q + k, x % p, p);
  }

  /** Same residue means the difference is a multiple. */
  lemma SameResidue(a: int, b: int, p: int)
    requires p > 0
    ensures a % p == b % p <==> (a - b) % p == 0
  {
    var d := (a - b) / p;
    if (a - b) % p == 0 {
      assert a == b + d * p;
      AddMultiple(b, d, p);
    }
    if a % p == b % p {
      assert a - b == 0 + (a / p - b / p) * p;
      AddMultiple(0, a / p - b / p, p);
    }
  }

  /** Numbers closer than p with the same residue are equal. */
  lemma CloseResidues(a: int, b: int, p: int)
    requires p > 0 && a % p == b % p && b - p < a < b + p
    ensures a == b
  {
    assert a - b == (a / p - b / p) * p;
    MulBounds(a / p - b / p, p);
  }

  /** A cursor that is taken modulo p at every step is the step count modulo p. */
  lemma Step(k: nat, p: nat)
    requires p > 0
    ensures (k % p + 1) % p == (k + 1) % p
  {
    assert k + 1 == (k % p + 1) + (k / p) * p;
    AddMultiple(k % p + 1, k / p, p);
  }

  /** Counting one further passes a multiple of p or stays in the same quotient. */
  lemma DivNext(x: nat, p: nat)
    requires p > 0
    ensures (x + 1) / p == x / p + if (x + 1) % p == 0 then 1 else 0
  {
    var k, t := x / p, x % p;
    assert x == k * p + t;
    if t == p - 1 {
      assert x + 1 == (k + 1) * p + 0;
      DivModUnique(x + 1, k + 1, 0, p);
    } else {
      DivModUnique(x + 1, k, t + 1, p);
    }
  }
}
