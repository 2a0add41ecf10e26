/** Nonlinear facts, kept away from everything else. */
module Arith {
  lemma MulMono(a: int, b: int, c: int)
    requires a <= b && c >= 0
    ensures a * c <= b * c
  {
  }

  /** A product of variables, with a name. */
  function Times(a: nat, b: nat): nat {
    MulMono(0, a, b);
    a * b
  }

  lemma Distribute(a: int, b: int, c: int)
    ensures (a + b) * c == a * c + b * c
    ensures (a - b) * c == a * c - b * c
  {
  }

  /** Quotient and remainder are unique. */
  lemma Unique(q: int, r: int, p: int, s: int, len: int)
    requires 0 <= r < len && 0 <= s < len && q * len + r == p * len + s
    ensures q == p && r == s
  {
    Distribute(q, p, len);
    if q > p {
      MulMono(1, q - p, len);
    } else if q < p {
      MulMono(q - p, -1, len);
    }
  }

  lemma Division(x: int, len: int)
    requires len > 0
    ensures x == x / len * len + x % len && 0 <= x % len < len
  {
  }

  lemma DivMod(a: int, len: int, r: int)
    requires 0 <= r < len
    ensures (a * len + r) / len == a && (a * len + r) % len == r
  {
    var x := a * len + r;
    Division(x, len);
    Unique(x / len, x % len, a, r, len);
  }

  /** A share is between nothing and the whole. */
  lemma ShareBound(x: nat, len: nat)
    requires len > 0
    ensures 0 <= x / len <= x
  {
    Division(x, len);
    ShareBoundOf(x, len, x / len, x % len);
  }

  lemma ShareBoundOf(x: nat, len: nat, q: int, r: nat)
    requires r < len && x == q * len + r
    ensures 0 <= q <= x
  {
    if q < 0 {
      MulMono(q, -1, len);
    } else {
      MulMono(1, len, q);
    }
  }
}
