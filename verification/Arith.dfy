/** Division with remainder: the one non-linear fact the proofs need. */
module Arith {
  lemma {:induction false} Distribute(a: int, b: int, k: int)
    ensures (a - b) * k == a * k - b * k
  {
  }

  lemma {:induction false} AtLeastOnce(a: int, k: int)
    requires a >= 1 && k > 0
    ensures a * k >= k
  {
  }

  lemma QuotientUnique(k: int, q: int, r: int, q': int, r': int)
    requires k > 0 && 0 <= r < k && 0 <= r' < k && q * k + r == q' * k + r'
    ensures q == q' && r == r'
  {
    Distribute(q, q', k);
    if q > q' {
      AtLeastOnce(q - q', k);
    } else if q < q' {
      Distribute(q', q, k);
      AtLeastOnce(q' - q, k);
    }
  }

  /** A decomposition into quotient and remainder is the one `/` and `%` compute. */
  lemma DivMod(x: int, k: int, q: int, r: int)
    requires k > 0 && x == q * k + r && 0 <= r < k
    ensures x / k == q && x % k == r
  {
    QuotientUnique(k, q, r, x / k, x % k);
  }

  lemma DivDiv(x: nat, a: nat, b: nat)
    requires a > 0 && b > 0
    ensures a * b > 0 && x / (a * b) == x / a / b
  {
    var q := x / a;
    assert a * b > 0 by {
      AtLeastOnce(a, b);
    }
    var r := q % b * a + x % a;
    assert x == q / b * (a * b) + r by {
      assert q == q / b * b + q % b;
      assert q * a == (q / b * b) * a + q % b * a by {
        Distribute(q / b * b, -(q % b), a);
      }
      assert (q / b * b) * a == q / b * (a * b);
    }
    assert 0 <= r < a * b by {
      assert (b - q % b) * a == b * a - q % b * a by {
        Distribute(b, q % b, a);
      }
      AtLeastOnce(b - q % b, a);
      assert q % b * a >= 0;
    }
    DivMod(x, a * b, q / b, r);
  }
}
