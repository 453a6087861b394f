/** Quotients and remainders of numbers that are not constants. */
module Divisions {
  lemma SmallMod(i: nat, m: nat)
    requires i < m
    ensures i % m == i && i / m == 0
  {
  }

  lemma {:induction false} MultipleAtLeast(k: nat, m: nat)
    requires k >= 1
    ensures k * m >= m
  {
    if k > 1 {
      MultipleAtLeast(k - 1, m);
      assert k * m == (k - 1) * m + m;
    }
  }

  lemma DivisionUnique(m: nat, q: nat, r: nat, q': nat, r': nat)
    requires q * m + r == q' * m + r' && r < m && r' < m
    ensures q == q' && r == r'
  {
    assert (q' - q) * m == q' * m - q * m && (q - q') * m == q * m - q' * m;
    if q < q' {
      MultipleAtLeast(q' - q, m);
    } else if q' < q {
      MultipleAtLeast(q - q', m);
    }
  }

  lemma QuotientIs(n: nat, m: nat, q: nat, r: nat)
    requires n == q * m + r && r < m
    ensures n / m == q && n % m == r
  {
    assert n == n / m * m + n % m;
    DivisionUnique(m, q, r, n / m, n % m);
  }

  lemma ModShift(i: nat, m: nat)
    requires 0 < m <= i
    ensures i % m == (i - m) % m
  {
    var q, r := (i - m) / m, (i - m) % m;
    assert i - m == q * m + r;
    assert (q + 1) * m == q * m + m;
    QuotientIs(i, m, q + 1, r);
  }

  lemma DivideTwice(n: nat, k: nat, m: nat)
    requires k >= 1 && m >= 1
    ensures n / k / m == n / (k * m)
  {
    var q, r := n / k, n % k;
    var a, b := q / m, q % m;
    assert n == q * k + r && q == a * m + b;
    Regroup(a, b, r, k, m);
    QuotientIs(n, k * m, a, b * k + r);
  }

  lemma Slack(x: nat, k: nat)
    ensures x * k >= 0
  {
  }

  lemma Regroup(a: nat, b: nat, r: nat, k: nat, m: nat)
    requires b < m && r < k
    ensures (a * m + b) * k + r == a * (k * m) + (b * k + r) && 0 <= b * k + r < k * m
  {
    assert (a * m + b) * k == a * m * k + b * k;
    assert a * m * k == a * (k * m);
    Slack(m - 1 - b, k);
    assert (m - 1 - b) * k == m * k - k - b * k;
  }
}
