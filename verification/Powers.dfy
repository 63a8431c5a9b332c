/** Powers of two. */
module Powers {

  function Pow2(k: nat): (n: nat)
    ensures n > 0
  {
    if k == 0 then 1 else 2 * Pow2(k - 1)
  }

  lemma HalfThenQuotient(i: nat, d: nat)
    requires d > 0
    ensures (i / 2) / d == i / (2 * d)
  {
    var q, r := (i / 2) / d, (i / 2) % d;
    assert i == q * (2 * d) + (2 * r + i % 2);
    QuotientIs(i, 2 * d, q, 2 * r + i % 2);
  }

  lemma QuotientIs(i: nat, d: nat, q: nat, r: nat)
    requires d > 0 && r < d && i == q * d + r
    ensures i / d == q
  {
    if i / d < q {
      TimesMonotone(i / d + 1, q, d);
    } else if i / d > q {
      TimesMonotone(q + 1, i / d, d);
    }
  }

  lemma TimesMonotone(x: nat, y: nat, d: nat)
    requires x <= y
    ensures x * d <= y * d
  {
  }
}
