/** Mixed-radix digits of a key: the first has radix `init`, all others radix `inc`. */
module MixedRadix {
  import opened Words

  function Radix(init: nat, inc: nat, level: nat): nat {
    if level == 0 then init else inc
  }

  /** The weight of the digit at `level`. */
  function Weight(init: nat, inc: nat, level: nat): nat {
    if level == 0 then 1 else Weight(init, inc, level - 1) * Radix(init, inc, level - 1)
  }

  /** The digit of `key` at `level`. */
  function Digit(init: nat, inc: nat, level: nat, key: nat): (r: nat)
    requires init >= 2 && inc >= 2
    ensures r < Radix(init, inc, level)
  {
    WeightPositive(init, inc, level);
    key / Weight(init, inc, level) % Radix(init, inc, level)
  }

  lemma {:induction false} WeightPositive(init: nat, inc: nat, level: nat)
    requires init >= 2 && inc >= 2
    ensures Weight(init, inc, level) > 0
  {
    if level > 0 {
      WeightPositive(init, inc, level - 1);
      TimesAtLeast(Weight(init, inc, level - 1), Radix(init, inc, level - 1));
    }
  }

  lemma TimesAtLeast(a: nat, b: nat)
    requires a > 0 && b > 0
    ensures a * b >= a && a * b >= b && a * b > 0
    ensures b >= 2 ==> a * b >= 2 * a
  {
    assert a * b == a * (b - 1) + a;
    assert a * b == (a - 1) * b + b;
  }

  lemma {:induction false} WeightGrows(init: nat, inc: nat, level: nat)
    requires init >= 2 && inc >= 2
    ensures 0 < 2 * Weight(init, inc, level) <= Weight(init, inc, level + 1)
  {
    WeightPositive(init, inc, level);
    TimesAtLeast(Weight(init, inc, level), Radix(init, inc, level));
  }

  lemma DifferentQuotients(d: nat, q: nat, r: nat, q': nat, r': nat)
    requires r < d && r' < d && q != q'
    ensures d * q + r != d * q' + r'
  {
    if q' > q {
      TimesAtLeast(d, q' - q);
      assert d * q' == d * q + d * (q' - q);
    } else {
      TimesAtLeast(d, q - q');
      assert d * q == d * q' + d * (q - q');
    }
  }

  /** Quotient and remainder are determined by being one. */
  lemma QuotientUnique(x: nat, d: nat, q: nat, r: nat)
    requires d > 0 && r < d && x == d * q + r
    ensures x / d == q && x % d == r
  {
    var q', r' := x / d, x % d;
    assert x == d * q' + r';
    if q' != q { DifferentQuotients(d, q, r, q', r'); }
  }

  /** One more digit: dividing again, and putting the digit on top of the remainder. */
  lemma OneMoreDigit(x: nat, m: nat, r: nat, q: nat, a: nat)
    requires m > 0 && r > 0 && q == x / m && a == x % m
    ensures m * r > 0 && x / (m * r) == q / r && x % (m * r) == a + m * (q % r)
  {
    DivMod(x, m);
    DivMod(q, r);
    TimesAtLeast(m, r);
    Compose(x, m, r, q, a, q / r, q % r);
    QuotientUnique(x, m * r, q / r, a + m * (q % r));
  }

  lemma DivMod(x: nat, m: nat)
    requires m > 0
    ensures x == m * (x / m) + x % m && 0 <= x % m < m
  {
  }

  lemma Compose(x: nat, m: nat, r: nat, q: nat, a: nat, p: nat, b: nat)
    requires x == m * q + a && a < m && q == r * p + b && b < r
    ensures x == (m * r) * p + (a + m * b) && a + m * b < m * r
  {
    Regroup(m, r, p, b, a);
    BelowProduct(m, r, b, a);
  }

  lemma Regroup(m: nat, r: nat, p: nat, b: nat, a: nat)
    ensures m * (r * p + b) + a == (m * r) * p + (m * b + a)
  {
    assert m * (r * p + b) == m * (r * p) + m * b;
    assert m * (r * p) == (m * r) * p;
  }

  lemma BelowProduct(m: nat, r: nat, b: nat, a: nat)
    requires b < r && a < m
    ensures m * b + a < m * r
  {
    MulMonotone(m, b + 1, r);
    assert m * (b + 1) == m * b + m;
  }

  lemma MulMonotone(m: nat, a: nat, b: nat)
    requires a <= b
    ensures m * a <= m * b
  {
    assert m * b == m * a + m * (b - a);
  }

  /** The residue of a key one level down. */
  lemma NextResidue(init: nat, inc: nat, level: nat, key: nat)
    requires init >= 2 && inc >= 2
    ensures Weight(init, inc, level) > 0 && Weight(init, inc, level + 1) > 0
    ensures key % Weight(init, inc, level + 1) ==
              key % Weight(init, inc, level) + Weight(init, inc, level) * Digit(init, inc, level, key)
    ensures key / Weight(init, inc, level) / Radix(init, inc, level) == key / Weight(init, inc, level + 1)
  {
    WeightPositive(init, inc, level);
    WeightPositive(init, inc, level + 1);
    var w := Weight(init, inc, level);
    OneMoreDigit(key, w, Radix(init, inc, level), key / w, key % w);
  }

  /** Two keys that agree in all digits below `level` are equal unless one of them reaches that digit's weight. */
  lemma SameResidue(init: nat, inc: nat, level: nat, k: nat, k': nat)
    requires init >= 2 && inc >= 2 && Weight(init, inc, level) > 0
    requires k % Weight(init, inc, level) == k' % Weight(init, inc, level) && k != k'
    ensures Weight(init, inc, level) <= k || Weight(init, inc, level) <= k'
  {
    var w := Weight(init, inc, level);
    if k < w && k' < w {
      QuotientUnique(k, w, 0, k);
      QuotientUnique(k', w, 0, k');
    }
  }

  /** A level whose weight is below 2^n is at most `n - 1`: a key below 2^n has no more digits than that. */
  lemma {:induction false} WeightAtLeastPower(init: nat, inc: nat, level: nat)
    requires init >= 2 && inc >= 2
    ensures Weight(init, inc, level) >= Pow2(level)
  {
    if level > 0 {
      WeightAtLeastPower(init, inc, level - 1);
      WeightGrows(init, inc, level - 1);
    }
  }

  lemma {:induction false} PowerMonotone(a: nat, b: nat)
    requires Pow2(a) < Pow2(b)
    ensures a < b
  {
    if a >= b { PowerAtLeast(b, a); }
  }

  lemma {:induction false} PowerAtLeast(a: nat, b: nat)
    requires a <= b
    ensures Pow2(a) <= Pow2(b)
  {
    if a < b { PowerAtLeast(a, b - 1); }
  }

  lemma PowerOf63()
    ensures Pow2(63) == 0x8000_0000_0000_0000
  {
    assert Pow2(3) == 8;
    PowerAdds(3, 4);
    assert Pow2(4) == 16;
    assert Pow2(7) == 0x80;
    PowerAdds(7, 7);
    assert Pow2(14) == 0x4000;
    PowerAdds(14, 7);
    assert Pow2(21) == 0x20_0000;
    PowerAdds(21, 21);
    PowerAdds(42, 21);
  }
}
