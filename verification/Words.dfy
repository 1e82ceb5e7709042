/**
 Machine words: unsigned numbers of a fixed width, their wrap-around, and powers
 of two.
 */
module Words {

  const TWO16: int := 0x1_0000
  const TWO24: int := 0x100_0000
  const TWO32: int := 0x1_0000_0000
  const TWO63: int := 0x8000_0000_0000_0000
  const TWO64: int := 0x1_0000_0000_0000_0000

  type byte = x: nat | x < 256
  type word16 = x: nat | x < TWO16
  type word32 = x: nat | x < TWO32
  type word64 = x: nat | x < TWO64

  function Wrap32(x: int): word32 { x % TWO32 }

  function Wrap64(x: int): word64 { x % TWO64 }

  /** A 64-bit pattern as a signed number. */
  function ToInt64(x: int): (r: int)
    ensures -TWO63 <= r < TWO63
    ensures -TWO63 <= x < TWO63 ==> r == x
  {
    (x + TWO63) % TWO64 - TWO63
  }

  lemma WrapMultiple32(q: int, x: int)
    ensures (q * TWO32 + x) % TWO32 == x % TWO32
  {
    var k := x / TWO32;
    assert q * TWO32 + x == (q + k) * TWO32 + x % TWO32;
  }

  lemma WrapMultiple(q: int, x: int)
    ensures (q * TWO64 + x) % TWO64 == x % TWO64
  {
    var k := x / TWO64;
    assert q * TWO64 + x == (q + k) * TWO64 + x % TWO64;
  }

  lemma WrapAdds(a: int, b: int)
    ensures Wrap64(Wrap64(a) + b) == Wrap64(a + b)
  {
    var q := a / TWO64;
    assert a + b == q * TWO64 + (Wrap64(a) + b);
    WrapMultiple(q, Wrap64(a) + b);
  }

  function Pow2(n: nat): (r: nat)
    ensures r > 0
  {
    if n == 0 then 1 else 2 * Pow2(n - 1)
  }

  lemma {:induction false} PowerAdds(a: nat, b: nat)
    ensures Pow2(a + b) == Pow2(a) * Pow2(b)
  {
    if b > 0 { PowerAdds(a, b - 1); }
  }

  // ---------- Bits ----------

  /** Bit `i` of a number. */
  predicate BitAt(x: nat, i: nat) { x / Pow2(i) % 2 == 1 }

  lemma DivideTwice(x: nat, d: nat)
    requires d > 0
    ensures x / (2 * d) == x / 2 / d
  {
    var q, r := x / 2 / d, x / 2 % d;
    assert x / 2 == q * d + r;
    assert x == q * (2 * d) + (2 * r + x % 2) && 0 <= 2 * r + x % 2 < 2 * d;
    QuotientIs(x, 2 * d, q, 2 * r + x % 2);
  }

  lemma MultipleIsFar(k: int, d: nat)
    ensures k >= 1 ==> k * d >= d
    ensures k <= -1 ==> k * d <= 0 - d
  {
  }

  lemma QuotientIs(x: int, d: int, q: int, r: int)
    requires x == q * d + r && 0 <= r < d
    ensures x / d == q && x % d == r
  {
    var k := q - x / d;
    assert k * d == x % d - r;
    MultipleIsFar(k, d);
  }

  lemma HigherBit(x: nat, i: nat)
    requires i > 0
    ensures BitAt(x, i) <==> BitAt(x / 2, i - 1)
  {
    DivideTwice(x, Pow2(i - 1));
  }

  /** A number is nothing but its bits. */
  lemma {:induction false} SameBits(x: nat, y: nat, n: nat)
    requires x < Pow2(n) && y < Pow2(n)
    requires forall i: nat :: i < n ==> (BitAt(x, i) <==> BitAt(y, i))
    ensures x == y
  {
    if n > 0 {
      forall i: nat | i < n - 1 ensures BitAt(x / 2, i) <==> BitAt(y / 2, i) {
        HigherBit(x, i + 1);
        HigherBit(y, i + 1);
      }
      SameBits(x / 2, y / 2, n - 1);
      assert Pow2(0) == 1;
      assert BitAt(x, 0) <==> BitAt(y, 0);
    }
  }

  lemma PowerDoubles(k: nat)
    requires k > 0
    ensures Pow2(k) == 2 * Pow2(k - 1)
  {
  }

  /** The bits of a number above `k` bits of another. */
  lemma {:induction false} BitOfPair(x: nat, y: nat, k: nat, i: nat)
    requires y < Pow2(k)
    ensures BitAt(x * Pow2(k) + y, i) <==> if i < k then BitAt(y, i) else BitAt(x, i - k)
  {
    if k > 0 {
      var z := x * Pow2(k) + y;
      PowerDoubles(k);
      assert z == 2 * (x * Pow2(k - 1)) + y;
      assert z / 2 == x * Pow2(k - 1) + y / 2 && z % 2 == y % 2;
      if i > 0 {
        HigherBit(z, i);
        HigherBit(y, i);
        BitOfPair(x, y / 2, k - 1, i - 1);
      } else {
        assert Pow2(0) == 1;
      }
    }
  }
}
