/**
 What the evaluator's arithmetic means, said without it: bitwise operators bit
 by bit, division by its remainder, and signed numbers of fewer bytes by their
 value.
 */
module WordMeanings {
  import opened Expressions
  import opened AddressSpace
  import opened Words

  // ---------- Bitwise operators ----------

  lemma BitsStep(op: BitOp, a: nat, b: nat)
    ensures Bits(op, a, b) == 2 * Bits(op, a / 2, b / 2) + Bit(op, a % 2, b % 2)
  {
  }

  lemma Halved(z: nat, x: nat, r: nat)
    requires z == 2 * x + r && r < 2
    ensures z / 2 == x && z % 2 == r
  {
  }

  lemma BitsHalved(op: BitOp, a: nat, b: nat)
    ensures Bits(op, a, b) / 2 == Bits(op, a / 2, b / 2)
    ensures Bits(op, a, b) % 2 == Bit(op, a % 2, b % 2)
  {
    BitsStep(op, a, b);
    Halved(Bits(op, a, b), Bits(op, a / 2, b / 2), Bit(op, a % 2, b % 2));
  }

  lemma {:induction false} BitsAt(op: BitOp, a: nat, b: nat, i: nat)
    ensures op == And ==> (BitAt(Bits(op, a, b), i) <==> BitAt(a, i) && BitAt(b, i))
    ensures op == Or ==> (BitAt(Bits(op, a, b), i) <==> BitAt(a, i) || BitAt(b, i))
    ensures op == Xor ==> (BitAt(Bits(op, a, b), i) <==> BitAt(a, i) != BitAt(b, i))
  {
    BitsHalved(op, a, b);
    if i == 0 {
      assert Pow2(0) == 1;
    } else {
      BitsAt(op, a / 2, b / 2, i - 1);
      HigherBit(a, i);
      HigherBit(b, i);
      HigherBit(Bits(op, a, b), i);
    }
  }

  /** Each bit of the result is the conjunction, disjunction or difference of the bits there. */
  lemma BitWordBits(op: BitOp, a: word64, b: word64, i: nat)
    ensures op == And ==> (BitAt(BitWord(op, a, b), i) <==> BitAt(a, i) && BitAt(b, i))
    ensures op == Or ==> (BitAt(BitWord(op, a, b), i) <==> BitAt(a, i) || BitAt(b, i))
    ensures op == Xor ==> (BitAt(BitWord(op, a, b), i) <==> BitAt(a, i) != BitAt(b, i))
  {
    BitsAt(op, a, b, i);
  }

  // ---------- Division ----------

  /** `q` is the quotient of `x` by `y` rounded toward zero, and `r` what is left. */
  predicate DividesTo(x: int, y: int, q: int, r: int) {
    && x == q * y + r
    && (if y < 0 then y < r < -y else -y < r < y)
    && (r == 0 || (r < 0) == (x < 0))
  }

  lemma QuotientDivides(x: int, y: int)
    requires y != 0
    ensures DividesTo(x, y, Quotient(x, y), Remainder(x, y))
  {
    var q, r := Abs(x) / Abs(y), Abs(x) % Abs(y);
    assert Abs(x) == q * Abs(y) + r;
    SignedProducts(q, y);
  }

  lemma SignedProducts(q: int, y: int)
    ensures -q * y == -(q * y) && q * -y == -(q * y) && -q * -y == q * y
  {
  }

  /** There is one such quotient, and one such remainder. */
  lemma DividesOnce(x: int, y: int, q: int, r: int, q': int, r': int)
    requires y != 0 && DividesTo(x, y, q, r) && DividesTo(x, y, q', r')
    ensures q == q' && r == r'
  {
    var d := if y < 0 then -y else y;
    assert (q - q') * y == r' - r;
    SignedProducts(q - q', y);
    MultipleIsFar(q - q', d);
  }

  /** Division has no meaning by zero, nor where its result is no 64-bit number; otherwise it gives what divides. */
  lemma DivisionDivides(a: word64, b: word64, q: int, r: int)
    ensures var x, y := ToInt64(a), ToInt64(b);
            && (Division(0x1B, a, b) == Undefined <==> y == 0 || (x == -TWO63 && y == -1))
            && (Division(0x1D, a, b) == Undefined <==> y == 0 || (x == -TWO63 && y == -1))
            && (y != 0 && DividesTo(x, y, q, r) && !(x == -TWO63 && y == -1) ==>
                  Division(0x1B, a, b) == Result(Wrap64(q)) && Division(0x1D, a, b) == Result(Wrap64(r)))
  {
    var x, y := ToInt64(a), ToInt64(b);
    if y != 0 {
      QuotientDivides(x, y);
      if DividesTo(x, y, q, r) { DividesOnce(x, y, q, r, Quotient(x, y), Remainder(x, y)); }
    }
  }

  // ---------- Signed numbers of fewer bytes ----------

  /** The pattern of `x` in `size` bytes, extended, is the pattern of `x` in eight. */
  lemma PatternExtends(x: int, size: nat)
    requires size > 0 && 0 - Pow2(8 * size) <= 2 * x < Pow2(8 * size)
    ensures SignExtend(x % Pow2(8 * size), size) == Wrap64(x)
  {
    var m := Pow2(8 * size);
    assert m == 2 * Pow2(8 * size - 1);
    QuotientIs(x, m, if x < 0 then -1 else 0, if x < 0 then x + m else x);
  }
}
