/**
 The registers a frameless function saves, as a number: the Lehmer code of
 their order in a base that shrinks from 6 to 1.
 */
module Permutations {
  import opened Wrappers

  /** Registers are numbered 1 to 6. */
  const REGISTERS: nat := 6

  /** Different registers, at most six. */
  predicate DistinctRegisters(regs: seq<nat>) {
    regs == [] ||
    (var n := |regs| - 1;
     DistinctRegisters(regs[..n]) && 1 <= regs[n] <= REGISTERS && regs[n] !in regs[..n])
  }

  // ---------- Encoding ----------

  /** How many of the registers are less than `r`. */
  function CountLess(regs: seq<nat>, r: nat): nat {
    if regs == [] then 0 else CountLess(regs[..|regs| - 1], r) + if regs[|regs| - 1] < r then 1 else 0
  }

  /** Every register's number among those not used before it. */
  function Renumber(regs: seq<nat>): (ds: seq<int>)
    ensures |ds| == |regs|
  {
    if regs == [] then []
    else
      var n := |regs| - 1;
      Renumber(regs[..n]) + [regs[n] - CountLess(regs[..n], regs[n]) - 1]
  }

  /** One number of up to six digits: the first counts to 6, the next to 5, and so on. */
  function Number(ds: seq<int>): int
    requires |ds| <= 6
  {
    if ds == [] then 0 else Number(ds[..|ds| - 1]) * (7 - |ds|) + ds[|ds| - 1]
  }

  // ---------- Decoding ----------

  /** The digits of a number; the first is what is left, however large. */
  function Digits(count: nat, number: nat): (ds: seq<nat>)
    requires count <= 6
    ensures |ds| == count
  {
    if count == 0 then []
    else if count == 1 then [number]
    else Digits(count - 1, number / (7 - count)) + [number % (7 - count)]
  }

  /** From register `u` on, the one with `d` unused before it. */
  function Pick(used: set<nat>, u: nat, d: int): Option<nat>
    requires u <= REGISTERS + 1
    decreases REGISTERS + 1 - u
  {
    if u > REGISTERS then None
    else if u in used then Pick(used, u + 1, d)
    else if d == 0 then Some(u)
    else Pick(used, u + 1, d - 1)
  }

  function SetOf(regs: seq<nat>): set<nat> { set r | r in regs }

  /** The registers the digits stand for, unless one is too large. */
  function Registers(ds: seq<int>): Option<seq<nat>> {
    if ds == [] then Some([])
    else
      match Registers(ds[..|ds| - 1])
      case None => None
      case Some(before) =>
        match Pick(SetOf(before), 1, ds[|ds| - 1])
        case None => None
        case Some(u) => Some(before + [u])
  }

  // ---------- They are inverse ----------

  /** The unused registers below `r`. */
  function Unused(used: set<nat>, r: nat): nat {
    if r <= 1 then 0 else Unused(used, r - 1) + if r - 1 in used then 0 else 1
  }

  lemma {:induction false} PickFinds(used: set<nat>, u: nat, d: nat, r: nat)
    requires 1 <= u <= r <= REGISTERS && r !in used
    requires Unused(used, r) == Unused(used, u) + d
    ensures Pick(used, u, d) == Some(r)
    decreases r - u
  {
    if u < r {
      UnusedGrows(used, u + 1, r);
      PickFinds(used, u + 1, if u in used then d else d - 1, r);
    } else {
      assert d == 0;
    }
  }

  lemma {:induction false} UnusedGrows(used: set<nat>, a: nat, b: nat)
    requires a <= b
    ensures Unused(used, a) <= Unused(used, b)
  {
    if a < b { UnusedGrows(used, a, b - 1); }
  }

  lemma {:induction false} PickIsUnused(used: set<nat>, u: nat, d: nat)
    requires 1 <= u <= REGISTERS + 1
    ensures match Pick(used, u, d)
            case Some(r) => u <= r <= REGISTERS && r !in used && Unused(used, r) == Unused(used, u) + d
            case None => Unused(used, REGISTERS + 1) <= Unused(used, u) + d
    decreases REGISTERS + 1 - u
  {
    if u <= REGISTERS {
      if u in used { PickIsUnused(used, u + 1, d); } else if d > 0 { PickIsUnused(used, u + 1, d - 1); }
    }
  }

  lemma {:induction false} UnusedWithout(used: set<nat>, x: nat, r: nat)
    requires x >= 1 && x !in used
    ensures Unused(used + {x}, r) == Unused(used, r) - if x < r then 1 else 0
  {
    if r > 1 { UnusedWithout(used, x, r - 1); }
  }

  lemma {:induction false} NoneUsed(r: nat)
    requires r >= 1
    ensures Unused({}, r) == r - 1
  {
    if r > 1 { NoneUsed(r - 1); }
  }

  lemma SetOfLast(regs: seq<nat>)
    requires regs != []
    ensures SetOf(regs) == SetOf(regs[..|regs| - 1]) + {regs[|regs| - 1]}
  {
    assert regs == regs[..|regs| - 1] + [regs[|regs| - 1]];
  }

  /** A register's number among the unused ones, counted both ways. */
  lemma {:induction false} CountsAgree(regs: seq<nat>, r: nat)
    requires DistinctRegisters(regs) && r >= 1
    ensures Unused(SetOf(regs), r) == r - 1 - CountLess(regs, r)
  {
    if regs == [] {
      assert SetOf(regs) == {};
      NoneUsed(r);
    } else {
      CountsAgree(regs[..|regs| - 1], r);
      SetOfLast(regs);
      UnusedWithout(SetOf(regs[..|regs| - 1]), regs[|regs| - 1], r);
    }
  }

  lemma {:induction false} CountAll(regs: seq<nat>)
    requires DistinctRegisters(regs)
    ensures CountLess(regs, REGISTERS + 1) == |regs|
  {
    if regs != [] { CountAll(regs[..|regs| - 1]); }
  }

  /** Digits in range: the `i`-th is less than 6 - i. */
  predicate InBase(ds: seq<int>) {
    ds == [] || (InBase(ds[..|ds| - 1]) && 0 <= ds[|ds| - 1] < 7 - |ds|)
  }

  lemma {:induction false} RenumberInBase(regs: seq<nat>)
    requires DistinctRegisters(regs)
    ensures |regs| <= 6 && InBase(Renumber(regs))
  {
    if regs != [] {
      var n := |regs| - 1;
      RenumberInBase(regs[..n]);
      assert Renumber(regs)[..n] == Renumber(regs[..n]);
      CountsAgree(regs[..n], regs[n]);
      CountsAgree(regs[..n], REGISTERS + 1);
      CountAll(regs[..n]);
      UnusedGrows(SetOf(regs[..n]), regs[n] + 1, REGISTERS + 1);
      assert Unused(SetOf(regs[..n]), regs[n] + 1) == Unused(SetOf(regs[..n]), regs[n]) + 1;
    }
  }

  /** How many numbers have `count` digits. */
  function Range(count: nat): (r: nat)
    requires count <= 6
    ensures r > 0
  {
    if count == 0 then 1 else Range(count - 1) * (7 - count)
  }

  lemma RangeFits(count: nat)
    requires count <= 6
    ensures Range(count) <= 720
  {
    assert Range(1) == 6 && Range(2) == 30 && Range(3) == 120 && Range(4) == 360 && Range(5) == 720;
  }

  lemma Divided(q: nat, d: nat, base: nat)
    requires d < base <= 6
    ensures (q * base + d) / base == q && (q * base + d) % base == d
  {
    match base
    case 1 => case 2 => case 3 => case 4 => case 5 => case 6 =>
  }

  lemma QuotientLarge(x: nat, base: nat, m: nat)
    requires 0 < base <= 6
    ensures x >= m * base ==> x / base >= m
    ensures x < m * base ==> x / base < m
  {
    match base
    case 1 => case 2 => case 3 => case 4 => case 5 => case 6 =>
  }

  lemma Monotone(a: nat, b: nat, m: nat)
    requires a <= b
    ensures a * m <= b * m
  {
    assert b * m == a * m + (b - a) * m;
  }

  lemma {:induction false} NumberBound(ds: seq<int>)
    requires |ds| <= 6 && InBase(ds)
    ensures 0 <= Number(ds) < Range(|ds|)
  {
    if ds != [] {
      var n := |ds| - 1;
      NumberBound(ds[..n]);
      Monotone(Number(ds[..n]) + 1, Range(n), 7 - |ds|);
      Monotone(0, Number(ds[..n]), 7 - |ds|);
    }
  }

  lemma {:induction false} DigitsOfNumber(ds: seq<int>)
    requires |ds| <= 6 && InBase(ds)
    ensures Number(ds) >= 0 && Digits(|ds|, Number(ds)) == ds
  {
    NumberBound(ds);
    if |ds| > 1 {
      var n := |ds| - 1;
      DigitsOfNumber(ds[..n]);
      Divided(Number(ds[..n]), ds[n], 7 - |ds|);
    } else if |ds| == 1 {
      assert Number(ds[..0]) == 0;
    }
  }

  lemma RegistersLast(ds: seq<int>, before: seq<nat>, u: nat)
    requires ds != [] && Registers(ds[..|ds| - 1]) == Some(before)
    requires Pick(SetOf(before), 1, ds[|ds| - 1]) == Some(u)
    ensures Registers(ds) == Some(before + [u])
  {
  }

  lemma {:induction false} RegistersOfRenumber(regs: seq<nat>)
    requires DistinctRegisters(regs)
    ensures InBase(Renumber(regs))
    ensures Registers(Renumber(regs)) == Some(regs)
  {
    RenumberInBase(regs);
    if regs != [] {
      var n := |regs| - 1;
      RegistersOfRenumber(regs[..n]);
      assert Renumber(regs)[..n] == Renumber(regs[..n]);
      CountsAgree(regs[..n], regs[n]);
      assert Unused(SetOf(regs[..n]), 1) == 0;
      PickFinds(SetOf(regs[..n]), 1, Renumber(regs)[n], regs[n]);
      RegistersLast(Renumber(regs), regs[..n], regs[n]);
      assert regs == regs[..n] + [regs[n]];
    }
  }

  /** The number of an order of registers, which fits ten bits. */
  function Encode(regs: seq<nat>): nat
    requires DistinctRegisters(regs)
  {
    RenumberInBase(regs);
    NumberBound(Renumber(regs));
    Number(Renumber(regs))
  }

  function Decode(count: nat, number: nat): Option<seq<nat>>
    requires count <= 6
  {
    Registers(Digits(count, number))
  }

  /** Decoding inverts encoding, for every choice and order of at most six registers. */
  lemma DecodeOfEncode(regs: seq<nat>)
    requires DistinctRegisters(regs)
    ensures |regs| <= 6 && Encode(regs) < 1024
    ensures Decode(|regs|, Encode(regs)) == Some(regs)
  {
    RenumberInBase(regs);
    NumberBound(Renumber(regs));
    RangeFits(|regs|);
    DigitsOfNumber(Renumber(regs));
    RegistersOfRenumber(regs);
  }

  lemma {:induction false} DigitsInBase(count: nat, number: nat)
    requires count <= 6 && number < Range(count)
    ensures InBase(Digits(count, number)) && Number(Digits(count, number)) == number
  {
    if count == 1 {
      assert Range(1) == 6;
      assert Digits(1, number)[..0] == [] && Number(Digits(1, number)[..0]) == 0;
    } else if count > 1 {
      var base := 7 - count;
      assert number == number / base * base + number % base;
      QuotientLarge(number, base, Range(count - 1));
      DigitsInBase(count - 1, number / base);
      assert Digits(count, number)[..count - 1] == Digits(count - 1, number / base);
    }
  }

  /** A digit in range stands for an unused register, which is renumbered as that digit. */
  lemma PickIsInRange(before: seq<nat>, d: nat)
    requires DistinctRegisters(before) && |before| + d < REGISTERS
    ensures var r := Pick(SetOf(before), 1, d);
            r.Some? && 1 <= r.value <= REGISTERS && r.value !in before && r.value - CountLess(before, r.value) - 1 == d
  {
    var used := SetOf(before);
    PickIsUnused(used, 1, d);
    CountsAgree(before, REGISTERS + 1);
    CountAll(before);
    var r := Pick(used, 1, d);
    if r.Some? { CountsAgree(before, r.value); }
  }

  lemma DistinctWithOneMore(before: seq<nat>, u: nat)
    requires DistinctRegisters(before) && 1 <= u <= REGISTERS && u !in before
    ensures DistinctRegisters(before + [u]) && Renumber(before + [u]) == Renumber(before) + [u - CountLess(before, u) - 1]
  {
    assert (before + [u])[..|before|] == before;
  }

  /** Digits in range stand for different registers, and for no others. */
  lemma {:induction false} RegistersAreDistinct(ds: seq<int>)
    requires |ds| <= 6 && InBase(ds)
    ensures Registers(ds).Some? && DistinctRegisters(Registers(ds).value) && Renumber(Registers(ds).value) == ds
  {
    if ds != [] {
      var n := |ds| - 1;
      RegistersAreDistinct(ds[..n]);
      var regs := OneMoreDistinct(ds, n, Registers(ds[..n]).value);
      assert ds == ds[..n] + [ds[n]];
    }
  }

  lemma OneMoreDistinct(ds: seq<int>, n: nat, before: seq<nat>) returns (regs: seq<nat>)
    requires |ds| == n + 1 && 0 <= ds[n] < REGISTERS - |before| && Registers(ds[..n]) == Some(before)
    requires DistinctRegisters(before) && Renumber(before) == ds[..n]
    ensures Registers(ds) == Some(regs) && DistinctRegisters(regs) && Renumber(regs) == ds[..n] + [ds[n]]
  {
    PickIsInRange(before, ds[n]);
    var u := Pick(SetOf(before), 1, ds[n]).value;
    DistinctWithOneMore(before, u);
    RegistersLast(ds, before, u);
    regs := before + [u];
  }

  /** A first digit out of range stands for nothing. */
  lemma {:induction false} TooLarge(count: nat, number: nat)
    requires 0 < count <= 6 && number >= Range(count)
    ensures Registers(Digits(count, number)) == None
  {
    var ds := Digits(count, number);
    if count == 1 {
      assert Range(1) == 6 && ds[..0] == [];
      assert SetOf([]) == {};
      PickIsUnused({}, 1, number);
      NoneUsed(REGISTERS + 1);
    } else {
      var base := 7 - count;
      QuotientLarge(number, base, Range(count - 1));
      TooLarge(count - 1, number / base);
      assert ds[..count - 1] == Digits(count - 1, number / base);
    }
  }

  /**
   A number decodes exactly if it is below the count of orders; then it gives
   that many different registers, and encoding them gives the number back.
   */
  lemma DecodesIff(count: nat, number: nat)
    requires count <= 6
    ensures count > 0 ==> (Decode(count, number).Some? <==> number < Range(count))
    ensures number < Range(count) ==>
              Decode(count, number).Some? &&
              var regs := Decode(count, number).value; |regs| == count && DistinctRegisters(regs) && Encode(regs) == number
  {
    if number < Range(count) {
      DigitsInBase(count, number);
      RegistersAreDistinct(Digits(count, number));
    } else if count > 0 {
      TooLarge(count, number);
    }
  }
}
