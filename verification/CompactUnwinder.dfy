/**
 The stepper for functions without a frame pointer, working in place: it
 takes a number apart into digits, turns the digits into registers, and loads
 them one by one.
 */
module CompactUnwinder {
  import opened FramelessStep
  import opened Permutations
  import opened Words
  import opened Wrappers

  /** Dividing by the weights, the largest first, gives the digits. */
  lemma Peeled5(p: nat, d0: nat, d1: nat, d2: nat, d3: nat, d4: nat)
    requires p == d0 * 120 + d1 * 24 + d2 * 6 + d3 * 2 + d4 && d1 < 5 && d2 < 4 && d3 < 3 && d4 < 2
    ensures p / 120 == d0 && (p - d0 * 120) / 24 == d1 && (p - d0 * 120 - d1 * 24) / 6 == d2
    ensures (p - d0 * 120 - d1 * 24 - d2 * 6) / 2 == d3
  {
  }

  lemma Peeled4(p: nat, d0: nat, d1: nat, d2: nat, d3: nat)
    requires p == d0 * 60 + d1 * 12 + d2 * 3 + d3 && d1 < 5 && d2 < 4 && d3 < 3
    ensures p / 60 == d0 && (p - d0 * 60) / 12 == d1 && (p - d0 * 60 - d1 * 12) / 3 == d2
  {
  }

  lemma Peeled3(p: nat, d0: nat, d1: nat, d2: nat)
    requires p == d0 * 20 + d1 * 4 + d2 && d1 < 5 && d2 < 4
    ensures p / 20 == d0 && (p - d0 * 20) / 4 == d1
  {
  }

  lemma FiveDigits(p: nat, n: nat)
    requires n == 5 || n == 6
    ensures var d0 := p / 120;
            var p1: int := p - d0 * 120;
            var d1 := p1 / 24;
            var p2 := p1 - d1 * 24;
            var d2 := p2 / 6;
            var p3 := p2 - d2 * 6;
            var d3 := p3 / 2;
            Digits(n, p) == [d0, d1, d2, d3, p3 - d3 * 2] + if n == 6 then [0] else []
  {
    var q1 := p / 2;
    var q2 := q1 / 3;
    var q3 := q2 / 4;
    var d0, d1, d2, d3, d4 := q3 / 5, q3 % 5, q2 % 4, q1 % 3, p % 2;
    assert Digits(2, q3) == [d0, d1] by { assert Digits(1, d0) == [d0]; }
    assert Digits(3, q2) == [d0, d1, d2];
    assert Digits(4, q1) == [d0, d1, d2, d3];
    assert Digits(5, p) == [d0, d1, d2, d3, d4];
    assert n == 6 ==> Digits(6, p) == Digits(5, p / 1) + [p % 1];
    Peeled5(p, d0, d1, d2, d3, d4);
  }

  lemma FourDigits(p: nat)
    ensures var d0 := p / 60;
            var p1: int := p - d0 * 60;
            var d1 := p1 / 12;
            var p2 := p1 - d1 * 12;
            var d2 := p2 / 3;
            Digits(4, p) == [d0, d1, d2, p2 - d2 * 3]
  {
    var q1 := p / 3;
    var q2 := q1 / 4;
    var d0, d1, d2, d3 := q2 / 5, q2 % 5, q1 % 4, p % 3;
    assert Digits(2, q2) == [d0, d1] by { assert Digits(1, d0) == [d0]; }
    assert Digits(3, q1) == [d0, d1, d2];
    Peeled4(p, d0, d1, d2, d3);
  }

  lemma ThreeDigits(p: nat)
    ensures Digits(3, p) == [p / 20, (p - p / 20 * 20) / 4, p - p / 20 * 20 - (p - p / 20 * 20) / 4 * 4]
  {
    var q := p / 4;
    var d0, d1, d2 := q / 5, q % 5, p % 4;
    assert Digits(2, q) == [d0, d1] by { assert Digits(1, d0) == [d0]; }
    Peeled3(p, d0, d1, d2);
  }

  lemma TwoDigits(p: nat)
    ensures Digits(2, p) == [p / 5, p - p / 5 * 5]
  {
    assert Digits(1, p / 5) == [p / 5];
  }

  /** Divides by the weight of every digit, the largest first. */
  method DecompressPermutation(count: nat, number: nat) returns (digits: array<int>)
    requires count <= 6
    ensures fresh(digits) && digits.Length == 6 && digits[..count] == Digits(count, number)
  {
    digits := new int[6](_ => 0);
    var permutation: int := number;
    if count >= 5 {
      digits[0] := permutation / 120;
      permutation := permutation - digits[0] * 120;
      digits[1] := permutation / 24;
      permutation := permutation - digits[1] * 24;
      digits[2] := permutation / 6;
      permutation := permutation - digits[2] * 6;
      digits[3] := permutation / 2;
      permutation := permutation - digits[3] * 2;
      digits[4] := permutation;
      if count == 6 { digits[5] := 0; }
      FiveDigits(number, count);
      assert digits[..5] == [digits[0], digits[1], digits[2], digits[3], digits[4]];
      assert digits[..count] == digits[..5] + if count == 6 then [0] else [];
    } else if count == 4 {
      digits[0] := permutation / 60;
      permutation := permutation - digits[0] * 60;
      digits[1] := permutation / 12;
      permutation := permutation - digits[1] * 12;
      digits[2] := permutation / 3;
      permutation := permutation - digits[2] * 3;
      digits[3] := permutation;
      FourDigits(number);
    } else if count == 3 {
      digits[0] := permutation / 20;
      permutation := permutation - digits[0] * 20;
      digits[1] := permutation / 4;
      permutation := permutation - digits[1] * 4;
      digits[2] := permutation;
      ThreeDigits(number);
    } else if count == 2 {
      digits[0] := permutation / 5;
      permutation := permutation - digits[0] * 5;
      digits[1] := permutation;
      TwoDigits(number);
    } else if count == 1 {
      digits[0] := permutation;
    }
  }

  /** The registers marked as used. */
  ghost function Used(used: array<bool>): set<nat>
    requires used.Length == 7
    reads used
  {
    set u: nat | 1 <= u < 7 && used[u]
  }

  /** Counts the unused registers up to the digit, and marks the one found. */
  method TakeRegister(used: array<bool>, digit: int) returns (r: nat)
    requires used.Length == 7
    modifies used
    ensures match Pick(old(Used(used)), 1, digit)
            case None => r == 0 && Used(used) == old(Used(used))
            case Some(u) => r == u && 1 <= u <= REGISTERS && Used(used) == old(Used(used)) + {u}
  {
    var renum, u := 0, 1;
    while u < 7
      invariant 1 <= u <= 7 && Used(used) == old(Used(used))
      invariant Pick(old(Used(used)), u, digit - renum) == Pick(old(Used(used)), 1, digit)
    {
      assert u in Used(used) <==> used[u];
      if !used[u] {
        if renum == digit {
          used[u] := true;
          assert Used(used) == old(Used(used)) + {u};
          return u;
        }
        renum := renum + 1;
      }
      u := u + 1;
    }
    r := 0;
  }

  /** Turns digits into registers; false if one stands for none. */
  method Renumbered(digits: array<int>, count: nat) returns (ok: bool, saved: array<nat>)
    requires count <= 6 && digits.Length == 6
    ensures fresh(saved) && saved.Length == 6
    ensures var regs := Registers(digits[..count]); ok == regs.Some? && (ok ==> saved[..count] == regs.value)
  {
    saved := new nat[6](_ => 0);
    var used := new bool[7](_ => false);
    var i := 0;
    ghost var ds := digits[..count];
    assert Used(used) == SetOf([]);
    while i < count
      invariant 0 <= i <= count && digits[..count] == ds
      invariant Registers(ds[..i]) == Some(saved[..i]) && Used(used) == SetOf(saved[..i])
    {
      ghost var before := saved[..i];
      var r := TakeRegister(used, digits[i]);
      OneMore(ds, i, before);
      if r == 0 { return false, saved; }
      saved[i] := r;
      assert saved[..i + 1] == before + [r];
      i := i + 1;
    }
    assert ds[..count] == ds;
    ok := true;
  }

  /** One more digit: a register more, or nothing at all. */
  lemma OneMore(ds: seq<int>, i: nat, before: seq<nat>)
    requires i < |ds| && Registers(ds[..i]) == Some(before)
    ensures match Pick(SetOf(before), 1, ds[i])
            case None => Registers(ds) == None
            case Some(u) => Registers(ds[..i + 1]) == Some(before + [u]) && SetOf(before + [u]) == SetOf(before) + {u}
  {
    assert ds[..i + 1][..i] == ds[..i];
    if Pick(SetOf(before), 1, ds[i]) == None { Stuck(ds, i + 1); }
  }

  /** Once a digit stands for nothing, so do all of them. */
  lemma {:induction false} Stuck(ds: seq<int>, k: nat)
    requires k <= |ds| && Registers(ds[..k]) == None
    ensures Registers(ds) == None
  {
    if k < |ds| {
      assert ds[..|ds| - 1][..k] == ds[..k];
      Stuck(ds[..|ds| - 1], k);
    } else {
      assert ds[..k] == ds;
    }
  }

  class RegisterFile {
    const general: array<word64>
    var ip: word64

    ghost predicate Valid() { general.Length == 16 }

    ghost function View(): (f: File)
      requires Valid()
      reads this, general
      ensures Sized(f)
    {
      File(general[..], ip)
    }

    constructor (f: File)
      requires Sized(f)
      ensures Valid() && fresh(general) && View() == f
    {
      general := new word64[16](i requires 0 <= i < 16 => f.general[i]);
      ip := f.ip;
      new;
      assert general[..] == f.general;
    }

    /** Takes the return address from `location`. */
    method FramelessUnwind(location: word64, mem: Memory)
      requires Valid()
      modifies this`ip, general
      ensures View() == Return(location, old(View()), mem)
    {
      ip := mem.get64(location);
      general[RSP] := Wrap64(location + 8);
    }

    /** Steps out of the function; false if the encoding has no meaning. */
    method StepWithCompactEncodingFrameless(e: word32, functionStart: nat, mem: Memory, indirect: bool) returns (ok: bool)
      requires Valid()
      modifies this`ip, general
      ensures match Step(e, functionStart, old(View()), mem, indirect)
              case Undefined => !ok && View() == old(View())
              case Stepped(f) => ok && View() == f
    {
      var stackSize := StackSizeField(e) * 8;
      var count := CountField(e);
      if indirect {
        stackSize := (mem.get32(functionStart + StackSizeField(e)) + 8 * AdjustField(e)) % TWO32;
      }
      if count == 7 { return false; }
      var digits := DecompressPermutation(count, PermutationField(e));
      var saved;
      ok, saved := Renumbered(digits, count);
      if !ok { return; }
      assert Saved(e) == Some(saved[..count]);
      LoadRegisters(saved, count, stackSize, mem);
    }

    method LoadRegisters(saved: array<nat>, count: nat, stackSize: nat, mem: Memory)
      requires Valid() && count <= 6 && saved.Length == 6 && InRange(saved[..count])
      modifies this`ip, general
      ensures Stepped(View()) == StepWith(Some(old(saved[..count])), stackSize, old(View()), mem)
    {
      ghost var regs := saved[..count];
      ghost var base: word64 := Wrap64(general[RSP] + stackSize - 8 - 8 * count);
      var savedRegisters := Wrap64(general[RSP] as int + stackSize - 8 - 8 * count);
      var i := 0;
      while i < count
        invariant 0 <= i <= count && savedRegisters == Wrap64(base + 8 * i)
        invariant View() == Load(regs[..i], base, old(View()), mem)
      {
        assert InRange(regs) && regs[i] == saved[i];
        assert regs[..i + 1][..i] == regs[..i];
        general[General(saved[i])] := mem.get64(savedRegisters);
        NextSlot(base, i);
        savedRegisters := Wrap64(savedRegisters as int + 8);
        i := i + 1;
      }
      assert regs[..count] == regs;
      FramelessUnwind(savedRegisters, mem);
    }
  }

  lemma NextSlot(base: nat, i: nat)
    ensures Wrap64(Wrap64(base + 8 * i) + 8) == Wrap64(base + 8 * (i + 1))
  {
    var q := (base + 8 * i) / TWO64;
    assert base + 8 * (i + 1) == q * TWO64 + (Wrap64(base + 8 * i) + 8);
  }
}
