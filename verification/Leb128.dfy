/**
 The variable-length integers of DWARF (section 7.6 of DWARF 3): seven bits to
 a byte, least significant first, the high bit set on all bytes but the last.
 */
module Leb128 {
  import opened Words

  /** A decoded number and the address after it, or the program stopped. */
  datatype Decoded<+T> = Value(value: T, next: nat) | Abort {
    predicate IsFailure() { Abort? }

    function PropagateFailure<U>(): Decoded<U>
      requires IsFailure()
    {
      Abort
    }

    function Extract(): Decoded<T>
      requires !IsFailure()
    {
      this
    }
  }

  function Pow128(n: nat): (r: nat)
    ensures r > 0
  {
    if n == 0 then 1 else 128 * Pow128(n - 1)
  }

  /** The low seven bits of every byte, as one number. */
  function Unsigned(s: seq<byte>): nat {
    if s == [] then 0 else Unsigned(s[..|s| - 1]) + (s[|s| - 1] % 128) * Pow128(|s| - 1)
  }

  /** The same with the last byte's bit 6 as sign. */
  function Signed(s: seq<byte>): int
    requires s != []
  {
    Unsigned(s) - if s[|s| - 1] % 128 >= 64 then Pow128(|s|) else 0
  }

  /** The length of the encoding at `p`: up to the first byte below 128, which has to come before `end`; zero if none does. */
  function Length(mem: seq<byte>, p: nat, end: nat): (n: nat)
    requires p <= end <= |mem|
    ensures p + n <= end
    ensures n > 0 ==> mem[p + n - 1] < 128 && forall i :: p <= i < p + n - 1 ==> mem[i] >= 128
    ensures n == 0 ==> forall i :: p <= i < end ==> mem[i] >= 128
    decreases end - p
  {
    if p == end then 0
    else if mem[p] < 128 then 1
    else
      var rest := Length(mem, p + 1, end);
      if rest == 0 then 0 else rest + 1
  }

  /** Accepted are exactly the encodings of at most ten bytes of a number below 2^64. */
  function DecodeUnsigned(mem: seq<byte>, p: nat, end: nat): Decoded<nat>
    requires p <= end <= |mem|
  {
    var n := Length(mem, p, end);
    if 0 < n <= 10 && Unsigned(mem[p..p + n]) < TWO64 then Value(Unsigned(mem[p..p + n]), p + n) else Abort
  }

  /** Encodings of at most ten bytes give their number modulo 2^64; longer ones have no defined meaning. */
  function DecodeSigned(mem: seq<byte>, p: nat, end: nat): Decoded<int>
    requires p <= end <= |mem|
  {
    var n := Length(mem, p, end);
    if 0 < n <= 10 then Value(ToInt64(Signed(mem[p..p + n])), p + n) else Abort
  }

  lemma {:induction false} UnsignedBound(s: seq<byte>)
    ensures Unsigned(s) < Pow128(|s|)
  {
    if s != [] {
      UnsignedBound(s[..|s| - 1]);
      TimesMonotone(s[|s| - 1] % 128, 127, Pow128(|s| - 1));
    }
  }

  /** A longer encoding with the same first bytes is at least as large. */
  lemma {:induction false} UnsignedGrows(s: seq<byte>, k: nat)
    requires k <= |s|
    ensures Unsigned(s[..k]) <= Unsigned(s)
  {
    if k < |s| {
      UnsignedGrows(s[..|s| - 1], k);
      TimesMonotone(0, s[|s| - 1] % 128, Pow128(|s| - 1));
      assert s[..|s| - 1][..k] == s[..k];
    } else {
      assert s[..k] == s;
    }
  }

  lemma TenthPower()
    ensures Pow128(0) == 1 && Pow128(1) == 128 && Pow128(9) == TWO63 && Pow128(10) == 64 * TWO64
  {
    assert Pow128(3) == 0x20_0000;
    assert Pow128(6) == 0x400_0000_0000;
  }

  lemma {:induction false} Power128Adds(a: nat, b: nat)
    ensures Pow128(a + b) == Pow128(a) * Pow128(b)
  {
    if b > 0 { Power128Adds(a, b - 1); }
  }

  /** A digit that fits leaves room for everything below it. */
  lemma RoomBelow(k: nat, b: nat)
    requires k <= 9 && b * Pow128(k) < TWO64
    ensures (b + 1) * Pow128(k) <= TWO64
  {
    TenthPower();
    Power128Adds(9 - k, k);
    Doubled(Pow128(9 - k), Pow128(k));
    LeavesRoom(2 * Pow128(9 - k), b, Pow128(k));
  }

  lemma Doubled(a: nat, m: nat)
    ensures (2 * a) * m == 2 * (a * m)
  {
  }

  lemma LeavesRoom(q: nat, b: nat, m: nat)
    requires b * m < q * m
    ensures (b + 1) * m <= q * m
  {
    TimesMonotone(q, b, m);
    TimesMonotone(b + 1, q, m);
  }

  lemma TimesMonotone(a: nat, b: nat, m: nat)
    ensures a <= b ==> a * m <= b * m
  {
    if a <= b { assert b * m == a * m + (b - a) * m; }
  }

  lemma LengthIs(mem: seq<byte>, p: nat, end: nat, n: nat)
    requires p <= end <= |mem| && 0 < n <= end - p
    requires mem[p + n - 1] < 128 && forall i :: p <= i < p + n - 1 ==> mem[i] >= 128
    ensures Length(mem, p, end) == n
  {
    var l := Length(mem, p, end);
  }

  /** Once a byte does not fit, whatever follows, the encoding is refused. */
  lemma TooLong(mem: seq<byte>, addr: nat, end: nat, p: nat)
    requires addr <= p < end <= |mem| && forall i :: addr <= i < p ==> mem[i] >= 128
    requires p - addr >= 10 || (mem[p] % 128) * Pow128(p - addr) >= TWO64
    ensures DecodeUnsigned(mem, addr, end) == Abort
  {
    var n := Length(mem, addr, end);
    if n > 0 && p - addr < 10 {
      assert n > p - addr;
      var s, k := mem[addr..addr + n], p - addr;
      UnsignedGrows(s, k + 1);
      assert s[..k + 1][..k] == s[..k];
    }
  }

  /**
   The loop that decodes an unsigned number. Shifting by `bit` is multiplying
   by a power of two, and adding bits above all those there already is adding.
   */
  method GetUnsigned(mem: seq<byte>, addr: nat, end: nat) returns (r: Decoded<nat>)
    requires addr <= end <= |mem|
    ensures r == DecodeUnsigned(mem, addr, end)
  {
    var p, result, shift, bit := addr, 0, 1, 0;
    TenthPower();
    while true
      invariant addr <= p <= end && bit == 7 * (p - addr) && p - addr <= 10 && shift == Pow128(p - addr)
      invariant result == Unsigned(mem[addr..p]) && result < TWO64
      invariant forall i :: addr <= i < p ==> mem[i] >= 128
      decreases end - p
    {
      if p == end { return Abort; }
      var b := mem[p] % 128;
      if bit >= 64 || b * shift >= TWO64 {
        TooLong(mem, addr, end, p);
        return Abort;
      }
      NextByte(mem, addr, p);
      RoomBelow(p - addr, b);
      result := result + b * shift;
      bit := bit + 7;
      shift := 128 * shift;
      p := p + 1;
      if mem[p - 1] < 128 { break; }
    }
    LengthIs(mem, addr, end, p - addr);
    r := Value(result, p);
  }

  lemma NextByte(mem: seq<byte>, addr: nat, p: nat)
    requires addr <= p < |mem|
    ensures Unsigned(mem[addr..p + 1]) == Unsigned(mem[addr..p]) + (mem[p] % 128) * Pow128(p - addr)
    ensures Unsigned(mem[addr..p]) < Pow128(p - addr)
  {
    assert mem[addr..p + 1][..p - addr] == mem[addr..p];
    UnsignedBound(mem[addr..p]);
  }

  lemma NextWrapped(mem: seq<byte>, addr: nat, p: nat, result: nat)
    requires addr <= p < |mem| && result == Unsigned(mem[addr..p]) % TWO64
    ensures (result + (mem[p] % 128) * Pow128(p - addr)) % TWO64 == Unsigned(mem[addr..p + 1]) % TWO64
  {
    NextByte(mem, addr, p);
    WrapAdds(Unsigned(mem[addr..p]), (mem[p] % 128) * Pow128(p - addr));
  }

  /**
   The loop that decodes a signed number, in unsigned 64-bit arithmetic; a
   shift by 64 or more, which has no meaning, counts as stopping.
   */
  method GetSigned(mem: seq<byte>, addr: nat, end: nat) returns (r: Decoded<int>)
    requires addr <= end <= |mem|
    ensures r == DecodeSigned(mem, addr, end)
  {
    var p, result, shift, bit := addr, 0, 1, 0;
    while true
      invariant addr <= p <= end && bit == 7 * (p - addr) && p - addr <= 10 && shift == Pow128(p - addr)
      invariant result == Unsigned(mem[addr..p]) % TWO64
      invariant forall i :: addr <= i < p ==> mem[i] >= 128
      decreases end - p
    {
      if p == end { return Abort; }
      if bit >= 64 { return Abort; }
      NextWrapped(mem, addr, p, result);
      result := (result + (mem[p] % 128) * shift) % TWO64;
      bit := bit + 7;
      shift := 128 * shift;
      p := p + 1;
      if mem[p - 1] < 128 { break; }
    }
    SignExtends(mem, addr, p, end, result);
    if mem[p - 1] % 128 >= 64 && bit < 64 {
      // Set all bits from `bit` up
      result := result + (TWO64 - shift);
    }
    r := Value(ToInt64(result), p);
  }

  lemma SameModulo(x: int, y: int, q: int)
    requires x == q * TWO64 + y
    ensures ToInt64(x) == ToInt64(y)
  {
    WrapMultiple(q, y + TWO63);
  }

  lemma SignShort(s: seq<byte>, result: nat)
    requires 0 < |s| < 10 && result == Unsigned(s) % TWO64
    ensures Pow128(|s|) <= TWO63
    ensures ToInt64(if s[|s| - 1] % 128 >= 64 then result + (TWO64 - Pow128(|s|)) else result) == ToInt64(Signed(s))
  {
    TenthPower();
    UnsignedBound(s);
    Power128Adds(9 - |s|, |s|);
    TimesMonotone(1, Pow128(9 - |s|), Pow128(|s|));
    if s[|s| - 1] % 128 >= 64 { SameModulo(result + (TWO64 - Pow128(|s|)), Signed(s), 1); }
  }

  lemma SignLong(s: seq<byte>, result: nat)
    requires |s| == 10 && result == Unsigned(s) % TWO64
    ensures ToInt64(result) == ToInt64(Signed(s))
  {
    TenthPower();
    var q := Unsigned(s) / TWO64;
    assert Unsigned(s) == q * TWO64 + result;
    SameModulo(Unsigned(s), result, q);
    if s[|s| - 1] % 128 >= 64 { SameModulo(Unsigned(s), Signed(s), 64); }
  }

  /** Sign extension gives the signed number: by setting the high bits, or by having wrapped around already. */
  lemma SignExtends(mem: seq<byte>, addr: nat, p: nat, end: nat, result: nat)
    requires addr < p <= end <= |mem| && p - addr <= 10 && result == Unsigned(mem[addr..p]) % TWO64
    requires mem[p - 1] < 128 && forall i :: addr <= i < p - 1 ==> mem[i] >= 128
    ensures var high := if mem[p - 1] % 128 >= 64 && p - addr < 10 then TWO64 - Pow128(p - addr) else 0;
            DecodeSigned(mem, addr, end) == Value(ToInt64(result + high), p)
    ensures p - addr < 10 ==> Pow128(p - addr) <= TWO63
  {
    var s := mem[addr..p];
    LengthIs(mem, addr, end, |s|);
    if |s| < 10 { SignShort(s, result); } else { SignLong(s, result); }
  }

  // ---------- Encoding ----------

  /** The shortest encoding of an unsigned number. */
  function EncodeUnsigned(v: nat): (r: seq<byte>)
    ensures r != []
  {
    if v < 128 then [v] else [v % 128 + 128] + EncodeUnsigned(v / 128)
  }

  /** The shortest encoding of a signed number: until what is left is all sign. */
  function EncodeSigned(v: int): (r: seq<byte>)
    ensures r != []
    decreases if v < 0 then -v else v
  {
    if -64 <= v < 64 then [v % 128] else [v % 128 + 128] + EncodeSigned(v / 128)
  }

  lemma Regroup(d: nat, m: nat)
    ensures d * (128 * m) == 128 * (d * m)
  {
  }

  /** The value of an encoding, from its first byte on. */
  lemma {:induction false} UnsignedFirst(s: seq<byte>)
    requires s != []
    ensures Unsigned(s) == s[0] % 128 + 128 * Unsigned(s[1..])
  {
    if |s| == 1 {
      assert s[..0] == [] && s[1..] == [];
      assert Unsigned(s[..0]) == 0 && Pow128(0) == 1;
    } else {
      UnsignedFirst(s[..|s| - 1]);
      assert s[..|s| - 1][1..] == s[1..][..|s| - 2];
      Regroup(s[|s| - 1] % 128, Pow128(|s| - 2));
    }
  }

  lemma SignedFirst(s: seq<byte>)
    requires |s| > 1
    ensures Signed(s) == s[0] % 128 + 128 * Signed(s[1..])
  {
    UnsignedFirst(s);
  }

  lemma {:induction false} EncodeUnsignedIsRight(v: nat, k: nat)
    requires v < Pow128(k) && k > 0
    ensures var s := EncodeUnsigned(v);
            && Unsigned(s) == v && |s| <= k
            && s[|s| - 1] < 128 && forall i :: 0 <= i < |s| - 1 ==> s[i] >= 128
  {
    EncodeUnsignedValue(v);
    if v >= 128 {
      if k == 1 { TenthPower(); }
      EncodeUnsignedIsRight(v / 128, k - 1);
      StillTerminated(v % 128 + 128, EncodeUnsigned(v / 128));
    }
  }

  lemma {:induction false} EncodeUnsignedValue(v: nat)
    ensures Unsigned(EncodeUnsigned(v)) == v
  {
    var s := EncodeUnsigned(v);
    UnsignedFirst(s);
    if v < 128 {
      assert s[1..] == [];
    } else {
      EncodeUnsignedValue(v / 128);
      assert s[1..] == EncodeUnsigned(v / 128);
    }
  }

  lemma StillTerminated(b: byte, rest: seq<byte>)
    requires b >= 128 && rest != [] && rest[|rest| - 1] < 128 && forall i :: 0 <= i < |rest| - 1 ==> rest[i] >= 128
    ensures var s := [b] + rest; s[|s| - 1] < 128 && forall i :: 0 <= i < |s| - 1 ==> s[i] >= 128
  {
  }

  lemma SignedDigit(v: int)
    requires -64 <= v < 64
    ensures v == v % 128 - if v % 128 >= 64 then 128 else 0
  {
  }

  lemma WithoutHighBit(x: nat)
    requires x < 128
    ensures (x + 128) % 128 == x
  {
  }

  lemma {:induction false} EncodeSignedIsRight(v: int, k: nat)
    requires k > 0 && -64 * Pow128(k - 1) <= v < 64 * Pow128(k - 1)
    ensures var s := EncodeSigned(v);
            && Signed(s) == v && |s| <= k
            && s[|s| - 1] < 128 && forall i :: 0 <= i < |s| - 1 ==> s[i] >= 128
    decreases k
  {
    var s := EncodeSigned(v);
    UnsignedFirst(s);
    if -64 <= v < 64 {
      assert s[1..] == [] && Pow128(1) == 128;
      SignedDigit(v);
    } else {
      if k == 1 { TenthPower(); }
      EncodeSignedIsRight(v / 128, k - 1);
      assert s[1..] == EncodeSigned(v / 128);
      SignedFirst(s);
      WithoutHighBit(v % 128);
      assert s[0] == v % 128 + 128;
    }
  }

  /** `mem` holds `s` at `p`. */
  predicate At(mem: seq<byte>, p: nat, s: seq<byte>) { p + |s| <= |mem| && forall i :: 0 <= i < |s| ==> s[i] == mem[p + i] }

  lemma AtSplit(mem: seq<byte>, p: nat, s: seq<byte>, t: seq<byte>)
    requires At(mem, p, s + t)
    ensures At(mem, p, s) && At(mem, p + |s|, t)
  {
    forall i | 0 <= i < |s| ensures s[i] == mem[p + i] { assert (s + t)[i] == mem[p + i]; }
    forall i | 0 <= i < |t| ensures t[i] == mem[p + |s| + i] { assert (s + t)[|s| + i] == mem[p + (|s| + i)]; }
  }

  lemma AtIsSlice(mem: seq<byte>, p: nat, s: seq<byte>)
    requires At(mem, p, s)
    ensures mem[p..p + |s|] == s
  {
  }

  /** Decoding inverts encoding for every 64-bit number, and consumes exactly the encoding. */
  lemma UnsignedRoundTrip(mem: seq<byte>, p: nat, end: nat, v: nat)
    requires v < TWO64 && At(mem, p, EncodeUnsigned(v)) && p + |EncodeUnsigned(v)| <= end <= |mem|
    ensures DecodeUnsigned(mem, p, end) == Value(v, p + |EncodeUnsigned(v)|)
  {
    var s := EncodeUnsigned(v);
    TenthPower();
    EncodeUnsignedIsRight(v, 10);
    EncodingHasLength(mem, p, end, s);
    AtIsSlice(mem, p, s);
    ReadsUnsigned(mem, p, end, s, v);
  }

  lemma ReadsUnsigned(mem: seq<byte>, p: nat, end: nat, s: seq<byte>, v: nat)
    requires p + |s| <= end <= |mem| && mem[p..p + |s|] == s && 0 < |s| <= 10 && Length(mem, p, end) == |s|
    requires Unsigned(s) == v && v < TWO64
    ensures DecodeUnsigned(mem, p, end) == Value(v, p + |s|)
  {
  }

  lemma ReadsSigned(mem: seq<byte>, p: nat, end: nat, s: seq<byte>, v: int)
    requires p + |s| <= end <= |mem| && mem[p..p + |s|] == s && 0 < |s| <= 10 && Length(mem, p, end) == |s|
    requires Signed(s) == v && -TWO63 <= v < TWO63
    ensures DecodeSigned(mem, p, end) == Value(v, p + |s|)
  {
  }

  lemma SignedRoundTrip(mem: seq<byte>, p: nat, end: nat, v: int)
    requires -TWO63 <= v < TWO63 && At(mem, p, EncodeSigned(v)) && p + |EncodeSigned(v)| <= end <= |mem|
    ensures DecodeSigned(mem, p, end) == Value(v, p + |EncodeSigned(v)|)
  {
    var s := EncodeSigned(v);
    TenthPower();
    EncodeSignedIsRight(v, 10);
    EncodingHasLength(mem, p, end, s);
    AtIsSlice(mem, p, s);
    ReadsSigned(mem, p, end, s, v);
  }

  lemma EncodingHasLength(mem: seq<byte>, p: nat, end: nat, s: seq<byte>)
    requires At(mem, p, s) && p + |s| <= end <= |mem| && s != []
    requires s[|s| - 1] < 128 && forall i :: 0 <= i < |s| - 1 ==> s[i] >= 128
    ensures Length(mem, p, end) == |s|
  {
    forall i | p <= i < p + |s| ensures mem[i] == s[i - p] { assert s[i - p] == mem[p + (i - p)]; }
    LengthIs(mem, p, end, |s|);
  }
}
