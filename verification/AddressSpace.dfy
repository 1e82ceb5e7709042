/**
 Numbers in memory. Addresses index `mem`; reading outside it stops the program.
 */
module AddressSpace {
  import opened Leb128
  import opened Words

  /** A number of `size` bytes, least significant byte first. */
  function LittleEndian(mem: seq<byte>, p: nat, size: nat): nat
    requires p + size <= |mem|
    decreases size
  {
    if size == 0 then 0 else mem[p] + 256 * LittleEndian(mem, p + 1, size - 1)
  }

  function Fixed(mem: seq<byte>, p: nat, size: nat): Decoded<nat> {
    if p + size <= |mem| then Value(LittleEndian(mem, p, size), p + size) else Abort
  }

  // ---------- The other way ----------

  /** A number in `size` bytes. */
  function Bytes(x: nat, size: nat): (s: seq<byte>)
    ensures |s| == size
  {
    if size == 0 then [] else [x % 256] + Bytes(x / 256, size - 1)
  }

  /** How many numbers fit `size` bytes. */
  function Powers(size: nat): nat { if size == 0 then 1 else 256 * Powers(size - 1) }

  lemma {:induction false} PowersOfTwo(size: nat)
    ensures Powers(size) == Pow2(8 * size)
  {
    if size > 0 {
      PowersOfTwo(size - 1);
      PowerAdds(8 * (size - 1), 8);
      assert Pow2(8) == 256 by { assert Pow2(4) == 16; }
    }
  }

  lemma AtFirst(mem: seq<byte>, p: nat, b: byte, t: seq<byte>)
    requires At(mem, p, [b] + t)
    ensures p < |mem| && mem[p] == b && At(mem, p + 1, t)
  {
    AtSplit(mem, p, [b], t);
    assert [b][0] == mem[p + 0];
  }

  lemma {:induction false} BytesDecode(x: nat, size: nat, mem: seq<byte>, p: nat)
    requires x < Powers(size) && At(mem, p, Bytes(x, size))
    ensures LittleEndian(mem, p, size) == x
  {
    if size > 0 {
      AtFirst(mem, p, x % 256, Bytes(x / 256, size - 1));
      BytesDecode(x / 256, size - 1, mem, p + 1);
    }
  }
}
