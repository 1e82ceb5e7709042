/**
 The stack allocator of the instrumentation runtime, on the 8-byte words of its
 mapped region: every block starts with a magic word and its own size in
 bytes, and `Deallocate` accepts a pointer only after reading those words back.
 Blocks start on 16-byte boundaries and are whole numbers of 16 bytes long, so
 their places and lengths, and the top of the stack, count 16-byte units.
 Pointers count words.
 */
module BumpAllocator {
  import opened Words

  const MAGIC: nat := 0x1122334455667788

  /** A live block, the 16 bytes of metadata in front of it included. */
  datatype Block = Block(first: nat, length: nat) {
    /** The pointer handed out for the block: just past its metadata. */
    function Payload(): nat { 2 * first + 2 }
    function End(): nat { first + length }
    function Bytes(): nat { 16 * length }
  }

  /** The length of the block that holds `size` bytes: with the metadata, rounded up to 16 bytes. */
  function BlockLength(size: nat): (r: nat)
    ensures size + 16 <= 16 * r < size + 32
  {
    (size + 16 + 15) / 16
  }

  /**
   Live blocks lie one after the other from the start of the region up to
   `top`, each with its metadata in front.
   */
  ghost predicate Holds(blocks: seq<Block>, top: nat, words: seq<nat>) {
    if blocks == [] then top == 0
    else
      var last := blocks[|blocks| - 1];
      && last.length > 1 && last.End() == top && 2 * top <= |words|
      && words[2 * last.first] == MAGIC && words[2 * last.first + 1] == last.Bytes()
      && Holds(blocks[..|blocks| - 1], last.first, words)
  }

  /** The pointers that were handed out for the live blocks, oldest first. */
  function Payloads(blocks: seq<Block>): (ps: seq<nat>)
    ensures |ps| == |blocks|
  {
    if blocks == [] then [] else Payloads(blocks[..|blocks| - 1]) + [blocks[|blocks| - 1].Payload()]
  }

  /** Words above the top of the stack do not matter. */
  lemma {:induction false} OnlyBelowTop(blocks: seq<Block>, top: nat, words: seq<nat>, words': seq<nat>)
    requires Holds(blocks, top, words) && 2 * top <= |words| == |words'|
    requires forall k :: 0 <= k < 2 * top ==> words'[k] == words[k]
    ensures Holds(blocks, top, words')
  {
    if blocks != [] {
      OnlyBelowTop(blocks[..|blocks| - 1], blocks[|blocks| - 1].first, words, words');
    }
  }

  lemma PushKeeps(blocks: seq<Block>, top: nat, words: seq<nat>, length: nat)
    requires Holds(blocks, top, words) && length > 1 && 2 * (top + length) <= |words|
    ensures var blocks' := blocks + [Block(top, length)];
            && Holds(blocks', top + length, words[2 * top := MAGIC][2 * top + 1 := 16 * length])
            && Payloads(blocks') == Payloads(blocks) + [2 * top + 2]
  {
    var blocks' := blocks + [Block(top, length)];
    assert blocks'[..|blocks'| - 1] == blocks;
    OnlyBelowTop(blocks, top, words, words[2 * top := MAGIC][2 * top + 1 := 16 * length]);
  }

  /** Every live block is below the top and has its metadata; all but the last end before the last starts. */
  lemma {:induction false} EveryBlock(blocks: seq<Block>, top: nat, words: seq<nat>, i: nat)
    requires Holds(blocks, top, words) && i < |blocks|
    ensures blocks[i].length > 1 && blocks[i].End() <= top && 2 * top <= |words|
    ensures words[2 * blocks[i].first] == MAGIC && words[2 * blocks[i].first + 1] == blocks[i].Bytes()
    ensures i < |blocks| - 1 ==> blocks[i].End() <= blocks[|blocks| - 1].first
  {
    var rest, last := blocks[..|blocks| - 1], blocks[|blocks| - 1];
    if i < |rest| {
      EveryBlock(rest, last.first, words, i);
    }
  }

  /** Live blocks never overlap. */
  lemma {:induction false} BlocksAreDisjoint(blocks: seq<Block>, top: nat, words: seq<nat>, i: nat, j: nat)
    requires Holds(blocks, top, words) && i < j < |blocks|
    ensures blocks[i].End() <= blocks[j].first
  {
    if j < |blocks| - 1 {
      BlocksAreDisjoint(blocks[..|blocks| - 1], blocks[|blocks| - 1].first, words, i, j);
    } else {
      EveryBlock(blocks, top, words, i);
    }
  }

  /** A store into the payload of a live block leaves all metadata alone. */
  lemma {:induction false} StoreKeeps(blocks: seq<Block>, top: nat, words: seq<nat>, i: nat, position: nat, value: nat)
    requires Holds(blocks, top, words) && i < |blocks|
    requires blocks[i].Payload() <= position < 2 * blocks[i].End() && position < |words|
    ensures Holds(blocks, top, words[position := value])
  {
    var rest, last := blocks[..|blocks| - 1], blocks[|blocks| - 1];
    if i < |rest| {
      EveryBlock(rest, last.first, words, i);
      StoreKeeps(rest, last.first, words, i, position, value);
    } else {
      OnlyBelowTop(rest, last.first, words, words[position := value]);
    }
  }

  /** Would a block of `size` bytes at `ptr` end at the top of the stack? Pointers wrap around at 2^64. */
  predicate SizeMatches(ptr: nat, top: nat, size: nat) {
    8 * ptr + size == 16 * top + 16 || 8 * ptr + size == 16 * top + 16 + TWO64
  }

  /**
   The checks of `Deallocate`: the size and magic word in front of `ptr`, or else
   those one word lower, where they are if the number of elements is in between.
   Size and magic word are looked at in that order.
   */
  predicate Accepted(words: seq<nat>, top: nat, ptr: nat)
    requires 2 <= ptr < |words|
  {
    if SizeMatches(ptr, top, words[ptr - 1]) then words[ptr - 2] == MAGIC
    else ptr >= 3 && SizeMatches(ptr, top, words[ptr - 2]) && words[ptr - 3] == MAGIC
  }

  /** Of the pointers that can be given for a live block, only the last block's own is accepted. */
  lemma AcceptsOnlyLast(blocks: seq<Block>, top: nat, words: seq<nat>, ptr: nat)
    requires Holds(blocks, top, words) && 16 * top + 16 < MAGIC
    requires exists i :: 0 <= i < |blocks| && ptr - 1 <= blocks[i].Payload() <= ptr
    ensures 2 <= ptr < |words| && (ptr == 2 ==> !SizeMatches(ptr, top, words[0]))
    ensures Accepted(words, top, ptr) <==> ptr == blocks[|blocks| - 1].Payload()
    ensures Accepted(words, top, ptr) ==> words[ptr - 1] == blocks[|blocks| - 1].Bytes()
  {
    var i :| 0 <= i < |blocks| && ptr - 1 <= blocks[i].Payload() <= ptr;
    EveryBlock(blocks, top, words, i);
  }

  class BumpPtrAllocator {
    const capacity: nat
    const words: array<nat>
    var top: nat
    ghost var blocks: seq<Block>

    ghost predicate Valid()
      reads this, words
    {
      && 16 * capacity < MAGIC && words.Length == 2 * capacity
      && top < capacity
      && Holds(blocks, top, words[..])
    }

    /** An allocator over a region of fresh zeros. */
    constructor (capacity: nat)
      requires 0 < 16 * capacity < MAGIC
      ensures Valid() && fresh(words) && this.capacity == capacity && blocks == [] && top == 0
    {
      this.capacity := capacity;
      words := new nat[2 * capacity](_ => 0);
      top := 0;
      blocks := [];
    }

    /** Puts a block on top of the stack; false when the reservation is used up, which stops the program. */
    method Allocate(size: nat) returns (ok: bool, ptr: nat)
      requires Valid() && 0 < size
      modifies this`top, this`blocks, words
      ensures ok <==> old(top) + BlockLength(size) < capacity
      ensures ok ==> Valid() && blocks == old(blocks) + [Block(old(top), BlockLength(size))]
      ensures ok ==> ptr == 2 * old(top) + 2 && Payloads(blocks) == Payloads(old(blocks)) + [ptr]
      ensures forall k :: 0 <= k < words.Length && k != 2 * old(top) && k != 2 * old(top) + 1 ==> words[k] == old(words[k])
    {
      var length := BlockLength(size);
      if top + length < capacity {
        PushKeeps(blocks, top, words[..], length);
      }
      ptr := 2 * top + 2;
      words[2 * top] := MAGIC;
      words[2 * top + 1] := 16 * length;
      assert words[..] == old(words[..])[2 * top := MAGIC][2 * top + 1 := 16 * length];
      blocks := blocks + [Block(top, length)];
      top := top + length;
      ok := top < capacity;
    }

    /** A store into the payload of a live block leaves all metadata alone. */
    method Store(i: nat, position: nat, value: nat)
      requires Valid() && i < |blocks| && blocks[i].Payload() <= position < 2 * blocks[i].End()
      modifies words
      ensures Valid() && position < words.Length && words[..] == old(words[..])[position := value]
    {
      EveryBlock(blocks, top, words[..], i);
      StoreKeeps(blocks, top, words[..], i, position, value);
      words[position] := value;
      assert words[..] == old(words[..])[position := value];
    }

    /**
     Takes a block off the stack. `ptr` is what `Allocate` returned for some live
     block, or one word further, where `new[]` puts the elements of a type whose
     number it has to remember. It is accepted if and only if it is what
     `Allocate` returned for the last live block; in particular the second
     check never accepts a pointer from `new[]`.
     */
    method Deallocate(ptr: nat) returns (ok: bool)
      requires Valid() && exists i :: 0 <= i < |blocks| && ptr - 1 <= blocks[i].Payload() <= ptr
      modifies this`top, this`blocks
      ensures ok <==> ptr == old(blocks)[|old(blocks)| - 1].Payload()
      ensures ok ==> Valid() && blocks == old(blocks)[..|old(blocks)| - 1] && top == old(blocks)[|old(blocks)| - 1].first
      ensures ok ==> Payloads(old(blocks)) == Payloads(blocks) + [ptr]
      ensures !ok ==> blocks == old(blocks) && top == old(top)
    {
      AcceptsOnlyLast(blocks, top, words[..], ptr);
      ok := Check(ptr);
      if ok {
        assert words[ptr - 1] / 16 == blocks[|blocks| - 1].length;
        top := top - words[ptr - 1] / 16;
        blocks := blocks[..|blocks| - 1];
      }
    }

    method Check(ptr: nat) returns (ok: bool)
      requires 2 <= ptr < words.Length && (ptr == 2 ==> !SizeMatches(ptr, top, words[0]))
      ensures ok <==> Accepted(words[..], top, ptr)
    {
      var m := ptr - 2;
      if !SizeMatches(ptr, top, words[m + 1]) {
        // Perhaps a pointer from new[], with the number of elements in front
        m := m - 1;
        if !SizeMatches(ptr, top, words[m + 1]) {
          return false;
        }
      }
      ok := words[m] == MAGIC;
    }
  }
}
