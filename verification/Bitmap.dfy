/** The on-disk bitmap and its allocator. */
module Bitmaps {
  import opened Layout
  import opened FirstFit

  const ENOENT := 2

  function Mask(i: nat): bv8
    requires i < 8
  {
    if i == 0 then 1 else if i == 1 then 2 else if i == 2 then 4 else if i == 3 then 8
    else if i == 4 then 16 else if i == 5 then 32 else if i == 6 then 64 else 128
  }

  predicate Bit(b: bv8, i: nat)
    requires i < 8
  {
    b & Mask(i) != 0
  }

  /** `yaf_set_bit`: the bit must be clear. */
  function SetBit(b: bv8, i: nat): (r: bv8)
    requires i < 8 && !Bit(b, i)
    ensures forall j: nat :: j < 8 ==> (Bit(r, j) <==> j == i || Bit(b, j))
  {
    b | Mask(i)
  }

  function ClearBit(b: bv8, i: nat): (r: bv8)
    requires i < 8
    ensures forall j: nat :: j < 8 ==> (Bit(r, j) <==> j != i && Bit(b, j))
  {
    b & !Mask(i)
  }

  /** Bit i of a bitmap section, least significant bit of byte 0 first. */
  predicate BitAt(s: seq<bv8>, i: nat) {
    i / 8 < |s| && Bit(s[i / 8], i % 8)
  }

  ghost function UsedIn(s: seq<bv8>): set<nat> {
    set i: nat | i < 8 * |s| && BitAt(s, i)
  }

  lemma SetOne(s: seq<bv8>, i: nat)
    requires i < 8 * |s| && !BitAt(s, i)
    ensures UsedIn(s[i / 8 := SetBit(s[i / 8], i % 8)]) == UsedIn(s) + {i}
  {
  }

  lemma ClearOne(s: seq<bv8>, i: nat)
    requires i < 8 * |s|
    ensures UsedIn(s[i / 8 := ClearBit(s[i / 8], i % 8)]) == UsedIn(s) - {i}
  {
  }

  /** A bitmap section: block b of it is bytes [b * 4096, (b + 1) * 4096). */
  class Bitmap {
    const nblocks: nat
    const buf: array<bv8>

    ghost predicate Valid() {
      buf.Length == nblocks * BLOCK_SIZE
    }

    function Bits(): nat { nblocks * BITS_PER_BLOCK }

    ghost function Used(): set<nat>
      reads buf
    {
      UsedIn(buf[..])
    }

    constructor (bytes: seq<bv8>, nblocks: nat)
      requires |bytes| == nblocks * BLOCK_SIZE
      ensures Valid() && fresh(buf) && this.nblocks == nblocks && Used() == UsedIn(bytes)
    {
      this.nblocks := nblocks;
      buf := new bv8[|bytes|](i requires 0 <= i < |bytes| => bytes[i]);
      new;
      assert buf[..] == bytes;
    }

    method TestAndSetBit(nr: nat, blk: nat) returns (was: bool)
      requires Valid() && nr < BITS_PER_BLOCK && blk < nblocks
      modifies buf
      ensures was <==> blk * BITS_PER_BLOCK + nr in old(Used())
      ensures Used() == old(Used()) + {blk * BITS_PER_BLOCK + nr}
    {
      var i := blk * BITS_PER_BLOCK + nr;
      var p := blk * BLOCK_SIZE + nr / 8;
      assert i / 8 == p && i % 8 == nr % 8 && i < 8 * buf.Length;
      was := Bit(buf[p], nr % 8);
      if !was {
        SetOne(buf[..], i);
        buf[p] := SetBit(buf[p], nr % 8);
        assert buf[..] == old(buf[..])[p := SetBit(old(buf[..])[p], nr % 8)];
      }
    }

    method TestAndClearBit(nr: nat, blk: nat) returns (was: bool)
      requires Valid() && nr < BITS_PER_BLOCK && blk < nblocks
      modifies buf
      ensures was <==> blk * BITS_PER_BLOCK + nr in old(Used())
      ensures Used() == old(Used()) - {blk * BITS_PER_BLOCK + nr}
    {
      var i := blk * BITS_PER_BLOCK + nr;
      var p := blk * BLOCK_SIZE + nr / 8;
      assert i / 8 == p && i % 8 == nr % 8 && i < 8 * buf.Length;
      was := Bit(buf[p], nr % 8);
      ClearOne(buf[..], i);
      buf[p] := ClearBit(buf[p], nr % 8);
      assert buf[..] == old(buf[..])[p := ClearBit(old(buf[..])[p], nr % 8)];
    }

    /** The first clear bit of one block, now set, or -ENOENT. */
    method GetFreeBit(blk: nat, bits: nat) returns (r: int)
      requires Valid() && blk < nblocks && bits <= BITS_PER_BLOCK
      modifies buf
      ensures r == -ENOENT || 0 <= r < bits
      ensures 0 <= r ==>
        && blk * BITS_PER_BLOCK + r !in old(Used())
        && (forall j: nat :: blk * BITS_PER_BLOCK <= j < blk * BITS_PER_BLOCK + r ==> j in old(Used()))
        && Used() == old(Used()) + {blk * BITS_PER_BLOCK + r}
      ensures r == -ENOENT ==>
        && (forall j: nat :: blk * BITS_PER_BLOCK <= j < blk * BITS_PER_BLOCK + bits ==> j in old(Used()))
        && Used() == old(Used())
    {
      for nr: int := 0 to bits
        invariant Used() == old(Used())
        invariant forall j: nat :: blk * BITS_PER_BLOCK <= j < blk * BITS_PER_BLOCK + nr ==> j in old(Used())
      {
        var was := TestAndSetBit(nr, blk);
        if !was {
          return nr;
        }
      }
      return -ENOENT;
    }

    /** Scans block after block, as the allocator's contract says: the least
        unused index of the whole section, now used, or `reserved`. */
    method GetFree(reserved: nat) returns (idx: nat)
      requires Valid()
      modifies buf
      ensures idx == if Least(old(Used()), Bits()) < Bits() then Least(old(Used()), Bits()) else reserved
      ensures Used() == Taken(old(Used()), Bits())
    {
      for bid := 0 to nblocks
        invariant Used() == old(Used())
        invariant forall j: nat :: j < bid * BITS_PER_BLOCK ==> j in old(Used())
      {
        var res := GetFreeBit(bid, BITS_PER_BLOCK);
        if res >= 0 {
          idx := res + bid * BITS_PER_BLOCK;
          LeastUnique(old(Used()), Bits(), idx);
          return;
        }
      }
      LeastUnique(old(Used()), Bits(), Bits());
      return reserved;
    }

    /** The scan with the result held in a uint32_t before it is tested for
        being >= 0, as the source is compiled: the first block decides. */
    method GetFreeUnsigned(reserved: nat) returns (idx: nat)
      requires Valid() && nblocks > 0
      modifies buf
      ensures idx == UnsignedIndex(old(Used()))
      ensures Used() == Taken(old(Used()), BITS_PER_BLOCK)
    {
      for bid := 0 to nblocks
        invariant bid == 0
        invariant Used() == old(Used())
      {
        var res := GetFreeBit(bid, BITS_PER_BLOCK);
        LeastUnique(old(Used()), BITS_PER_BLOCK, if res >= 0 then res else BITS_PER_BLOCK);
        var res32 := U32(res);
        if res32 >= 0 {
          return U32(res32 + bid * BITS_PER_BLOCK);
        }
      }
      return reserved;
    }

    /** Clears a used bit; the precondition is the source's assertion. */
    method PutBit(idx: nat)
      requires Valid() && idx in Used()
      modifies buf
      ensures Used() == old(Used()) - {idx}
    {
      assert idx < 8 * buf.Length;
      var was := TestAndClearBit(idx % BITS_PER_BLOCK, idx / BITS_PER_BLOCK);
      assert was;
    }
  }

  /** What the unsigned test returns: -ENOENT as a uint32_t when the first block
      is full. */
  function UnsignedIndex(used: set<nat>): nat {
    if Least(used, BITS_PER_BLOCK) < BITS_PER_BLOCK then Least(used, BITS_PER_BLOCK) else U32(-ENOENT)
  }

  /** The compiled scan meets the documented contract exactly while the first
      bitmap block has a clear bit; otherwise it yields -2 as a uint32_t. */
  lemma UnsignedScanAgrees(used: set<nat>, nblocks: nat, reserved: nat)
    requires nblocks > 0
    requires reserved == RESERVED_INO || reserved == RESERVED_DNO
    ensures
      (&& Taken(used, BITS_PER_BLOCK) == Taken(used, nblocks * BITS_PER_BLOCK)
       && UnsignedIndex(used) == (var k := Least(used, nblocks * BITS_PER_BLOCK);
                                  if k < nblocks * BITS_PER_BLOCK then k else reserved))
      <==> Least(used, BITS_PER_BLOCK) < BITS_PER_BLOCK
    ensures Least(used, BITS_PER_BLOCK) >= BITS_PER_BLOCK ==> UnsignedIndex(used) == 0xFFFF_FFFE
  {
  }
}
