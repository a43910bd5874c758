/** Sizes, the five sections of a device, and the address arithmetic shared by
    mkfs and the driver. */
module Layout {
  const BLOCK_SIZE := 4096
  const BITS_PER_BYTE := 8
  const BITS_PER_BLOCK := 32768
  const INODE_SIZE := 64
  const INODES_PER_BLOCK := 64
  const IBLOCKS := 8
  const DENTRY_SIZE := 32
  const NAME_LEN := 24
  const DENTRYS_PER_BLOCK := 128
  const MAX_DENTRYS := 1024
  const MAX_FILESIZE := 32768
  const RESERVED_INO := 0
  const ROOT_INO := 1
  /** The value -1 held in a uint32_t. */
  const RESERVED_DNO := 0xFFFF_FFFF
  const TWO32 := 0x1_0000_0000

  /** Conversion of any integer to uint32_t. */
  function U32(x: int): (r: nat)
    ensures r < TWO32
    ensures 0 <= x < TWO32 ==> r == x
  {
    x % TWO32
  }

  function AlignDown(x: nat, a: nat): (r: nat)
    requires a > 0
    ensures r <= x < r + a && r % a == 0
  {
    assert x == x / a * a + x % a;
    MultipleMod(x / a, a);
    x / a * a
  }

  lemma MultipleMod(q: nat, a: nat)
    requires a > 0
    ensures q * a % a == 0
  {
    var x := q * a;
    assert x == x / a * a + x % a;
    SmallMultiple(q - x / a, a);
  }

  lemma SmallMultiple(d: int, a: nat)
    requires 0 <= d * a < a
    ensures d * a == 0
  {
    if d > 0 {
      assert d * a == (d - 1) * a + a;
    }
  }

  /** Blocks needed for `a` units, `b` units a block. */
  function IdivCeil(a: nat, b: nat): (r: nat)
    requires b > 0
    ensures a <= r * b < a + b
  {
    assert a == a / b * b + a % b;
    var up := if a % b != 0 then 1 else 0;
    assert (a / b + up) * b == a / b * b + up * b;
    a / b + up
  }

  datatype Section = SuperSection | InodeBitmap | DataBitmap | InodeBlocks | DataBlocks

  /** The four counts kept in the superblock. */
  datatype Super = Super(nrIbp: nat, nrDbp: nat, nrI: nat, nrD: nat) {
    function IbpMin(): nat { 1 }
    function DbpMin(): nat { 1 + nrIbp }
    function IMin(): nat { 1 + nrIbp + nrDbp }
    function DMin(): nat { 1 + nrIbp + nrDbp + nrI }

    function BidMin(s: Section): nat {
      match s
      case SuperSection => 0
      case InodeBitmap => IbpMin()
      case DataBitmap => DbpMin()
      case InodeBlocks => IMin()
      case DataBlocks => DMin()
    }

    /** Last block of a section; one less than the first when it is empty. */
    function BidMax(s: Section): int {
      match s
      case SuperSection => 0
      case InodeBitmap => IbpMin() + nrIbp - 1
      case DataBitmap => DbpMin() + nrDbp - 1
      case InodeBlocks => IMin() + nrI - 1
      case DataBlocks => DMin() + nrD - 1
    }

    predicate Holds(s: Section, bid: int) {
      BidMin(s) <= bid <= BidMax(s)
    }

    /** Number of inodes the inode section has room for. */
    function Inodes(): nat { nrI * INODES_PER_BLOCK }
    function InodeBits(): nat { nrIbp * BITS_PER_BLOCK }
    /** Number of bits in the data bitmap: more than there are data blocks. */
    function DataBits(): nat { nrDbp * BITS_PER_BLOCK }

    /** What the driver relies on; FormatGeometry shows that formatting gives it. */
    predicate Ok() {
      && 1 <= nrIbp <= 131072 && 1 <= nrDbp <= 131072
      && 1 <= nrI && 1 <= nrD
      && Inodes() <= InodeBits() && Inodes() <= TWO32 - 64
      && nrD < DataBits() && nrD < Inodes()
    }

    function Ino2Bid(ino: nat): nat { IMin() + ino / INODES_PER_BLOCK }
    function Ino2Boff(ino: nat): nat { ino % INODES_PER_BLOCK * INODE_SIZE }
    /** Byte offset on the device of an inode record. */
    function Ino2Doff(ino: nat): nat { Ino2Bid(ino) * BLOCK_SIZE + Ino2Boff(ino) }
    function Dno2Bid(dno: nat): nat { DMin() + dno }
    function IdxI2Bid(idx: nat): nat { IbpMin() + idx / BITS_PER_BLOCK }
    function IdxD2Bid(idx: nat): nat { DbpMin() + idx / BITS_PER_BLOCK }
  }

  function Idx2Beoff(idx: nat): nat { idx % BITS_PER_BYTE }
  function Idx2Bkoff(idx: nat): nat { idx % BITS_PER_BLOCK / BITS_PER_BYTE }

  /** The counts mkfs computes for a device of bnr blocks, with every truncation
      to uint32_t written out. */
  function Geometry(bnr: nat): Super {
    var n := AlignDown(U32(bnr), INODES_PER_BLOCK);
    var nrBp := IdivCeil(n, BITS_PER_BLOCK);
    var nrI := IdivCeil(n, INODES_PER_BLOCK);
    Super(nrBp, nrBp, nrI, U32(n - 1 - nrI - nrBp - nrBp))
  }

  ghost predicate Covered(sb: Super, bid: int) {
    exists s: Section :: sb.Holds(s, bid)
  }

  /** The sections are nonempty, pairwise disjoint and cover exactly [0, n). */
  ghost predicate Partitions(sb: Super, n: nat) {
    && (forall s: Section :: sb.BidMin(s) <= sb.BidMax(s))
    && (forall s: Section, t: Section, bid: int :: sb.Holds(s, bid) && sb.Holds(t, bid) ==> s == t)
    && (forall bid: int :: 0 <= bid < n <==> Covered(sb, bid))
  }

  /** Counts for n blocks: room for n inodes, the least bitmap sections with a bit
      for each of n indices, and all remaining blocks for data. */
  ghost predicate LaidOut(sb: Super, n: nat) {
    && sb.nrI * INODES_PER_BLOCK == n
    && (sb.nrIbp - 1) * BITS_PER_BLOCK < n <= sb.nrIbp * BITS_PER_BLOCK
    && (sb.nrDbp - 1) * BITS_PER_BLOCK < n <= sb.nrDbp * BITS_PER_BLOCK
    && 1 + sb.nrIbp + sb.nrDbp + sb.nrI + sb.nrD == n
  }

  /** mkfs computes those counts, and they are the only ones. */
  lemma GeometryLeast(bnr: nat, sb: Super)
    requires 64 <= bnr < TWO32
    ensures sb == Geometry(bnr) <==> LaidOut(sb, AlignDown(bnr, INODES_PER_BLOCK))
  {
    var n := AlignDown(bnr, INODES_PER_BLOCK);
    var t := Geometry(bnr);
    assert t.nrI == n / 64 && n >= 64;
    assert n - 1 - t.nrI - t.nrIbp - t.nrDbp >= 1;
    if LaidOut(sb, n) {
      assert sb.nrIbp == t.nrIbp && sb.nrDbp == t.nrDbp;
    }
  }

  /** The sections follow each other from block 0 on, in this order. */
  lemma SectionsFollow(sb: Super)
    ensures sb.BidMin(SuperSection) == 0 == sb.BidMax(SuperSection)
    ensures sb.BidMin(InodeBitmap) == 1 && sb.BidMax(InodeBitmap) == sb.nrIbp
    ensures sb.BidMin(DataBitmap) == sb.BidMax(InodeBitmap) + 1 && sb.BidMax(DataBitmap) == sb.nrIbp + sb.nrDbp
    ensures sb.BidMin(InodeBlocks) == sb.BidMax(DataBitmap) + 1
    ensures sb.BidMin(DataBlocks) == sb.BidMax(InodeBlocks) + 1 == 1 + sb.nrIbp + sb.nrDbp + sb.nrI
    ensures sb.BidMax(DataBlocks) == sb.nrIbp + sb.nrDbp + sb.nrI + sb.nrD
  {
  }

  /** Formatting a device of fewer than 2^32 blocks yields a partition of the
      aligned device exactly when it has at least 64 blocks. */
  lemma FormatGeometry(bnr: nat)
    requires bnr < TWO32
    ensures Partitions(Geometry(bnr), AlignDown(bnr, INODES_PER_BLOCK)) <==> 64 <= bnr
    ensures 64 <= bnr ==>
      && Geometry(bnr).Ok() && LaidOut(Geometry(bnr), AlignDown(bnr, INODES_PER_BLOCK))
      && Geometry(bnr).Inodes() == AlignDown(bnr, INODES_PER_BLOCK)
      && Geometry(bnr).DMin() + Geometry(bnr).nrD == AlignDown(bnr, INODES_PER_BLOCK)
  {
    var sb := Geometry(bnr);
    var n := AlignDown(bnr, INODES_PER_BLOCK);
    if bnr < 64 {
      assert n == 0;
      assert sb.Holds(SuperSection, 0) && Covered(sb, 0);
    } else {
      assert n >= 64;
      assert sb.nrI == n / 64;
      assert n - 1 - sb.nrI - sb.nrIbp - sb.nrDbp >= 1;
      assert sb.DMin() + sb.nrD == n;
      GeometryLeast(bnr, sb);
      CoverageFrom(sb, n);
    }
  }

  lemma CoverageFrom(sb: Super, n: nat)
    requires sb.nrIbp >= 1 && sb.nrDbp >= 1 && sb.nrI >= 1 && sb.nrD >= 1
    requires sb.DMin() + sb.nrD == n
    ensures Partitions(sb, n)
  {
    forall bid: int | 0 <= bid < n
      ensures Covered(sb, bid)
    {
      var s :=
        if bid < sb.IbpMin() then SuperSection
        else if bid < sb.DbpMin() then InodeBitmap
        else if bid < sb.IMin() then DataBitmap
        else if bid < sb.DMin() then InodeBlocks
        else DataBlocks;
      assert sb.Holds(s, bid);
    }
  }

  /** Inode records lie inside the inode section, 64 bytes each and one after
      the other, never straddle a block and never overlap. */
  lemma InodeAddress(sb: Super, i: nat, j: nat)
    requires i < j < sb.Inodes()
    ensures sb.Holds(InodeBlocks, sb.Ino2Bid(i)) && sb.Holds(InodeBlocks, sb.Ino2Bid(j))
    ensures sb.Ino2Boff(i) + INODE_SIZE <= BLOCK_SIZE
    ensures sb.Ino2Doff(i) == sb.BidMin(InodeBlocks) * BLOCK_SIZE + i * INODE_SIZE
    ensures sb.Ino2Doff(j) == sb.BidMin(InodeBlocks) * BLOCK_SIZE + j * INODE_SIZE
    ensures sb.Ino2Doff(i) + INODE_SIZE <= sb.Ino2Doff(j)
    ensures sb.Ino2Doff(j) + INODE_SIZE <= sb.DMin() * BLOCK_SIZE
  {
  }

  /** A data block number addresses the data section exactly when it is below
      nrD, counts from its first block, and different numbers address different
      blocks. */
  lemma DataAddress(sb: Super, d: nat, e: nat)
    ensures sb.Holds(DataBlocks, sb.Dno2Bid(d)) <==> d < sb.nrD
    ensures sb.Dno2Bid(d) - sb.BidMin(DataBlocks) == d
    ensures sb.Dno2Bid(d) == sb.Dno2Bid(e) ==> d == e
  {
  }

  /** A bitmap index is a block of its section, a byte of the block and a bit
      of the byte, and is recovered from the three. */
  lemma BitAddress(sb: Super, idx: nat)
    ensures idx < sb.InodeBits() ==> sb.Holds(InodeBitmap, sb.IdxI2Bid(idx))
    ensures idx < sb.DataBits() ==> sb.Holds(DataBitmap, sb.IdxD2Bid(idx))
    ensures Idx2Bkoff(idx) < BLOCK_SIZE && Idx2Beoff(idx) < 8
    ensures idx == ((sb.IdxI2Bid(idx) - sb.IbpMin()) * BLOCK_SIZE + Idx2Bkoff(idx)) * 8 + Idx2Beoff(idx)
    ensures idx == ((sb.IdxD2Bid(idx) - sb.DbpMin()) * BLOCK_SIZE + Idx2Bkoff(idx)) * 8 + Idx2Beoff(idx)
  {
    BitIndex(idx, idx / BITS_PER_BLOCK, idx % BITS_PER_BLOCK);
    assert sb.IdxI2Bid(idx) - sb.IbpMin() == idx / BITS_PER_BLOCK == sb.IdxD2Bid(idx) - sb.DbpMin();
  }

  lemma BitIndex(idx: nat, blk: nat, off: nat)
    requires idx == blk * BITS_PER_BLOCK + off && off < BITS_PER_BLOCK
    ensures off / BITS_PER_BYTE < BLOCK_SIZE
    ensures idx == (blk * BLOCK_SIZE + off / BITS_PER_BYTE) * 8 + idx % BITS_PER_BYTE
  {
    ModEight(idx, blk * BLOCK_SIZE + off / BITS_PER_BYTE, off % BITS_PER_BYTE);
  }

  lemma ModEight(idx: nat, q: nat, r: nat)
    requires idx == q * 8 + r && r < 8
    ensures idx % 8 == r
  {
  }
}
