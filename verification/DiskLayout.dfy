/** The device byte by byte, written down from the record declarations without
    the codecs, and what it has to do with formatting, storing and mounting. */
module DiskLayout {
  import opened Layout
  import opened Bytes
  import opened Bitmaps
  import opened Dentries
  import opened State
  import opened Alloc
  import opened Image

  /** The number held by four bytes, least significant first. */
  function Num(b: seq<byte>, off: nat): nat
    requires off + 4 <= |b|
  {
    b[off] as nat + 0x100 * b[off + 1] as nat + 0x1_0000 * b[off + 2] as nat + 0x100_0000 * b[off + 3] as nat
  }

  lemma WordIsNum(b: seq<byte>, off: nat)
    requires off + 4 <= |b|
    ensures WordAt(b, off) == Num(b, off)
  {
  }

  /** Words are stored with the least significant byte first. */
  lemma StoredLittleEndian(x: nat)
    requires x < TWO32
    ensures Num(Le32(x), 0) == x
  {
    WordOfLe32(x);
    WordIsNum(Le32(x), 0);
    assert Le32(x)[0..4] == Le32(x);
  }

  /** Four bytes are the stored form of the number they hold, and of no other. */
  lemma NumDetermines(s: seq<byte>, x: nat)
    requires |s| == 4 && x < TWO32
    ensures s == Le32(x) <==> Num(s, 0) == x
  {
    StoredLittleEndian(x);
    if Num(s, 0) == x {
      Digits(s, Le32(x));
    }
  }

  lemma Digits(s: seq<byte>, t: seq<byte>)
    requires |s| == 4 == |t| && Num(s, 0) == Num(t, 0)
    ensures s == t
  {
    var p, q := s[2] as int + 256 * s[3] as int, t[2] as int + 256 * t[3] as int;
    OneDigit(s[0] as int, t[0] as int, s[1] as int + 256 * p, t[1] as int + 256 * q);
    OneDigit(s[1] as int, t[1] as int, p, q);
    OneDigit(s[2] as int, t[2] as int, s[3] as int, t[3] as int);
    assert forall i :: 0 <= i < 4 ==> s[i] as int == t[i] as int;
  }

  lemma OneDigit(a: int, b: int, p: int, q: int)
    requires 0 <= a < 256 && 0 <= b < 256 && a + 256 * p == b + 256 * q
    ensures a == b && p == q
  {
  }

  /** Every word of a record is at its place. */
  ghost predicate WordsAtPlace(b: seq<byte>, ws: seq<nat>)
    requires 4 * |ws| <= |b|
  {
    forall i {:trigger ws[i]} :: 0 <= i < |ws| ==> Num(b, 4 * i) == ws[i]
  }

  lemma {:induction false} WordsHeld(b: seq<byte>, ws: seq<nat>)
    requires |b| == 4 * |ws| && forall i :: 0 <= i < |ws| ==> ws[i] < TWO32
    ensures b == Words(ws) <==> WordsAtPlace(b, ws)
  {
    hide Le32, Num;
    if ws != [] {
      var n := |ws| - 1;
      WordsHeld(b[..4 * n], ws[..n]);
      NumDetermines(b[4 * n..], ws[n]);
      NumOfSlice(b, 4 * n, 4, 0);
      assert b[4 * n..] == b[4 * n..4 * n + 4];
      forall i | 0 <= i < n
        ensures Num(b[..4 * n], 4 * i) == Num(b, 4 * i)
      {
        NumOfSlice(b, 0, 4 * n, 4 * i);
        assert b[0..4 * n] == b[..4 * n];
      }
      assert forall i :: 0 <= i < n ==> ws[..n][i] == ws[i];
      assert b == b[..4 * n] + b[4 * n..];
      if b == Words(ws) {
        assert b[..4 * n] == Words(ws[..n]) && b[4 * n..] == Le32(ws[n]);
      }
    }
  }

  /** The bits of a byte are counted from the least significant one. */
  lemma BitsAscend(b: bv8, j: nat)
    requires j < 8
    ensures Bit(b, j) <==> b & ((1 as bv8) << j) != 0
  {
  }

  /** The fields of an inode record at their byte offsets. */
  ghost predicate InodeFields(b: seq<byte>, off: nat, m: MemInode)
    requires off + INODE_SIZE <= |b|
  {
    && Num(b, off) == m.mode && Num(b, off + 4) == m.uid && Num(b, off + 8) == m.gid && Num(b, off + 12) == m.nlink
    && Num(b, off + 16) == m.size
    && Num(b, off + 20) == m.atime && Num(b, off + 24) == m.mtime && Num(b, off + 28) == m.ctime
    && |m.slots| == IBLOCKS && forall k :: 0 <= k < IBLOCKS ==> Num(b, off + 32 + 4 * k) == m.slots[k]
  }

  /** A record holds an inode with fitting fields exactly when its bytes are
      those of the inode. */
  lemma EncodeOffsets(b: seq<byte>, m: MemInode)
    requires |b| == INODE_SIZE && |m.slots| == IBLOCKS && Fits32(m)
    ensures b == EncodeInode(m) <==> InodeFields(b, 0, m)
  {
    hide Words, Num;
    var ws := RecordWords(m);
    WordsHeld(b, ws);
    assert ws[0] == m.mode && ws[1] == m.uid && ws[2] == m.gid && ws[3] == m.nlink;
    assert ws[4] == m.size && ws[5] == m.atime && ws[6] == m.mtime && ws[7] == m.ctime;
    assert forall k :: 0 <= k < IBLOCKS ==> ws[8 + k] == m.slots[k] && 32 + 4 * k == 4 * (8 + k);
  }

  lemma DecodeOffsets(b: seq<byte>)
    requires |b| == INODE_SIZE
    ensures var m := DecodeInode(b);
      InodeFields(b, 0, m.(mode := Num(b, 0))) && m.mode == Num(b, 0) % 65536
  {
  }

  /** A directory record: the inode number, the length and the name field. */
  lemma DentryOffsets(b: seq<byte>, d: Dentry)
    requires |b| == DENTRY_SIZE && d.Storable()
    ensures b == Encode(d) <==> Num(b, 0) == d.ino && Num(b, 4) == d.len && b[8..] == d.name
    ensures Decode(b) == Dentry(Num(b, 0), Num(b, 4), b[8..])
  {
    assert b == b[..4] + b[4..8] + b[8..];
    NumDetermines(b[..4], d.ino);
    NumDetermines(b[4..8], d.len);
    assert Num(b[..4], 0) == Num(b, 0) && Num(b[4..8], 0) == Num(b, 4);
    assert Word(b[..4]) == Num(b, 0) && Word(b[4..8]) == Num(b, 4);
    hide Num, Le32, Word;
    var e := Encode(d);
    assert e[..4] == Le32(d.ino) && e[4..8] == Le32(d.len) && e[8..] == d.name;
  }

  /** Bit i of the section that starts at block bid is set. */
  predicate BitOn(img: seq<byte>, bid: nat, i: nat) {
    bid * BLOCK_SIZE + i / 8 < |img| && img[bid * BLOCK_SIZE + i / 8] as bv8 & ((1 as bv8) << (i % 8)) != 0
  }

  /** The section of n blocks from bid on has exactly the bits of s set. */
  ghost predicate BitsOnDisk(img: seq<byte>, bid: nat, n: nat, s: set<nat>) {
    forall i: nat :: i in s <==> i < n * BITS_PER_BLOCK && BitOn(img, bid, i)
  }

  /** Byte offset of the record of inode i. */
  function RecordOff(sb: Super, i: nat): nat {
    (1 + sb.nrIbp + sb.nrDbp) * BLOCK_SIZE + INODE_SIZE * i
  }

  /** The record at off is that of an inode like n, whatever its owner and times. */
  ghost predicate InodeOnDisk(img: seq<byte>, off: nat, n: Inode)
    requires off + INODE_SIZE <= |img|
  {
    && |n.slots| == IBLOCKS
    && (n.kind == Dir <==> Num(img, off) / 0x1000 % 16 == 4)
    && (n.kind == Reg <==> Num(img, off) / 0x1000 % 16 == 8)
    && Num(img, off + 12) == n.nlink && Num(img, off + 16) == n.size
    && forall k :: 0 <= k < IBLOCKS ==> Num(img, off + 32 + 4 * k) == n.slots[k]
  }

  /** Block d of the data section is b; past the end of the device it is zeros. */
  ghost predicate BlockOnDisk(img: seq<byte>, sb: Super, d: nat, b: Block) {
    var off := (1 + sb.nrIbp + sb.nrDbp + sb.nrI + d) * BLOCK_SIZE;
    && |b| == BLOCK_SIZE
    && forall o :: 0 <= o < BLOCK_SIZE ==> b[o] == if off + BLOCK_SIZE <= |img| then img[off + o] else 0
  }

  /** The superblock: four counts, then "yaf" and its NUL over and over. */
  ghost predicate SuperOnDisk(img: seq<byte>, sb: Super)
    requires |img| >= BLOCK_SIZE
  {
    && Num(img, 0) == sb.nrIbp && Num(img, 4) == sb.nrDbp && Num(img, 8) == sb.nrI && Num(img, 12) == sb.nrD
    && forall i :: 16 <= i < BLOCK_SIZE ==> img[i] == MagicByte(i)
  }

  function MagicByte(i: nat): byte {
    if i % 4 == 0 then 121 else if i % 4 == 1 then 97 else if i % 4 == 2 then 102 else 0
  }

  /** The image holds the state: superblock, two bitmaps, inodes and blocks, one
      section after the other. */
  ghost predicate OnDisk(img: seq<byte>, fs: Fs)
    requires |img| >= BLOCK_SIZE
  {
    var sb := fs.sb;
    && SuperOnDisk(img, sb) && ROOT_INO < sb.nrI * INODES_PER_BLOCK
    && (1 + sb.nrIbp + sb.nrDbp + sb.nrI) * BLOCK_SIZE <= |img|
    && BitsOnDisk(img, 1, sb.nrIbp, fs.iused) && BitsOnDisk(img, 1 + sb.nrIbp, sb.nrDbp, fs.dused)
    && |fs.inodes| == sb.nrI * INODES_PER_BLOCK
    && (forall i :: 0 <= i < |fs.inodes| ==> InodeOnDisk(img, RecordOff(sb, i), fs.inodes[i]))
    && |fs.data| == sb.nrDbp * BITS_PER_BLOCK
    && (forall d :: 0 <= d < |fs.data| ==> BlockOnDisk(img, sb, d, fs.data[d]))
  }

  lemma SuperReads(img: seq<byte>, sb: Super)
    requires |img| >= BLOCK_SIZE
    ensures SuperOnDisk(img, sb) <==> MagicOk(img[..BLOCK_SIZE]) && DecodeSuper(img[..BLOCK_SIZE]) == sb
  {
    var b := img[..BLOCK_SIZE];
    WordIsNum(b, 0);
    WordIsNum(b, 4);
    WordIsNum(b, 8);
    WordIsNum(b, 12);
    assert Num(b, 0) == Num(img, 0) && Num(b, 4) == Num(img, 4);
    assert Num(b, 8) == Num(img, 8) && Num(b, 12) == Num(img, 12);
    hide Num, WordAt;
    MagicReads(img);
  }

  lemma MagicReads(img: seq<byte>)
    requires |img| >= BLOCK_SIZE
    ensures MagicOk(img[..BLOCK_SIZE]) <==> forall i :: 16 <= i < BLOCK_SIZE ==> img[i] == MagicByte(i)
  {
    var b := img[..BLOCK_SIZE];
    if MagicOk(b) {
      forall i | 16 <= i < BLOCK_SIZE
        ensures img[i] == MagicByte(i)
      {
        var g := (i - 16) / 4;
        assert MagicAt(b, g);
        assert b[16 + 4 * g..16 + 4 * g + 4][i % 4] == b[i];
      }
    }
    if forall i :: 16 <= i < BLOCK_SIZE ==> img[i] == MagicByte(i) {
      forall g | 0 <= g < MAGIC_LEN / 4
        ensures MagicAt(b, g)
      {
        assert b[16 + 4 * g] == 121 && b[16 + 4 * g + 1] == 97 && b[16 + 4 * g + 2] == 102 && b[16 + 4 * g + 3] == 0;
      }
    }
  }

  lemma BitReads(img: seq<byte>, bid: nat, n: nat, i: nat)
    requires (bid + n) * BLOCK_SIZE <= |img| && i < n * BITS_PER_BLOCK
    ensures BitOn(img, bid, i) <==> BitAt(SectionBits(img, bid, n), i)
  {
    BitsAscend(SectionBits(img, bid, n)[i / 8], i % 8);
  }

  lemma BitsRead(img: seq<byte>, bid: nat, n: nat, s: set<nat>)
    requires (bid + n) * BLOCK_SIZE <= |img|
    ensures BitsOnDisk(img, bid, n, s) <==> UsedIn(SectionBits(img, bid, n)) == s
  {
    hide BitOn, BitAt;
    forall i: nat | i < n * BITS_PER_BLOCK
      ensures BitOn(img, bid, i) <==> BitAt(SectionBits(img, bid, n), i)
    {
      BitReads(img, bid, n, i);
    }
    var u := UsedIn(SectionBits(img, bid, n));
    assert forall i: nat :: i in u <==> i < n * BITS_PER_BLOCK && BitOn(img, bid, i);
  }

  lemma NumOfSlice(img: seq<byte>, off: nat, n: nat, at: nat)
    requires off + n <= |img| && at + 4 <= n
    ensures Num(img[off..off + n], at) == Num(img, off + at)
  {
  }

  lemma KindIgnoresHighBits(mode: nat)
    ensures mode % 65536 / 4096 % 16 == mode / 4096 % 16
  {
  }

  lemma FieldsOfSlice(img: seq<byte>, off: nat, m: MemInode)
    requires off + INODE_SIZE <= |img|
    ensures InodeFields(img[off..off + INODE_SIZE], 0, m) <==> InodeFields(img, off, m)
  {
    var b := img[off..off + INODE_SIZE];
    hide Num;
    forall k: nat | k < 16
      ensures Num(b, 4 * k) == Num(img, off + 4 * k)
    {
      NumOfSlice(img, off, INODE_SIZE, 4 * k);
    }
    assert Num(b, 4 * 0) == Num(img, off) && Num(b, 4 * 1) == Num(img, off + 4) && Num(b, 4 * 2) == Num(img, off + 8);
    assert Num(b, 4 * 3) == Num(img, off + 12) && Num(b, 4 * 4) == Num(img, off + 16);
    assert Num(b, 4 * 5) == Num(img, off + 20) && Num(b, 4 * 6) == Num(img, off + 24);
    assert Num(b, 4 * 7) == Num(img, off + 28);
    assert forall k :: 0 <= k < IBLOCKS ==> 32 + 4 * k == 4 * (8 + k);
  }

  /** What loading reads from the record at off. */
  lemma DecodedFields(img: seq<byte>, off: nat)
    requires off + INODE_SIZE <= |img|
    ensures var m := DecodeInode(img[off..off + INODE_SIZE]);
      InodeFields(img, off, m.(mode := Num(img, off))) && m.mode == Num(img, off) % 65536
  {
    hide Num, DecodeInode, InodeFields;
    var b := img[off..off + INODE_SIZE];
    DecodeOffsets(b);
    NumOfSlice(img, off, INODE_SIZE, 0);
    FieldsOfSlice(img, off, DecodeInode(b).(mode := Num(img, off)));
  }

  lemma InodeReads(img: seq<byte>, sb: Super, i: nat, n: Inode)
    requires HasSections(img, sb) && i < sb.Inodes()
    ensures RecordOff(sb, i) + INODE_SIZE <= |img|
    ensures InodeOnDisk(img, RecordOff(sb, i), n) <==> ViewOf(InodeAt(img, sb, i)) == n
  {
    var off := RecordOff(sb, i);
    RecordAddress(sb, i);
    var m := InodeAt(img, sb, i);
    assert m == DecodeInode(img[off..off + INODE_SIZE]);
    hide Num, DecodeInode, InodeAt, RecordOff;
    DecodedFields(img, off);
    KindIgnoresHighBits(Num(img, off));
    assert KindOf(m.mode) == n.kind <==>
      (n.kind == Dir <==> Num(img, off) / 0x1000 % 16 == 4) && (n.kind == Reg <==> Num(img, off) / 0x1000 % 16 == 8);
    hide KindOf;
    assert |n.slots| == IBLOCKS ==> (n.slots == m.slots <==> forall k :: 0 <= k < IBLOCKS ==> m.slots[k] == n.slots[k]);
  }

  lemma BlockReads(img: seq<byte>, sb: Super, d: nat, b: Block)
    ensures BlockOnDisk(img, sb, d, b) <==> DataBlock(img, sb, d) == b
  {
    var r := DataBlock(img, sb, d);
    var off := (1 + sb.nrIbp + sb.nrDbp + sb.nrI + d) * BLOCK_SIZE;
    assert sb.Dno2Bid(d) * BLOCK_SIZE == off;
    assert forall o :: 0 <= o < BLOCK_SIZE ==> r[o] == if off + BLOCK_SIZE <= |img| then img[off + o] else 0;
    hide DataBlock;
    if BlockOnDisk(img, sb, d, b) {
      assert forall o :: 0 <= o < BLOCK_SIZE ==> b[o] == r[o];
      assert b == r;
    }
  }

  /** Mounting yields a state exactly when the device holds it, byte by byte. */
  lemma MountIffOnDisk(img: seq<byte>, fs: Fs)
    requires |img| >= BLOCK_SIZE
    ensures Mount(img) == Ok(fs) <==> OnDisk(img, fs)
  {
    hide SuperOnDisk, BitsOnDisk, InodeOnDisk, BlockOnDisk, MagicOk, DecodeSuper, UsedIn, InodeAt, DataBlock, RecordOff;
    var sb := fs.sb;
    SuperReads(img, sb);
    if HasSections(img, sb) {
      BitsRead(img, 1, sb.nrIbp, fs.iused);
      BitsRead(img, 1 + sb.nrIbp, sb.nrDbp, fs.dused);
      forall i | 0 <= i < sb.Inodes() && i < |fs.inodes|
        ensures RecordOff(sb, i) + INODE_SIZE <= |img|
        ensures InodeOnDisk(img, RecordOff(sb, i), fs.inodes[i]) <==> ViewOf(InodeAt(img, sb, i)) == fs.inodes[i]
      {
        InodeReads(img, sb, i, fs.inodes[i]);
      }
      forall d | 0 <= d < |fs.data|
        ensures BlockOnDisk(img, sb, d, fs.data[d]) <==> DataBlock(img, sb, d) == fs.data[d]
      {
        BlockReads(img, sb, d, fs.data[d]);
      }
      var l := Load(img, sb);
      assert l == fs <==>
        && l.iused == fs.iused && l.dused == fs.dused
        && l.inodes == fs.inodes && l.data == fs.data;
    }
  }

  /** Which error mounting returns, and exactly when. */
  lemma MountFailsExactly(img: seq<byte>)
    requires |img| >= BLOCK_SIZE
    ensures var bad := (exists i :: 16 <= i < BLOCK_SIZE && img[i] != MagicByte(i)) || Num(img, 8) == 0;
            var fits := (1 + Num(img, 0) + Num(img, 4) + Num(img, 8)) * BLOCK_SIZE <= |img|;
      && (Mount(img) == Fail(EINVAL) <==> bad)
      && (Mount(img) == Fail(EIO) <==> !bad && !fits)
      && (Mount(img).Ok? <==> !bad && fits)
  {
    hide MagicOk, MagicByte, Load;
    MagicReads(img);
    SuperReads(img, DecodeSuper(img[..BLOCK_SIZE]));
    SuperCounts(img);
    hide DecodeSuper, Num;
  }

  lemma SuperCounts(img: seq<byte>)
    requires |img| >= BLOCK_SIZE
    ensures DecodeSuper(img[..BLOCK_SIZE]) == Super(Num(img, 0), Num(img, 4), Num(img, 8), Num(img, 12))
  {
    var b := img[..BLOCK_SIZE];
    WordIsNum(b, 0);
    WordIsNum(b, 4);
    WordIsNum(b, 8);
    WordIsNum(b, 12);
  }

  /** The byte with bit k set exactly when base + k is in s, for k below j. */
  ghost function BitsByte(s: set<nat>, base: nat, j: nat): (r: bv8)
    requires j <= 8
    ensures forall k: nat :: k < 8 ==> (Bit(r, k) <==> k < j && base + k in s)
  {
    if j == 0 then ZeroByte()
    else if base + j - 1 in s then SetBit(BitsByte(s, base, j - 1), j - 1)
    else BitsByte(s, base, j - 1)
  }

  function ZeroByte(): (r: bv8)
    ensures forall k: nat :: k < 8 ==> !Bit(r, k)
  {
    0
  }

  /** What storing takes for granted: sections of the right sizes, and inodes in
      memory, with fields that fit, that are those of the state. */
  ghost predicate Storing(fs: Fs, ms: seq<MemInode>) {
    && Shape(fs) && |ms| == |fs.inodes|
    && forall i :: 0 <= i < |ms| ==> |ms[i].slots| == IBLOCKS && Fits32(ms[i]) && ViewOf(ms[i]) == fs.inodes[i]
  }

  ghost function ImageByte(fs: Fs, ms: seq<MemInode>, i: nat): byte
    requires Storing(fs, ms) && i < (fs.sb.DMin() + |fs.data|) * BLOCK_SIZE
  {
    var sb := fs.sb;
    if i < BLOCK_SIZE then EncodeSuper(sb)[i]
    else if i < sb.DbpMin() * BLOCK_SIZE then BitsByte(fs.iused, (i - BLOCK_SIZE) * 8, 8) as byte
    else if i < sb.IMin() * BLOCK_SIZE then BitsByte(fs.dused, (i - sb.DbpMin() * BLOCK_SIZE) * 8, 8) as byte
    else if i < sb.DMin() * BLOCK_SIZE then
      var o := i - sb.IMin() * BLOCK_SIZE;
      EncodeInode(ms[o / INODE_SIZE])[o % INODE_SIZE]
    else
      var o := i - sb.DMin() * BLOCK_SIZE;
      fs.data[o / BLOCK_SIZE][o % BLOCK_SIZE]
  }

  /** The state written out: superblock, bitmaps, inode records and blocks. */
  ghost function ImageOf(fs: Fs, ms: seq<MemInode>): (img: seq<byte>)
    requires Storing(fs, ms)
    ensures |img| == (fs.sb.DMin() + |fs.data|) * BLOCK_SIZE
    ensures forall i :: 0 <= i < |img| ==> img[i] == ImageByte(fs, ms, i)
  {
    seq((fs.sb.DMin() + |fs.data|) * BLOCK_SIZE,
        i requires 0 <= i < (fs.sb.DMin() + |fs.data|) * BLOCK_SIZE => ImageByte(fs, ms, i))
  }

  lemma StoredSuper(fs: Fs, ms: seq<MemInode>)
    requires Storing(fs, ms)
    ensures SuperOnDisk(ImageOf(fs, ms), fs.sb)
  {
    hide EncodeSuper, MagicOk, DecodeSuper;
    var img := ImageOf(fs, ms);
    assert img[..BLOCK_SIZE] == EncodeSuper(fs.sb);
    SuperRoundTrip(fs.sb);
    SuperReads(img, fs.sb);
  }

  lemma ByteBits(b: bv8)
    ensures b as byte as bv8 == b
  {
  }

  lemma StoredBit(img: seq<byte>, bid: nat, s: set<nat>, i: nat)
    requires bid * BLOCK_SIZE + i / 8 < |img|
    requires img[bid * BLOCK_SIZE + i / 8] == BitsByte(s, i / 8 * 8, 8) as byte
    ensures BitOn(img, bid, i) <==> i in s
  {
    hide BitsByte, Bit;
    assert i / 8 * 8 + i % 8 == i;
    BitOfByte(s, i / 8, i % 8);
    var b := BitsByte(s, i / 8 * 8, 8);
    assert Bit(b, i % 8) <==> i in s;
    ByteKeepsBit(b, img[bid * BLOCK_SIZE + i / 8], i % 8);
  }

  lemma BitOfByte(s: set<nat>, q: nat, j: nat)
    requires j < 8
    ensures Bit(BitsByte(s, q * 8, 8), j) <==> q * 8 + j in s
  {
  }

  lemma ByteKeepsBit(b: bv8, c: byte, j: nat)
    requires j < 8 && c == b as byte
    ensures c as bv8 & ((1 as bv8) << j) != 0 <==> Bit(b, j)
  {
    ByteBits(b);
    BitsAscend(b, j);
  }

  lemma StoredInodeBit(fs: Fs, ms: seq<MemInode>, i: nat)
    requires Storing(fs, ms) && i < fs.sb.nrIbp * BITS_PER_BLOCK
    ensures BitOn(ImageOf(fs, ms), 1, i) <==> i in fs.iused
  {
    hide EncodeSuper, EncodeInode, BitsByte, BitOn;
    assert ImageOf(fs, ms)[BLOCK_SIZE + i / 8] == BitsByte(fs.iused, i / 8 * 8, 8) as byte;
    StoredBit(ImageOf(fs, ms), 1, fs.iused, i);
  }

  lemma StoredDataBit(fs: Fs, ms: seq<MemInode>, i: nat)
    requires Storing(fs, ms) && i < fs.sb.nrDbp * BITS_PER_BLOCK
    ensures BitOn(ImageOf(fs, ms), 1 + fs.sb.nrIbp, i) <==> i in fs.dused
  {
    hide EncodeSuper, EncodeInode, BitsByte, BitOn;
    assert ImageOf(fs, ms)[(1 + fs.sb.nrIbp) * BLOCK_SIZE + i / 8] == BitsByte(fs.dused, i / 8 * 8, 8) as byte;
    StoredBit(ImageOf(fs, ms), 1 + fs.sb.nrIbp, fs.dused, i);
  }

  lemma StoredBits(fs: Fs, ms: seq<MemInode>)
    requires Storing(fs, ms)
    ensures BitsOnDisk(ImageOf(fs, ms), 1, fs.sb.nrIbp, fs.iused)
    ensures BitsOnDisk(ImageOf(fs, ms), 1 + fs.sb.nrIbp, fs.sb.nrDbp, fs.dused)
  {
    hide BitOn;
    forall i: nat | i < fs.sb.nrIbp * BITS_PER_BLOCK
      ensures BitOn(ImageOf(fs, ms), 1, i) <==> i in fs.iused
    {
      StoredInodeBit(fs, ms, i);
    }
    forall i: nat | i < fs.sb.nrDbp * BITS_PER_BLOCK
      ensures BitOn(ImageOf(fs, ms), 1 + fs.sb.nrIbp, i) <==> i in fs.dused
    {
      StoredDataBit(fs, ms, i);
    }
  }

  lemma StoredInode(fs: Fs, ms: seq<MemInode>, i: nat)
    requires Storing(fs, ms) && i < |fs.inodes|
    ensures InodeOnDisk(ImageOf(fs, ms), RecordOff(fs.sb, i), fs.inodes[i])
  {
    hide EncodeInode, DecodeInode, InodeOnDisk, ImageByte, RecordOff, InodeAt;
    var img := ImageOf(fs, ms);
    var off := RecordOff(fs.sb, i);
    RecordAddress(fs.sb, i);
    forall o | 0 <= o < INODE_SIZE
      ensures img[off + o] == EncodeInode(ms[i])[o]
    {
      RecordByte(fs, ms, i, o);
    }
    assert img[off..off + INODE_SIZE] == EncodeInode(ms[i]);
    InodeRoundTrip(ms[i]);
    assert InodeAt(img, fs.sb, i) == DecodeInode(img[off..off + INODE_SIZE]) by {
      InodeAtIs(img, fs.sb, i);
    }
    InodeReads(img, fs.sb, i, fs.inodes[i]);
  }

  lemma InodeAtIs(img: seq<byte>, sb: Super, i: nat)
    requires HasSections(img, sb) && i < sb.Inodes()
    ensures RecordOff(sb, i) + INODE_SIZE <= |img|
    ensures InodeAt(img, sb, i) == DecodeInode(img[RecordOff(sb, i)..RecordOff(sb, i) + INODE_SIZE])
  {
    RecordAddress(sb, i);
  }

  lemma RecordByte(fs: Fs, ms: seq<MemInode>, i: nat, o: nat)
    requires Storing(fs, ms) && i < |fs.inodes| && o < INODE_SIZE
    ensures RecordOff(fs.sb, i) + o < (fs.sb.DMin() + |fs.data|) * BLOCK_SIZE
    ensures ImageByte(fs, ms, RecordOff(fs.sb, i) + o) == EncodeInode(ms[i])[o]
  {
    hide EncodeSuper, EncodeInode, BitsByte, Fits32, ViewOf;
    RecordAddress(fs.sb, i);
    RecordIndex(i, o);
  }

  lemma RecordIndex(i: nat, o: nat)
    requires o < INODE_SIZE
    ensures (INODE_SIZE * i + o) / INODE_SIZE == i && (INODE_SIZE * i + o) % INODE_SIZE == o
  {
  }

  lemma StoredBlock(fs: Fs, ms: seq<MemInode>, d: nat)
    requires Storing(fs, ms) && d < |fs.data|
    ensures BlockOnDisk(ImageOf(fs, ms), fs.sb, d, fs.data[d])
  {
    hide EncodeSuper, EncodeInode, BitsByte;
  }

  /** A state written out mounts as the same state. */
  lemma StoreThenMount(fs: Fs, ms: seq<MemInode>)
    requires Storing(fs, ms)
    ensures Mount(ImageOf(fs, ms)) == Ok(fs)
  {
    hide SuperOnDisk, BitsOnDisk, InodeOnDisk, BlockOnDisk, Mount, Storing, RecordOff;
    var img := ImageOf(fs, ms);
    StoredSuper(fs, ms);
    StoredBits(fs, ms);
    forall i | 0 <= i < |fs.inodes|
      ensures RecordOff(fs.sb, i) + INODE_SIZE <= |img| && InodeOnDisk(img, RecordOff(fs.sb, i), fs.inodes[i])
    {
      StoringShape(fs, ms);
      StoredInode(fs, ms, i);
    }
    forall d | 0 <= d < |fs.data|
      ensures BlockOnDisk(img, fs.sb, d, fs.data[d])
    {
      StoredBlock(fs, ms, d);
    }
    StoringShape(fs, ms);
    MountIffOnDisk(img, fs);
  }

  lemma StoringShape(fs: Fs, ms: seq<MemInode>)
    requires Storing(fs, ms)
    ensures Shape(fs)
    ensures forall i :: 0 <= i < |fs.inodes| ==>
      RecordOff(fs.sb, i) + INODE_SIZE <= (fs.sb.DMin() + |fs.data|) * BLOCK_SIZE
  {
  }

  /** r is img but for the record at off. */
  ghost predicate SameBut(img: seq<byte>, r: seq<byte>, off: nat) {
    |r| == |img| && forall p :: 0 <= p < |img| && !(off <= p < off + INODE_SIZE) ==> r[p] == img[p]
  }

  lemma SameSections(img: seq<byte>, r: seq<byte>, fs: Fs, i: nat)
    requires |img| >= BLOCK_SIZE && OnDisk(img, fs) && i < |fs.inodes| && SameBut(img, r, RecordOff(fs.sb, i))
    ensures SuperOnDisk(r, fs.sb)
    ensures BitsOnDisk(r, 1, fs.sb.nrIbp, fs.iused) && BitsOnDisk(r, 1 + fs.sb.nrIbp, fs.sb.nrDbp, fs.dused)
    ensures forall d :: 0 <= d < |fs.data| ==> BlockOnDisk(r, fs.sb, d, fs.data[d])
  {
    hide InodeOnDisk;
    var off := RecordOff(fs.sb, i);
    assert off >= BLOCK_SIZE && off + INODE_SIZE <= (1 + fs.sb.nrIbp + fs.sb.nrDbp + fs.sb.nrI) * BLOCK_SIZE;
    SameBits(img, r, off, 1, fs.sb.nrIbp, fs.iused);
    SameBits(img, r, off, 1 + fs.sb.nrIbp, fs.sb.nrDbp, fs.dused);
    forall d | 0 <= d < |fs.data|
      ensures BlockOnDisk(r, fs.sb, d, fs.data[d])
    {
      assert BlockOnDisk(img, fs.sb, d, fs.data[d]);
    }
  }

  lemma SameBits(img: seq<byte>, r: seq<byte>, off: nat, bid: nat, n: nat, s: set<nat>)
    requires SameBut(img, r, off) && BitsOnDisk(img, bid, n, s) && (bid + n) * BLOCK_SIZE <= off <= |img|
    ensures BitsOnDisk(r, bid, n, s)
  {
    hide BitOn;
    forall i: nat | i < n * BITS_PER_BLOCK
      ensures BitOn(r, bid, i) <==> BitOn(img, bid, i)
    {
      SameBit(img, r, bid, i);
    }
  }

  lemma SameBit(img: seq<byte>, r: seq<byte>, bid: nat, i: nat)
    requires |r| == |img| && bid * BLOCK_SIZE + i / 8 < |img|
    requires r[bid * BLOCK_SIZE + i / 8] == img[bid * BLOCK_SIZE + i / 8]
    ensures BitOn(r, bid, i) <==> BitOn(img, bid, i)
  {
  }

  /** Writing an inode back changes what mounting yields in that inode only. */
  lemma WriteInodeThenMount(img: seq<byte>, fs: Fs, i: nat, m: MemInode)
    requires |img| >= BLOCK_SIZE && Mount(img) == Ok(fs) && i < |fs.inodes| && |m.slots| == IBLOCKS && Fits32(m)
    ensures HasSections(img, fs.sb) && i < fs.sb.Inodes()
    ensures Mount(PutInode(img, fs.sb, i, m)) == Ok(fs.(inodes := fs.inodes[i := ViewOf(m)]))
  {
    hide SuperOnDisk, BitsOnDisk, InodeOnDisk, BlockOnDisk, InodeAt, Fits32, EncodeInode, RecordOff, MagicOk,
      DecodeSuper;
    MountIffOnDisk(img, fs);
    assert HasSections(img, fs.sb) && i < fs.sb.Inodes();
    hide Mount;
    var r := PutInode(img, fs.sb, i, m);
    RecordAddress(fs.sb, i);
    SameSections(img, r, fs, i);
    var fs' := fs.(inodes := fs.inodes[i := ViewOf(m)]);
    forall j | 0 <= j < |fs.inodes|
      ensures RecordOff(fs.sb, j) + INODE_SIZE <= |r| && InodeOnDisk(r, RecordOff(fs.sb, j), fs'.inodes[j])
    {
      PutInodeAt(img, fs.sb, i, m, j);
      InodeReads(img, fs.sb, j, fs.inodes[j]);
      InodeReads(r, fs.sb, j, fs'.inodes[j]);
    }
    MountIffOnDisk(r, fs');
  }

  lemma RecordAddress(sb: Super, i: nat)
    requires i < sb.Inodes()
    ensures sb.Ino2Doff(i) == RecordOff(sb, i) && RecordOff(sb, i) + INODE_SIZE <= sb.DMin() * BLOCK_SIZE
  {
    InodeFits(sb, i);
  }

  /** The root directory mkfs makes: mode 040777, one link, and no blocks. */
  function RootRecord(uid: nat, gid: nat): MemInode {
    MemInode(0x41FF, uid, gid, 1, 0, 0, 0, 0, seq(IBLOCKS, _ => 0xFFFF_FFFF))
  }

  lemma RootRecordIs(uid: nat, gid: nat)
    requires uid < TWO32 && gid < TWO32
    ensures RootInode(uid, gid) == RootRecord(uid, gid)
    ensures Fits32(RootRecord(uid, gid)) && |RootRecord(uid, gid).slots| == IBLOCKS
  {
    assert NoBlocks() == RootRecord(uid, gid).slots;
  }

  lemma FormatRoot(img: seq<byte>, sb: Super, uid: nat, gid: nat)
    requires HasSections(img, sb) && ROOT_INO < sb.Inodes() && sb.nrIbp >= 1 && uid < TWO32 && gid < TWO32
    ensures var r := Format(img, sb, uid, gid);
            var root := RecordOff(sb, ROOT_INO);
      && root + INODE_SIZE <= |r| && InodeFields(r, root, RootRecord(uid, gid))
      && (forall p :: sb.IMin() * BLOCK_SIZE <= p < |r| && !(root <= p < root + INODE_SIZE) ==> r[p] == img[p])
  {
    hide EncodeInode, EncodeSuper, InodeFields, RecordOff, RootRecord, RootInode, Fits32;
    RecordAddress(sb, ROOT_INO);
    RootRecordIs(uid, gid);
    var r := Format(img, sb, uid, gid);
    var root := RecordOff(sb, ROOT_INO);
    assert r[root..root + INODE_SIZE] == EncodeInode(RootRecord(uid, gid));
    EncodeOffsets(r[root..root + INODE_SIZE], RootRecord(uid, gid));
    FieldsOfSlice(r, root, RootRecord(uid, gid));
  }

  /** The formatted image byte by byte: the superblock, 3 in the first byte of the
      inode bitmap and 0 in all others, an empty bitmap of blocks, and the root
      directory; nothing else is written. */
  lemma FormatBytes(img: seq<byte>, bnr: nat, uid: nat, gid: nat)
    requires 64 <= bnr < TWO32 && |img| >= bnr * BLOCK_SIZE && uid < TWO32 && gid < TWO32
    ensures var sb := Geometry(bnr);
      && HasSections(img, sb) && ROOT_INO < sb.Inodes() && sb.nrIbp >= 1
      && var r := Format(img, sb, uid, gid);
         var root := RecordOff(sb, ROOT_INO);
         && SuperOnDisk(r, sb) && root + INODE_SIZE <= |r|
         && (forall p :: BLOCK_SIZE <= p < (1 + sb.nrIbp + sb.nrDbp) * BLOCK_SIZE ==>
               r[p] == if p == BLOCK_SIZE then 3 else 0)
         && InodeFields(r, root, RootRecord(uid, gid))
         && (forall p :: (1 + sb.nrIbp + sb.nrDbp) * BLOCK_SIZE <= p < |r| && !(root <= p < root + INODE_SIZE) ==>
               r[p] == img[p])
  {
    hide EncodeInode, EncodeSuper, MagicOk, DecodeSuper, InodeFields, SuperOnDisk, Format, RecordOff, RootRecord,
      Geometry;
    FormatGeometry(bnr);
    var sb := Geometry(bnr);
    var r := Format(img, sb, uid, gid);
    FormatParts(img, sb, uid, gid);
    FormatRoot(img, sb, uid, gid);
    SuperRoundTrip(sb);
    SuperReads(r, sb);
    assert FIRST_BYTE as byte == 3 by {
      FirstByteIs();
    }
  }

  lemma FirstByteIs()
    ensures FIRST_BYTE as byte == 3
  {
  }
}
