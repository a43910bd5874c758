/** The device as a byte image: the superblock and inode records, what mkfs
    writes, and what mounting reads back. */
module Image {
  import opened Layout
  import opened Bytes
  import opened Bitmaps
  import opened Namespace
  import opened State
  import opened Alloc
  import opened Runs

  /** A record of 32-bit words, little endian. */
  function Words(ws: seq<nat>): (r: seq<byte>)
    ensures |r| == 4 * |ws|
  {
    if ws == [] then [] else Words(ws[..|ws| - 1]) + Le32(ws[|ws| - 1])
  }

  lemma {:induction false} WordsAt(ws: seq<nat>, i: nat)
    requires i < |ws|
    ensures Words(ws)[4 * i..4 * i + 4] == Le32(ws[i])
    ensures WordAt(Words(ws), 4 * i) == U32(ws[i])
  {
    var n := |ws| - 1;
    WordOfLe32(ws[i]);
    if i < n {
      WordsAt(ws[..n], i);
      assert Words(ws)[4 * i..4 * i + 4] == Words(ws[..n])[4 * i..4 * i + 4];
    }
  }

  /** An inode as the VFS holds it, times in whole seconds. */
  datatype MemInode = MemInode(mode: nat, uid: nat, gid: nat, nlink: nat, size: nat,
                               atime: nat, mtime: nat, ctime: nat, slots: seq<nat>)

  /** The words of the on-disk record, in the order of its declaration. */
  function RecordWords(m: MemInode): seq<nat> {
    [m.mode, m.uid, m.gid, m.nlink, m.size, m.atime, m.mtime, m.ctime] + m.slots
  }

  /** `yaf_write_inode`: every field is cut to 32 bits. */
  function EncodeInode(m: MemInode): (r: seq<byte>)
    requires |m.slots| == IBLOCKS
    ensures |r| == INODE_SIZE
  {
    Words(RecordWords(m))
  }

  /** The decoding in `yaf_iget`; the mode is held in 16 bits. */
  function DecodeInode(b: seq<byte>): (m: MemInode)
    requires |b| == INODE_SIZE
    ensures |m.slots| == IBLOCKS
  {
    MemInode(WordAt(b, 0) % 65536, WordAt(b, 4), WordAt(b, 8), WordAt(b, 12), WordAt(b, 16),
             WordAt(b, 20), WordAt(b, 24), WordAt(b, 28), SlotWords(b))
  }

  function SlotWords(b: seq<byte>): (s: seq<nat>)
    requires |b| == INODE_SIZE
    ensures |s| == IBLOCKS && forall i :: 0 <= i < IBLOCKS ==> s[i] == WordAt(b, 32 + 4 * i)
  {
    seq(IBLOCKS, i requires 0 <= i < IBLOCKS => WordAt(b, 32 + 4 * i))
  }

  /** The fields fit the widths of the record and of the mode. */
  predicate Fits32(m: MemInode) {
    && m.mode < 65536 && m.uid < TWO32 && m.gid < TWO32 && m.nlink < TWO32 && m.size < TWO32
    && m.atime < TWO32 && m.mtime < TWO32 && m.ctime < TWO32
    && forall i :: 0 <= i < |m.slots| ==> m.slots[i] < TWO32
  }

  /** Storing an inode and loading it gives the same inode exactly when its
      fields fit. */
  lemma InodeRoundTrip(m: MemInode)
    requires |m.slots| == IBLOCKS
    ensures DecodeInode(EncodeInode(m)) == m <==> Fits32(m)
  {
    hide Words, WordAt;
    var ws := RecordWords(m);
    forall i | 0 <= i < 16
      ensures WordAt(EncodeInode(m), 4 * i) == U32(ws[i])
    {
      WordsAt(ws, i);
    }
    var r := DecodeInode(EncodeInode(m));
    assert WordAt(EncodeInode(m), 4 * 0) == U32(m.mode);
    assert WordAt(EncodeInode(m), 4 * 1) == U32(m.uid) && WordAt(EncodeInode(m), 4 * 2) == U32(m.gid);
    assert WordAt(EncodeInode(m), 4 * 3) == U32(m.nlink) && WordAt(EncodeInode(m), 4 * 4) == U32(m.size);
    assert WordAt(EncodeInode(m), 4 * 5) == U32(m.atime) && WordAt(EncodeInode(m), 4 * 6) == U32(m.mtime);
    assert WordAt(EncodeInode(m), 4 * 7) == U32(m.ctime);
    forall i | 0 <= i < IBLOCKS
      ensures r.slots[i] == U32(m.slots[i])
    {
      assert ws[8 + i] == m.slots[i];
      assert 32 + 4 * i == 4 * (8 + i);
    }
    assert r == m <==> r.mode == m.mode && r.uid == m.uid && r.gid == m.gid && r.nlink == m.nlink && r.size == m.size
                       && r.atime == m.atime && r.mtime == m.mtime && r.ctime == m.ctime
                       && forall i :: 0 <= i < IBLOCKS ==> r.slots[i] == m.slots[i];
  }

  /** Every live inode of a good state fits its record, so its record is loaded
      back as it was stored, whatever fitting owner and times it is given. */
  lemma InodeFitsRecord(fs: Fs, i: nat, m: MemInode)
    requires Inv(fs) && i in LiveInodes(fs) && i < |fs.inodes| && ViewOf(m) == fs.inodes[i]
    requires m.mode < 65536 && m.uid < TWO32 && m.gid < TWO32
    requires m.atime < TWO32 && m.mtime < TWO32 && m.ctime < TWO32
    ensures m.size <= MAX_FILESIZE && m.nlink <= MAX_DENTRYS + 1
    ensures |m.slots| == IBLOCKS && DecodeInode(EncodeInode(m)) == m
  {
    hide Inv, EncodeInode, DecodeInode, KindOf;
    LiveInodeFits(fs, i);
    InodeRoundTrip(m);
  }

  lemma LiveInodeFits(fs: Fs, i: nat)
    requires Inv(fs) && i in LiveInodes(fs)
    ensures i < |fs.inodes|
    ensures var n := fs.inodes[i];
      && n.size <= MAX_FILESIZE && n.nlink <= MAX_DENTRYS + 1 && |n.slots| == IBLOCKS
      && forall k :: 0 <= k < IBLOCKS ==> n.slots[k] < TWO32
  {
    hide IsTree, EntriesOf, Mapped;
    assert LinkOk(fs, i);
    var n := fs.inodes[i];
    assert InodeOk(n);
    SizeBound(n.size);
    forall k | 0 <= k < IBLOCKS
      ensures n.slots[k] < TWO32
    {
      assert k < Mapped(n.slots) ==> n.slots[k] in Blocks(n.slots);
    }
  }

  lemma SizeBound(size: nat)
    requires BlockCount(size) <= IBLOCKS
    ensures size <= MAX_FILESIZE && size / DENTRY_SIZE <= MAX_DENTRYS
  {
  }

  predicate HasSections(img: seq<byte>, sb: Super) {
    sb.DMin() * BLOCK_SIZE <= |img|
  }

  /** The record of inode ino in the image. */
  function InodeAt(img: seq<byte>, sb: Super, ino: nat): MemInode
    requires HasSections(img, sb) && ino < sb.Inodes()
  {
    InodeFits(sb, ino);
    DecodeInode(img[sb.Ino2Doff(ino)..sb.Ino2Doff(ino) + INODE_SIZE])
  }

  function PutInode(img: seq<byte>, sb: Super, ino: nat, m: MemInode): (r: seq<byte>)
    requires HasSections(img, sb) && ino < sb.Inodes() && |m.slots| == IBLOCKS
    ensures |r| == |img|
  {
    InodeFits(sb, ino);
    Splice(img, sb.Ino2Doff(ino), EncodeInode(m))
  }

  lemma InodeFits(sb: Super, ino: nat)
    requires ino < sb.Inodes()
    ensures sb.IMin() * BLOCK_SIZE <= sb.Ino2Doff(ino)
    ensures sb.Ino2Doff(ino) + INODE_SIZE <= sb.DMin() * BLOCK_SIZE
  {
  }

  /** Storing one inode changes its record and no other. */
  lemma PutInodeAt(img: seq<byte>, sb: Super, i: nat, m: MemInode, j: nat)
    requires HasSections(img, sb) && i < sb.Inodes() && j < sb.Inodes() && |m.slots| == IBLOCKS && Fits32(m)
    ensures InodeAt(PutInode(img, sb, i, m), sb, j) == if i == j then m else InodeAt(img, sb, j)
  {
    hide EncodeInode, DecodeInode, Fits32, Splice;
    InodeFits(sb, i);
    InodeFits(sb, j);
    var off := sb.Ino2Doff(j);
    InodeRoundTrip(m);
    SpliceRanges(img, sb.Ino2Doff(i), EncodeInode(m), off, off + INODE_SIZE);
    if i < j {
      InodeAddress(sb, i, j);
    } else if j < i {
      InodeAddress(sb, j, i);
    }
  }

  const MAGIC: seq<byte> := [121, 97, 102, 0]
  const MAGIC_LEN := 4080

  /** The magic field: "yaf" and its NUL, over and over. */
  function MagicFill(n: nat): (r: seq<byte>)
    requires n % 4 == 0
    ensures |r| == n && forall i :: 0 <= i < n ==> r[i] == MAGIC[i % 4]
  {
    if n == 0 then [] else MagicFill(n - 4) + MAGIC
  }

  function EncodeSuper(sb: Super): (r: Block)
    ensures |r| == BLOCK_SIZE
  {
    Words([sb.nrIbp, sb.nrDbp, sb.nrI, sb.nrD]) + MagicFill(MAGIC_LEN)
  }

  predicate MagicOk(b: Block)
    requires |b| == BLOCK_SIZE
  {
    forall g :: 0 <= g < MAGIC_LEN / 4 ==> MagicAt(b, g)
  }

  /** One comparison of the magic check. */
  predicate MagicAt(b: Block, g: int) {
    0 <= g && 16 + 4 * g + 4 <= |b| && b[16 + 4 * g..16 + 4 * g + 4] == MAGIC
  }

  function DecodeSuper(b: Block): Super
    requires |b| == BLOCK_SIZE
  {
    Super(WordAt(b, 0), WordAt(b, 4), WordAt(b, 8), WordAt(b, 12))
  }

  /** Mounting accepts the magic that formatting writes and recovers the counts. */
  lemma SuperRoundTrip(sb: Super)
    requires sb.nrIbp < TWO32 && sb.nrDbp < TWO32 && sb.nrI < TWO32 && sb.nrD < TWO32
    ensures MagicOk(EncodeSuper(sb)) && DecodeSuper(EncodeSuper(sb)) == sb
  {
    hide EncodeSuper, MagicAt;
    forall g | 0 <= g < MAGIC_LEN / 4
      ensures MagicAt(EncodeSuper(sb), g)
    {
      SuperMagic(sb, g);
    }
    SuperCount(sb, 0);
    SuperCount(sb, 1);
    SuperCount(sb, 2);
    SuperCount(sb, 3);
  }

  lemma SuperMagic(sb: Super, g: nat)
    requires g < MAGIC_LEN / 4
    ensures MagicAt(EncodeSuper(sb), g)
  {
    var w, f := Words([sb.nrIbp, sb.nrDbp, sb.nrI, sb.nrD]), MagicFill(MAGIC_LEN);
    hide Words, MagicFill;
    assert EncodeSuper(sb) == w + f && |w| == 16;
    hide EncodeSuper;
    TailSlice(w, f, 4 * g, 4 * g + 4);
    MagicSlice(f, g);
  }

  lemma TailSlice(w: seq<byte>, f: seq<byte>, lo: nat, hi: nat)
    requires lo <= hi <= |f|
    ensures (w + f)[|w| + lo..|w| + hi] == f[lo..hi]
  {
  }

  lemma MagicSlice(f: seq<byte>, g: nat)
    requires 4 * g + 4 <= |f| && forall i :: 0 <= i < |f| ==> f[i] == MAGIC[i % 4]
    ensures f[4 * g..4 * g + 4] == MAGIC
  {
  }

  lemma SuperCount(sb: Super, i: nat)
    requires i < 4
    ensures WordAt(EncodeSuper(sb), 4 * i) == U32([sb.nrIbp, sb.nrDbp, sb.nrI, sb.nrD][i])
  {
    hide Words, MagicFill;
    var ws := [sb.nrIbp, sb.nrDbp, sb.nrI, sb.nrD];
    WordsAt(ws, i);
    assert EncodeSuper(sb)[4 * i..4 * i + 4] == Words(ws)[4 * i..4 * i + 4];
  }

  /** S_ISDIR and S_ISREG. */
  function KindOf(mode: nat): Kind {
    if mode / 4096 % 16 == 4 then Dir else if mode / 4096 % 16 == 8 then Reg else Other
  }

  function ViewOf(m: MemInode): Inode {
    Inode(KindOf(m.mode), m.nlink, m.size, m.slots)
  }

  /** The bytes of n bitmap blocks from block bid on. */
  function SectionBits(img: seq<byte>, bid: nat, n: nat): (r: seq<bv8>)
    requires (bid + n) * BLOCK_SIZE <= |img|
    ensures |r| == n * BLOCK_SIZE
    ensures forall i :: 0 <= i < n * BLOCK_SIZE ==> r[i] == img[bid * BLOCK_SIZE + i] as bv8
  {
    seq(n * BLOCK_SIZE, i requires 0 <= i < n * BLOCK_SIZE => img[bid * BLOCK_SIZE + i] as bv8)
  }

  /** Data block d; past the end of the device it reads as zeros. */
  function DataBlock(img: seq<byte>, sb: Super, d: nat): (b: Block)
    ensures |b| == BLOCK_SIZE
  {
    var off := sb.Dno2Bid(d) * BLOCK_SIZE;
    if off + BLOCK_SIZE <= |img| then img[off..off + BLOCK_SIZE] else Zeros(BLOCK_SIZE)
  }

  /** The state held by an image whose superblock says sb. */
  ghost function Load(img: seq<byte>, sb: Super): (fs: Fs)
    requires HasSections(img, sb)
    ensures fs.sb == sb && |fs.inodes| == sb.Inodes() && |fs.data| == sb.DataBits()
    ensures forall b :: 0 <= b < |fs.data| ==> |fs.data[b]| == BLOCK_SIZE
    ensures forall i :: 0 <= i < sb.Inodes() ==> fs.inodes[i] == ViewOf(InodeAt(img, sb, i))
  {
    Fs(sb,
       UsedIn(SectionBits(img, sb.IbpMin(), sb.nrIbp)),
       UsedIn(SectionBits(img, sb.DbpMin(), sb.nrDbp)),
       LoadInodes(img, sb), LoadData(img, sb))
  }

  function LoadInodes(img: seq<byte>, sb: Super): seq<Inode>
    requires HasSections(img, sb)
  {
    seq(sb.Inodes(), i requires 0 <= i < sb.Inodes() => ViewOf(InodeAt(img, sb, i)))
  }

  function LoadData(img: seq<byte>, sb: Super): seq<Block> {
    seq(sb.DataBits(), d requires 0 <= d => DataBlock(img, sb, d))
  }

  /** `yaf_fill_super`: the magic check, the four counts and the root inode. An
      image too short for its sections is a failed read. */
  ghost function Mount(img: seq<byte>): Result<Fs>
    requires |img| >= BLOCK_SIZE
  {
    var b := img[..BLOCK_SIZE];
    var sb := DecodeSuper(b);
    if !MagicOk(b) then Fail(EINVAL)
    else if ROOT_INO >= sb.Inodes() then Fail(EINVAL)
    else if !HasSections(img, sb) then Fail(EIO)
    else Ok(Load(img, sb))
  }

  const ROOT_MODE := 0x41FF

  function RootInode(uid: nat, gid: nat): MemInode {
    MemInode(ROOT_MODE, uid, gid, 1, 0, 0, 0, 0, NoBlocks())
  }

  /** The first byte of the inode bitmap: bits 0 and 1. */
  const FIRST_BYTE: bv8 := SetBit(SetBit(0, RESERVED_INO), ROOT_INO)

  function ZeroSection(img: seq<byte>, bid: nat, n: nat): (r: seq<byte>)
    requires (bid + n) * BLOCK_SIZE <= |img|
    ensures |r| == |img|
  {
    Splice(img, bid * BLOCK_SIZE, Zeros(n * BLOCK_SIZE))
  }

  /** The image mkfs leaves. */
  function Format(img: seq<byte>, sb: Super, uid: nat, gid: nat): (r: seq<byte>)
    requires HasSections(img, sb) && ROOT_INO < sb.Inodes() && sb.nrIbp >= 1
    ensures |r| == |img|
  {
    var img1 := Splice(img, 0, EncodeSuper(sb));
    var img2 := ZeroSection(img1, sb.IbpMin(), sb.nrIbp);
    var img3 := Splice(img2, sb.IbpMin() * BLOCK_SIZE, [FIRST_BYTE as byte]);
    var img4 := ZeroSection(img3, sb.DbpMin(), sb.nrDbp);
    PutInode(img4, sb, ROOT_INO, RootInode(uid, gid))
  }

  /** Both bitmap sections are zero but for the first byte of the inode bitmap. */
  ghost predicate BitmapsFormatted(img: seq<byte>, sb: Super)
    requires HasSections(img, sb)
  {
    && (forall p :: sb.IbpMin() * BLOCK_SIZE <= p < sb.DbpMin() * BLOCK_SIZE ==>
          img[p] == if p == sb.IbpMin() * BLOCK_SIZE then FIRST_BYTE as byte else 0)
    && (forall p :: sb.DbpMin() * BLOCK_SIZE <= p < sb.IMin() * BLOCK_SIZE ==> img[p] == 0)
  }

  /** What each part of the formatted image holds. */
  lemma FormatParts(img: seq<byte>, sb: Super, uid: nat, gid: nat)
    requires HasSections(img, sb) && ROOT_INO < sb.Inodes() && sb.nrIbp >= 1
    requires uid < TWO32 && gid < TWO32
    ensures var r := Format(img, sb, uid, gid);
      && r[..BLOCK_SIZE] == EncodeSuper(sb)
      && InodeAt(r, sb, ROOT_INO) == RootInode(uid, gid)
      && BitmapsFormatted(r, sb)
  {
    hide EncodeInode, DecodeInode, EncodeSuper;
    var img1 := Splice(img, 0, EncodeSuper(sb));
    var img2 := ZeroSection(img1, sb.IbpMin(), sb.nrIbp);
    var img3 := Splice(img2, sb.IbpMin() * BLOCK_SIZE, [FIRST_BYTE as byte]);
    var img4 := ZeroSection(img3, sb.DbpMin(), sb.nrDbp);
    var r := Format(img, sb, uid, gid);
    PutInodeAt(img4, sb, ROOT_INO, RootInode(uid, gid), ROOT_INO);
    InodeFits(sb, ROOT_INO);
    assert forall i :: 0 <= i < sb.IMin() * BLOCK_SIZE ==> r[i] == img4[i];
    assert r[..BLOCK_SIZE] == EncodeSuper(sb);
  }

  lemma FirstByteBits()
    ensures FIRST_BYTE as byte as bv8 == FIRST_BYTE
    ensures forall j: nat :: j < 8 ==> (Bit(FIRST_BYTE, j) <==> j < 2)
    ensures forall j: nat :: j < 8 ==> !Bit(0, j)
  {
  }

  /** Formatting and mounting yields an empty root directory over exactly the
      sections that were laid out. */
  lemma FormatThenMount(img: seq<byte>, bnr: nat, uid: nat, gid: nat)
    requires 64 <= bnr < TWO32 && |img| >= bnr * BLOCK_SIZE && uid < TWO32 && gid < TWO32
    ensures var sb := Geometry(bnr);
      && HasSections(img, sb) && ROOT_INO < sb.Inodes() && sb.nrIbp >= 1
      && var r := Mount(Format(img, sb, uid, gid));
         r.Ok? && r.value.sb == sb && Formatted(r.value)
  {
    hide EncodeInode, DecodeInode, EncodeSuper, MagicOk, DecodeSuper, Format, Words, UsedIn;
    FormatGeometry(bnr);
    var sb := Geometry(bnr);
    var r := Format(img, sb, uid, gid);
    FormatParts(img, sb, uid, gid);
    SuperRoundTrip(sb);
    FormattedBits(r, sb);
    assert KindOf(ROOT_MODE) == Dir;
  }

  lemma FormattedBits(r: seq<byte>, sb: Super)
    requires HasSections(r, sb) && sb.nrIbp >= 1
    requires BitmapsFormatted(r, sb)
    ensures UsedIn(SectionBits(r, sb.IbpMin(), sb.nrIbp)) == {RESERVED_INO, ROOT_INO}
    ensures UsedIn(SectionBits(r, sb.DbpMin(), sb.nrDbp)) == {}
  {
  }
}
