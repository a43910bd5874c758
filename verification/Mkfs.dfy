/** Formatting a device in place, mounting it, and writing inodes back to it. */
module Mkfs {
  import opened Layout
  import opened Bytes
  import opened Bitmaps
  import opened Alloc
  import opened Driver
  import opened Image
  import opened DiskLayout

  class Device {
    const image: array<byte>

    constructor (bytes: seq<byte>)
      ensures image[..] == bytes && fresh(image)
    {
      image := new byte[|bytes|](i requires 0 <= i < |bytes| => bytes[i]);
      new;
      assert image[..] == bytes;
    }

    /** `lseek` to off and `write`. */
    method Write(off: nat, bytes: seq<byte>)
      requires off + |bytes| <= image.Length
      modifies image
      ensures image[..] == Splice(old(image[..]), off, bytes)
    {
      forall i | 0 <= i < |bytes| {
        image[off + i] := bytes[i];
      }
    }

    /** `write_superblock`: the counts it computed. */
    method WriteSuperblock(bnr: nat) returns (sb: Super)
      requires image.Length >= BLOCK_SIZE
      modifies image
      ensures sb == Geometry(bnr)
      ensures 64 <= bnr < TWO32 ==> LaidOut(sb, AlignDown(bnr, INODES_PER_BLOCK))
      ensures image[..] == Splice(old(image[..]), 0, EncodeSuper(sb))
    {
      sb := Geometry(bnr);
      if 64 <= bnr < TWO32 {
        GeometryLeast(bnr, sb);
      }
      var magic: seq<byte> := [];
      var idx := 0;
      while idx < MAGIC_LEN
        invariant idx % 4 == 0 && idx <= MAGIC_LEN && magic == MagicFill(idx)
      {
        magic := magic + MAGIC;
        idx := idx + |MAGIC|;
      }
      Write(0, Words([sb.nrIbp, sb.nrDbp, sb.nrI, sb.nrD]) + magic);
    }

    /** The zeroing loop of both bitmap writers. */
    method ZeroBlocks(bid: nat, n: nat)
      requires (bid + n) * BLOCK_SIZE <= image.Length
      modifies image
      ensures image[..] == ZeroSection(old(image[..]), bid, n)
    {
      for i := 0 to n
        invariant image[..] == Splice(old(image[..]), bid * BLOCK_SIZE, Zeros(i * BLOCK_SIZE))
      {
        ghost var before := image[..];
        Write((bid + i) * BLOCK_SIZE, Zeros(BLOCK_SIZE));
        assert image[..] == Splice(old(image[..]), bid * BLOCK_SIZE, Zeros((i + 1) * BLOCK_SIZE)) by {
          ZeroMore(old(image[..]), before, image[..], bid, i);
        }
      }
    }

    method WriteInodeBitmap(sb: Super)
      requires HasSections(image[..], sb) && sb.nrIbp >= 1
      modifies image
      ensures image[..] == Splice(ZeroSection(old(image[..]), sb.IbpMin(), sb.nrIbp),
                                  sb.IbpMin() * BLOCK_SIZE, [FIRST_BYTE as byte])
    {
      ZeroBlocks(sb.IbpMin(), sb.nrIbp);
      var b: bv8 := 0;
      FirstByteBits();
      b := SetBit(b, Idx2Beoff(RESERVED_INO));
      b := SetBit(b, Idx2Beoff(ROOT_INO));
      Write(sb.IdxI2Bid(RESERVED_INO) * BLOCK_SIZE + Idx2Bkoff(RESERVED_INO), [b as byte]);
    }

    method WriteDataBitmap(sb: Super)
      requires HasSections(image[..], sb)
      modifies image
      ensures image[..] == ZeroSection(old(image[..]), sb.DbpMin(), sb.nrDbp)
    {
      ZeroBlocks(sb.DbpMin(), sb.nrDbp);
    }

    /** `write_inode_blocks`: the root inode. */
    method WriteInodeBlocks(sb: Super, uid: nat, gid: nat)
      requires HasSections(image[..], sb) && ROOT_INO < sb.Inodes()
      modifies image
      ensures image[..] == PutInode(old(image[..]), sb, ROOT_INO, RootInode(uid, gid))
    {
      var slots: seq<nat> := [];
      for i := 0 to IBLOCKS
        invariant |slots| == i && forall j :: 0 <= j < i ==> slots[j] == RESERVED_DNO
      {
        slots := slots + [RESERVED_DNO];
      }
      assert slots == NoBlocks();
      InodeFits(sb, ROOT_INO);
      Write(sb.Ino2Doff(ROOT_INO), EncodeInode(MemInode(ROOT_MODE, uid, gid, 1, 0, 0, 0, 0, slots)));
    }

    /** The whole of mkfs. */
    method MakeFs(bnr: nat, uid: nat, gid: nat) returns (sb: Super)
      requires 64 <= bnr < TWO32 && image.Length >= bnr * BLOCK_SIZE
      modifies image
      ensures sb == Geometry(bnr) && HasSections(old(image[..]), sb) && ROOT_INO < sb.Inodes() && sb.nrIbp >= 1
      ensures image[..] == Format(old(image[..]), sb, uid, gid)
    {
      FormatGeometry(bnr);
      sb := WriteSuperblock(bnr);
      WriteInodeBitmap(sb);
      WriteDataBitmap(sb);
      WriteInodeBlocks(sb, uid, gid);
    }

    /** `yaf_write_inode`, field by field. */
    method WriteInode(sb: Super, ino: nat, m: MemInode)
      requires HasSections(image[..], sb) && ino < sb.Inodes() && |m.slots| == IBLOCKS
      modifies image
      ensures image[..] == PutInode(old(image[..]), sb, ino, m)
    {
      hide Le32, Words, HasWord;
      InodeFits(sb, ino);
      var off := sb.Ino2Bid(ino) * BLOCK_SIZE + sb.Ino2Boff(ino);
      ghost var ws := RecordWords(m);
      PutWord(off, 0, m.mode, ws);
      PutWord(off, 1, m.uid, ws);
      PutWord(off, 2, m.gid, ws);
      PutWord(off, 3, m.nlink, ws);
      PutWord(off, 5, m.atime, ws);
      PutWord(off, 6, m.mtime, ws);
      PutWord(off, 7, m.ctime, ws);
      PutWord(off, 4, m.size, ws);
      for i := 0 to IBLOCKS
        invariant image[..off] == old(image[..off]) && image[off + INODE_SIZE..] == old(image[off + INODE_SIZE..])
        invariant forall j :: 0 <= j < 8 + i ==> HasWord(image[..], off, j, ws[j])
      {
        PutWord(off, 8 + i, m.slots[i], ws);
      }
      WordsAre(image[off..off + INODE_SIZE], ws, image[..], off);
      assert image[..] == image[..off] + image[off..off + INODE_SIZE] + image[off + INODE_SIZE..];
    }

    /** Stores word i of the record at off and keeps its other words. */
    method PutWord(off: nat, i: nat, x: nat, ghost ws: seq<nat>)
      requires i < 16 == |ws| && ws[i] == x && off + INODE_SIZE <= image.Length
      modifies image
      ensures HasWord(image[..], off, i, x)
      ensures forall j :: 0 <= j < 16 && HasWord(old(image[..]), off, j, ws[j]) ==> HasWord(image[..], off, j, ws[j])
      ensures image[..off] == old(image[..off]) && image[off + INODE_SIZE..] == old(image[off + INODE_SIZE..])
    {
      hide Le32, Splice;
      ghost var before := image[..];
      Write(off + 4 * i, Le32(x));
      assert image[..] == Splice(before, off + 4 * i, Le32(x));
      forall j | 0 <= j < 16 && j != i && HasWord(before, off, j, ws[j])
        ensures HasWord(image[..], off, j, ws[j])
      {
        SpliceRanges(before, off + 4 * i, Le32(x), off + 4 * j, off + 4 * j + 4);
      }
      SpliceRanges(before, off + 4 * i, Le32(x), 0, off);
      SpliceRanges(before, off + 4 * i, Le32(x), off + INODE_SIZE, image.Length);
    }

    /** The magic loop of `yaf_fill_super`. */
    method CheckMagic() returns (ok: bool)
      requires image.Length >= BLOCK_SIZE
      ensures ok <==> MagicOk(image[..BLOCK_SIZE])
    {
      var idx := 0;
      while idx < MAGIC_LEN
        invariant idx % 4 == 0 && idx <= MAGIC_LEN
        invariant forall g :: 0 <= g < idx / 4 ==> MagicAt(image[..BLOCK_SIZE], g)
      {
        assert image[16 + idx..16 + idx + 4] == image[..BLOCK_SIZE][16 + 4 * (idx / 4)..16 + 4 * (idx / 4) + 4];
        if image[16 + idx..16 + idx + 4] != MAGIC {
          assert !MagicAt(image[..BLOCK_SIZE], idx / 4);
          return false;
        }
        idx := idx + |MAGIC|;
      }
      return true;
    }

    /** `yaf_fill_super`: a mounted file system over a copy of the device, in the
        state that the bytes of the device hold. */
    method FillSuper() returns (r: Result<Yaf>)
      requires image.Length >= BLOCK_SIZE
      ensures match Mount(image[..])
              case Ok(fs) => r.Ok? && r.value.Valid() && r.value.Abs() == fs
              case Fail(e) => r == Fail(e)
      ensures r.Ok? ==> OnDisk(image[..], r.value.Abs())
    {
      var magic := CheckMagic();
      assert image[..][..BLOCK_SIZE] == image[..BLOCK_SIZE];
      if !magic {
        return Fail(EINVAL);
      }
      var img := image[..];
      var sb := DecodeSuper(img[..BLOCK_SIZE]);
      if ROOT_INO >= sb.Inodes() {
        return Fail(EINVAL);
      }
      if !HasSections(img, sb) {
        return Fail(EIO);
      }
      var yaf := new Yaf(sb, SectionBits(img, sb.IbpMin(), sb.nrIbp), SectionBits(img, sb.DbpMin(), sb.nrDbp),
                         LoadInodes(img, sb), LoadData(img, sb));
      assert Mount(img) == Ok(yaf.Abs());
      MountIffOnDisk(img, yaf.Abs());
      return Ok(yaf);
    }
  }

  /** Word i of the record at off is x. */
  ghost predicate HasWord(img: seq<byte>, off: nat, i: int, x: nat) {
    0 <= i && off + 4 * i + 4 <= |img| && img[off + 4 * i..off + 4 * i + 4] == Le32(x)
  }

  lemma {:induction false} WordsAre(b: seq<byte>, ws: seq<nat>, img: seq<byte>, off: nat)
    requires off + 4 * |ws| <= |img| && b == img[off..off + 4 * |ws|]
    requires forall j :: 0 <= j < |ws| ==> HasWord(img, off, j, ws[j])
    ensures b == Words(ws)
    decreases |ws|
  {
    if ws != [] {
      var n := |ws| - 1;
      WordsAre(img[off..off + 4 * n], ws[..n], img, off);
      assert HasWord(img, off, n, ws[n]);
      assert b == img[off..off + 4 * n] + img[off + 4 * n..off + 4 * n + 4];
    }
  }

  lemma ZeroMore(a: seq<byte>, b: seq<byte>, c: seq<byte>, bid: nat, i: nat)
    requires (bid + i + 1) * BLOCK_SIZE <= |a|
    requires b == Splice(a, bid * BLOCK_SIZE, Zeros(i * BLOCK_SIZE))
    requires c == Splice(b, (bid + i) * BLOCK_SIZE, Zeros(BLOCK_SIZE))
    ensures c == Splice(a, bid * BLOCK_SIZE, Zeros((i + 1) * BLOCK_SIZE))
  {
  }
}
