/** What a file holds survives every run that does not write or delete it. */
module Durability {
  import opened Layout
  import opened Bytes
  import opened Dentries
  import opened State
  import opened Alloc
  import opened Creation
  import opened Deletion
  import opened FileData
  import opened Conservation
  import opened Runs

  /** The operation neither writes nor deletes file j; it may map blocks of it. */
  predicate Spares(op: Op, j: nat) {
    && (op.WriteOp? ==> op.ino != j)
    && (op.UnlinkOp? ==> op.ino != j)
  }

  /** File j has the same size, and every mapped byte reads the same. */
  ghost predicate FileStays(fs: Fs, fs': Fs, j: nat) {
    && IsFile(fs, j) && IsFile(fs', j) && fs'.inodes[j].size == fs.inodes[j].size
    && Mapped(fs.inodes[j].slots) <= Mapped(fs'.inodes[j].slots)
    && forall p: nat :: p / BLOCK_SIZE < Mapped(fs.inodes[j].slots) ==> ByteAt(fs', j, p) == ByteAt(fs, j, p)
  }

  lemma KeptStays(fs: Fs, fs': Fs, j: nat)
    requires FileKept(fs, fs', j)
    ensures FileStays(fs, fs', j)
  {
    hide ByteAt;
  }

  lemma StaysTrans(fs: Fs, fs1: Fs, fs2: Fs, j: nat)
    requires FileStays(fs, fs1, j) && FileStays(fs1, fs2, j)
    ensures FileStays(fs, fs2, j)
  {
    hide ByteAt, Mapped;
  }

  lemma ExtendedStays(fs: Fs, fs': Fs, j: nat)
    requires Extended(fs, fs', j)
    ensures FileStays(fs, fs', j)
  {
    hide Inv, DirsOf, OnlyInode, Mapped, Blocks, OwnGrowth;
  }

  lemma OtherStays(fs: Fs, fs': Fs, i: nat, j: nat)
    requires Inv(fs) && Inv(fs') && OnlyInode(fs, fs', i) && i != j && IsFile(fs, j)
    ensures FileStays(fs, fs', j)
  {
    hide Inv, OnlyInode, ByteAt;
    InvOwnership(fs);
    InvOwnership(fs');
    OtherFileKept(fs, fs', i, j);
    KeptStays(fs, fs', j);
  }

  lemma DeleteStays(fs: Fs, dir: nat, name: Name, ino: nat, j: nat)
    requires Inv(fs) && IsNamed(fs, dir, name, ino) && fs.inodes[ino].nlink <= 1 && IsFile(fs, j) && j != ino
    ensures FileStays(fs, Delete(fs, dir, name, ino).fs, j)
  {
    hide Inv, Maps, Delete;
    DeleteKeepsFiles(fs, dir, name, ino, j);
    KeptStays(fs, Delete(fs, dir, name, ino).fs, j);
  }

  lemma CreateStays(fs: Fs, dir: nat, name: Name, kind: Kind, j: nat)
    requires Inv(fs) && IsDir(fs, dir) && kind != Other && IsFile(fs, j)
    ensures FileStays(fs, Create(fs, dir, name, kind).fs, j)
  {
    hide Inv, Create;
    CreateKeepsFiles(fs, dir, name, kind, j);
    KeptStays(fs, Create(fs, dir, name, kind).fs, j);
  }

  lemma StaysRefl(fs: Fs, j: nat)
    requires IsFile(fs, j)
    ensures FileStays(fs, fs, j)
  {
  }

  lemma ApplySparing(fs: Fs, op: Op, j: nat)
    requires Inv(fs) && Allowed(fs, op) && IsFile(fs, j) && Spares(op, j)
    ensures FileStays(fs, Apply(fs, op), j)
  {
    hide Inv, Maps, Create, Delete, MapBlock, Write, OnlyInode, DirsOf, IsNamed, FileStays, Extended, Stored, IsFile;
    StaysRefl(fs, j);
    match op {
      case CreateOp(dir, name) => CreateStays(fs, dir, name, Reg, j);
      case MkdirOp(dir, name) => CreateStays(fs, dir, name, Dir, j);
      case LookupOp(_, _) =>
      case ListOp(_, _) =>
      case UnlinkOp(dir, name, ino) =>
        UnlinkRemoves(fs, dir, name, ino);
        DeleteStays(fs, dir, name, ino, j);
      case RmdirOp(dir, name, ino) =>
        RmdirRemovesEmpty(fs, dir, name, ino);
        NotBoth(fs, ino, j);
        if Rmdir(fs, dir, name, ino).res.Ok? {
          DeleteStays(fs, dir, name, ino, j);
        }
      case MapOp(ino, iblock, create) =>
        MapBlockMaps(fs, ino, iblock, create);
        ExtendedOrOther(fs, Apply(fs, op), ino, j);
      case WriteOp(ino, pos, bytes) =>
        WriteStoresBytes(fs, ino, pos, bytes);
        WriteTouches(fs, ino, pos, bytes);
        OtherStays(fs, Apply(fs, op), ino, j);
    }
  }

  lemma NotBoth(fs: Fs, i: nat, j: nat)
    requires IsDir(fs, i) && IsFile(fs, j)
    ensures i != j
  {
  }

  lemma ExtendedOrOther(fs: Fs, fs': Fs, ino: nat, j: nat)
    requires Inv(fs) && Extended(fs, fs', ino) && IsFile(fs, j)
    ensures FileStays(fs, fs', j)
  {
    hide Inv, DirsOf, OnlyInode, SlotsGrow, OwnGrowth, FileStays;
    if ino == j {
      ExtendedStays(fs, fs', j);
    } else {
      OtherStays(fs, fs', ino, j);
    }
  }

  lemma WriteTouches(fs: Fs, ino: nat, pos: nat, s: seq<byte>)
    requires Inv(fs) && IsFile(fs, ino)
    ensures var r := Write(fs, ino, pos, s); Inv(r.fs) && OnlyInode(fs, r.fs, ino)
  {
    hide Inv, Write, OnlyInode, DirsOf, SlotsGrow, OwnGrowth, ByteAt;
    WriteStoresBytes(fs, ino, pos, s);
  }

  ghost predicate AllSpare(ops: seq<Op>, j: nat) {
    forall k :: 0 <= k < |ops| ==> Spares(ops[k], j)
  }

  /** Over any run that neither writes nor deletes file j, the file keeps its
      size, and every byte mapped at the start reads the same at the end. */
  lemma {:induction false} RunKeepsFile(fs: Fs, ops: seq<Op>, fs': Fs, j: nat)
    requires Inv(fs) && Reaches(fs, ops, fs') && IsFile(fs, j) && AllSpare(ops, j)
    ensures Inv(fs') && FileStays(fs, fs', j)
    decreases |ops|
  {
    hide Inv, Allowed, Apply, Spares, FileStays;
    StaysRefl(fs, j);
    if ops != [] {
      ApplyKeeps(fs, ops[0]);
      ApplySparing(fs, ops[0], j);
      StaysIsFile(fs, Apply(fs, ops[0]), j);
      RunKeepsFile(Apply(fs, ops[0]), ops[1..], fs', j);
      StaysTrans(fs, Apply(fs, ops[0]), fs', j);
    }
  }

  lemma StaysIsFile(fs: Fs, fs': Fs, j: nat)
    requires FileStays(fs, fs', j)
    ensures IsFile(fs', j)
  {
  }

  /** A write that fits is read back after any run that does not write or delete
      the file again. */
  lemma WrittenStaysRead(fs: Fs, ino: nat, pos: nat, s: seq<byte>, ops: seq<Op>, fs': Fs, p: nat)
    requires Inv(fs) && IsFile(fs, ino) && WriteFits(fs, ino, pos, s)
    requires Reaches(fs, [WriteOp(ino, pos, s)] + ops, fs') && AllSpare(ops, ino)
    requires pos <= p < pos + |s|
    ensures IsFile(fs', ino) && |fs'.inodes[ino].slots| == IBLOCKS && ReadByte(fs', ino, p) == Some(s[p - pos])
    ensures fs'.inodes[ino].size == Max(fs.inodes[ino].size, pos + |s|)
  {
    hide Inv, Write, WriteFits, ReadByte, Reaches, ByteAt, Mapped;
    var op := WriteOp(ino, pos, s);
    FirstStep(fs, op, ops, fs');
    var fs1 := Write(fs, ino, pos, s).fs;
    WriteThenRead(fs, ino, pos, s, ino, p);
    RunKeepsFile(fs1, ops, fs', ino);
    FileSlots(fs', ino);
    ReadIsByteAt(fs1, ino, p);
    ReadIsByteAt(fs', ino, p);
  }

  lemma FirstStep(fs: Fs, op: Op, ops: seq<Op>, fs': Fs)
    requires Inv(fs) && Reaches(fs, [op] + ops, fs')
    ensures Allowed(fs, op) && Inv(Apply(fs, op)) && Reaches(Apply(fs, op), ops, fs')
  {
    hide Inv, Allowed, Apply;
    assert ([op] + ops)[1..] == ops;
    ApplyKeeps(fs, op);
  }
}
