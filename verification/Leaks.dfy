/** Blocks that no inode owns: once lost, a block is never used again, and a
    mapping without its write loses one. */
module Leaks {
  import opened Layout
  import opened FirstFit
  import opened Dentries
  import opened Namespace
  import opened State
  import opened Alloc
  import opened Slots
  import opened Creation
  import opened Deletion
  import opened FileData
  import opened Conservation
  import opened Runs

  /** An inode acquires no block that was used already. */
  lemma OnlyInodeKeepsLost(fs: Fs, fs': Fs, i: nat, b: nat)
    requires OnlyInode(fs, fs', i) && Lost(fs, b)
    ensures Lost(fs', b)
  {
    hide Blocks, Mapped;
    assert forall j :: Owns(fs', j, b) ==> Owns(fs, j, b);
  }

  lemma SameOwnersKeepLost(fs: Fs, fs': Fs, b: nat)
    requires Lost(fs, b) && fs.dused <= fs'.dused && LiveInodes(fs') == LiveInodes(fs)
    requires |fs'.inodes| == |fs.inodes|
    requires forall i :: 0 <= i < |fs.inodes| ==> fs'.inodes[i].slots == fs.inodes[i].slots
    ensures Lost(fs', b)
  {
    hide Blocks, Mapped;
    assert forall j :: Owns(fs', j, b) ==> Owns(fs, j, b);
  }

  lemma FillKeepsLost(fs: Fs, dir: nat, k: nat, d: Dentry, b: nat)
    requires HasEntry(fs, dir, k) && |d.name| == NAME_LEN && Lost(fs, b)
    ensures Lost(FillDentry(fs, dir, k, d), b)
  {
    hide PutDentry;
    SameOwnersKeepLost(fs, FillDentry(fs, dir, k, d), b);
  }

  lemma CreateKeepsLost(fs: Fs, dir: nat, name: Name, kind: Kind, b: nat)
    requires Inv(fs) && IsDir(fs, dir) && kind != Other && Lost(fs, b)
    ensures Lost(Create(fs, dir, name, kind).fs, b)
  {
    hide Ownership, Links, IsTree, OnlyInode, EntriesOf, FreeDentry, NewInode, DirsOf, Blocks, Mapped, FillDentry, Lost;
    if Fits(name) {
      FreeDentrySlot(fs, dir);
      var slot := FreeDentry(fs, dir);
      match slot.res {
        case Ok(k) =>
          OnlyInodeKeepsLost(fs, slot.fs, dir, b);
          NewInodeFresh(slot.fs, kind);
          if NewInode(slot.fs, kind).res.Ok? {
            var ino := NewInode(slot.fs, kind).res.value;
            NewInodeEffect(slot.fs, kind, ino);
            OnlyInodeKeepsLost(slot.fs, NewInode(slot.fs, kind).fs, ino, b);
            SlotThenInode(fs, dir, kind);
            FillKeepsLost(NewInode(slot.fs, kind).fs, dir, k, NewDentry(name, ino), b);
          }
        case Fail(_) =>
          SameOwnersKeepLost(fs, slot.fs, b);
      }
    }
  }

  /** No operation frees a lost block or gives it an owner. */
  lemma ApplyKeepsLost(fs: Fs, op: Op, b: nat)
    requires Inv(fs) && Allowed(fs, op) && Lost(fs, b)
    ensures Lost(Apply(fs, op), b)
  {
    hide Inv, Maps, IsDir, Create, Delete, MapBlock, Write, Filled, OnlyInode, DirsOf, IsNamed, Lost;
    match op {
      case CreateOp(dir, name) => CreateKeepsLost(fs, dir, name, Reg, b);
      case MkdirOp(dir, name) => CreateKeepsLost(fs, dir, name, Dir, b);
      case LookupOp(_, _) =>
      case ListOp(_, _) =>
      case UnlinkOp(dir, name, ino) =>
        UnlinkRemoves(fs, dir, name, ino);
        DeleteLoses(fs, dir, name, ino, b);
      case RmdirOp(dir, name, ino) =>
        RmdirRemovesEmpty(fs, dir, name, ino);
        if Rmdir(fs, dir, name, ino).res.Ok? {
          DeleteLoses(fs, dir, name, ino, b);
        }
      case MapOp(ino, iblock, create) =>
        MapBlockMaps(fs, ino, iblock, create);
        OnlyInodeKeepsLost(fs, Apply(fs, op), ino, b);
      case WriteOp(ino, pos, bytes) =>
        WriteStoresBytes(fs, ino, pos, bytes);
        OnlyInodeKeepsLost(fs, Apply(fs, op), ino, b);
    }
  }

  /** A block that is lost stays lost, whatever is done to the file system. */
  lemma {:induction false} RunKeepsLost(fs: Fs, ops: seq<Op>, fs': Fs, b: nat)
    requires Inv(fs) && Reaches(fs, ops, fs') && Lost(fs, b)
    ensures Lost(fs', b)
    decreases |ops|
  {
    hide Inv, Allowed, Apply, Lost;
    if ops != [] {
      ApplyKeeps(fs, ops[0]);
      ApplyKeepsLost(fs, ops[0], b);
      RunKeepsLost(Apply(fs, ops[0]), ops[1..], fs', b);
    }
  }
}
