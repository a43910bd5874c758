/** Which data blocks are used: exactly the owned ones, as long as every block
    mapping is part of a completed write. */
module Conservation {
  import opened Layout
  import opened Bytes
  import opened FirstFit
  import opened Dentries
  import opened Directory
  import opened Namespace
  import opened State
  import opened Alloc
  import opened Slots
  import opened Creation
  import opened Deletion
  import opened FileData

  predicate Exact(n: Inode) {
    Mapped(n.slots) == BlockCount(n.size)
  }

  ghost predicate Owns(fs: Fs, i: nat, b: nat) {
    i in LiveInodes(fs) && i < |fs.inodes| && b in Blocks(fs.inodes[i].slots)
  }

  /** Every inode owns exactly the blocks its size needs, and every used block
      has an owner. Bit RESERVED_DNO is no block. */
  ghost predicate Tight(fs: Fs) {
    && (forall i :: i in LiveInodes(fs) && i < |fs.inodes| ==> Exact(fs.inodes[i]))
    && (forall b :: b in fs.dused && b != RESERVED_DNO ==> exists i :: Owns(fs, i, b))
  }

  /** In a tight state the used blocks are the disjoint union of the owned ones. */
  lemma TightIsDisjointUnion(fs: Fs, b: nat)
    requires Inv(fs) && Tight(fs) && b != RESERVED_DNO
    ensures b in fs.dused <==> exists i :: Owns(fs, i, b)
    ensures forall i, j :: Owns(fs, i, b) && Owns(fs, j, b) ==> i == j
  {
    hide IsTree, Links;
  }

  lemma TightStep(fs: Fs, fs': Fs, i: nat)
    requires Tight(fs) && OnlyInode(fs, fs', i) && i < |fs.inodes| && Exact(fs'.inodes[i])
    requires fs'.dused <= fs.dused + Blocks(fs'.inodes[i].slots) + {RESERVED_DNO}
    requires i in LiveInodes(fs) ==> Blocks(fs.inodes[i].slots) <= Blocks(fs'.inodes[i].slots)
    ensures Tight(fs')
  {
    hide Exact, Mapped, Blocks;
    forall b | b in fs'.dused && b != RESERVED_DNO
      ensures exists j :: Owns(fs', j, b)
    {
      if b in Blocks(fs'.inodes[i].slots) {
        assert Owns(fs', i, b);
      } else {
        var j :| Owns(fs, j, b);
        assert Owns(fs', j, b);
      }
    }
  }

  lemma SlotFoundTight(fs: Fs, fs': Fs, dir: nat, k: nat)
    requires Inv(fs) && IsDir(fs, dir) && SlotFound(fs, fs', dir, k) && Tight(fs)
    ensures Tight(fs')
  {
    hide IsTree, Links, DirsOf, Mapped, Blocks, OnlyInode;
    assert InodeOk(fs'.inodes[dir]);
    TightStep(fs, fs', dir);
  }

  lemma NewInodeTight(fs: Fs, kind: Kind, ino: nat)
    requires Shape(fs) && Tight(fs) && NewInode(fs, kind).res == Ok(ino) && OnlyInode(fs, NewInode(fs, kind).fs, ino)
    ensures Tight(NewInode(fs, kind).fs)
  {
    hide OnlyInode;
    NewInodeFresh(fs, kind);
    MappedIs(NoBlocks(), 0);
    TightStep(fs, NewInode(fs, kind).fs, ino);
  }

  lemma FillTight(fs: Fs, dir: nat, k: nat, d: Dentry)
    requires Tight(fs) && HasEntry(fs, dir, k) && |d.name| == NAME_LEN
    ensures Tight(FillDentry(fs, dir, k, d))
  {
    hide PutDentry;
    var fs' := FillDentry(fs, dir, k, d);
    assert forall i, b :: Owns(fs, i, b) ==> Owns(fs', i, b);
  }

  lemma NoOwnerLost(fs: Fs, fs': Fs)
    requires Tight(fs) && fs' == fs.(dused := fs'.dused) && fs'.dused <= fs.dused + {RESERVED_DNO}
    ensures Tight(fs')
  {
    assert forall i, b :: Owns(fs, i, b) ==> Owns(fs', i, b);
  }

  /** Creating keeps the accounts, whether it succeeds or fails. */
  lemma CreateTight(fs: Fs, dir: nat, name: Name, kind: Kind)
    requires Inv(fs) && IsDir(fs, dir) && kind != Other && Tight(fs)
    ensures Tight(Create(fs, dir, name, kind).fs)
  {
    hide Ownership, Links, IsTree, OnlyInode, EntriesOf, FreeDentry, NewInode, DirsOf, Blocks, Mapped, PutDentry;
    if Fits(name) {
      FreeDentrySlot(fs, dir);
      var slot := FreeDentry(fs, dir);
      match slot.res {
        case Ok(k) =>
          SlotFoundTight(fs, slot.fs, dir, k);
          NewInodeFresh(slot.fs, kind);
          if NewInode(slot.fs, kind).res.Ok? {
            var ino := NewInode(slot.fs, kind).res.value;
            NewInodeEffect(slot.fs, kind, ino);
            NewInodeTight(slot.fs, kind, ino);
            var node := NewInode(slot.fs, kind).fs;
            SlotThenInode(fs, dir, kind);
            FillTight(node, dir, k, NewDentry(name, ino));
          }
        case Fail(_) =>
          NoOwnerLost(fs, slot.fs);
      }
    }
  }

  /** The accounts hold but for the blocks inode ino has beyond its size. */
  ghost predicate TightBut(fs: Fs, ino: nat) {
    && (forall i :: i in LiveInodes(fs) && i < |fs.inodes| && i != ino ==> Exact(fs.inodes[i]))
    && (forall b :: b in fs.dused && b != RESERVED_DNO ==> exists i :: Owns(fs, i, b))
  }

  /** A used block that no inode owns. */
  ghost predicate Lost(fs: Fs, b: nat) {
    b in fs.dused && b != RESERVED_DNO && forall i :: !Owns(fs, i, b)
  }

  /** What deleting loses: exactly the blocks the inode has beyond its size. */
  lemma DeleteLoses(fs: Fs, dir: nat, name: Name, ino: nat, b: nat)
    requires Inv(fs) && IsNamed(fs, dir, name, ino) && fs.inodes[ino].nlink <= 1
    ensures Lost(Delete(fs, dir, name, ino).fs, b) <==>
            Lost(fs, b) || b in Blocks(fs.inodes[ino].slots) - SizedBlocks(fs.inodes[ino])
  {
    hide Inv, Maps, Delete, Mapped, Blocks, SizedBlocks, DirsOf;
    var fs' := Delete(fs, dir, name, ino).fs;
    DeleteOwners(fs, dir, name, ino);
    LiveInodeOk(fs, ino);
    SizedBlocksOwned(fs.inodes[ino]);
    OwnedUsed(fs, b);
    DeleteRemoves(fs, dir, name, ino);
    assert b in Blocks(fs.inodes[ino].slots) <==> Owns(fs, ino, b);
  }

  /** Deleting changes the owners only of the deleted inode's blocks. */
  lemma DeleteOwners(fs: Fs, dir: nat, name: Name, ino: nat)
    requires Inv(fs) && IsNamed(fs, dir, name, ino) && fs.inodes[ino].nlink <= 1
    ensures ino in LiveInodes(fs)
    ensures var fs' := Delete(fs, dir, name, ino).fs;
      && (forall i, b :: Owns(fs', i, b) <==> i != ino && Owns(fs, i, b))
      && (forall i :: i in LiveInodes(fs') ==>
            i < |fs.inodes| && i < |fs'.inodes| && (Exact(fs'.inodes[i]) <==> Exact(fs.inodes[i])))
  {
    hide Inv, Maps, Delete, Mapped, Blocks, SizedBlocks, DirsOf;
    NamedEntry(fs, dir, name, ino);
    DeleteRemoves(fs, dir, name, ino);
    var fs' := Delete(fs, dir, name, ino).fs;
    InvShape(fs);
    InvShape(fs');
    forall i: nat | i < |fs.inodes|
      ensures fs'.inodes[i] == fs.inodes[i].(nlink := fs'.inodes[i].nlink)
    {
      DeleteKeepsInodes(fs, dir, name, ino, i);
    }
  }

  /** An owned block is used, and has one owner. */
  lemma OwnedUsed(fs: Fs, b: nat)
    requires Inv(fs)
    ensures forall i :: Owns(fs, i, b) ==> b in fs.dused && b != RESERVED_DNO
    ensures forall i, j :: Owns(fs, i, b) && Owns(fs, j, b) ==> i == j
  {
    hide IsTree, Links;
  }

  /** With the accounts otherwise in order, deleting keeps them exactly when the
      deleted inode owns just the blocks its size needs. */
  lemma DeleteTightExactly(fs: Fs, dir: nat, name: Name, ino: nat)
    requires Inv(fs) && IsNamed(fs, dir, name, ino) && fs.inodes[ino].nlink <= 1 && TightBut(fs, ino)
    ensures Tight(Delete(fs, dir, name, ino).fs) <==> Exact(fs.inodes[ino])
  {
    hide Inv, Maps, Delete, Mapped, Blocks, SizedBlocks, DirsOf, Exact;
    DeleteOwners(fs, dir, name, ino);
    LiveInodeOk(fs, ino);
    SizedBlocksOwned(fs.inodes[ino]);
    var fs' := Delete(fs, dir, name, ino).fs;
    forall b | b in fs.dused && b != RESERVED_DNO
      ensures Lost(fs', b) <==> b in Blocks(fs.inodes[ino].slots) - SizedBlocks(fs.inodes[ino])
    {
      DeleteLoses(fs, dir, name, ino, b);
    }
    DeleteRemoves(fs, dir, name, ino);
    assert Exact(fs.inodes[ino]) <==> Blocks(fs.inodes[ino].slots) - SizedBlocks(fs.inodes[ino]) == {} by {
      ExactIs(fs.inodes[ino]);
    }
    OwnedUsedAll(fs, ino);
  }

  lemma ExactIs(n: Inode)
    requires InodeOk(n)
    ensures Exact(n) <==> Blocks(n.slots) - SizedBlocks(n) == {}
  {
    hide Mapped, Blocks, SizedBlocks, BlockCount;
    SizedBlocksOwned(n);
    assert forall b :: b in Blocks(n.slots) && b !in SizedBlocks(n) ==> b in Blocks(n.slots) - SizedBlocks(n);
    assert SizedBlocks(n) == Blocks(n.slots) ==> Blocks(n.slots) - SizedBlocks(n) == {};
  }

  lemma OwnedUsedAll(fs: Fs, i: nat)
    requires Inv(fs) && i in LiveInodes(fs)
    ensures i < |fs.inodes| && forall b :: b in Blocks(fs.inodes[i].slots) ==> b in fs.dused && b != RESERVED_DNO
  {
    hide IsTree, Links;
  }

  /** Deleting frees exactly the blocks of the deleted inode. */
  lemma DeleteTight(fs: Fs, dir: nat, name: Name, ino: nat)
    requires Inv(fs) && IsNamed(fs, dir, name, ino) && fs.inodes[ino].nlink <= 1 && Tight(fs)
    ensures var fs' := Delete(fs, dir, name, ino).fs;
            Tight(fs') && fs'.dused == fs.dused - Blocks(fs.inodes[ino].slots)
  {
    hide Inv, Maps, Delete, Mapped, Blocks, SizedBlocks, DirsOf;
    NamedEntry(fs, dir, name, ino);
    DeleteTightExactly(fs, dir, name, ino);
    DeleteRemoves(fs, dir, name, ino);
    LiveInodeOk(fs, ino);
    SizedBlocksOwned(fs.inodes[ino]);
  }

  lemma LiveInodeOk(fs: Fs, i: nat)
    requires Inv(fs) && i in LiveInodes(fs)
    ensures i < |fs.inodes| && InodeOk(fs.inodes[i])
  {
  }

  /** A write maps exactly through the last byte it reports. */
  lemma {:induction false} WriteMaps(fs: Fs, ino: nat, pos: nat, s: seq<byte>)
    requires Inv(fs) && IsFile(fs, ino) && Write(fs, ino, pos, s).res.Ok?
    ensures var r := Write(fs, ino, pos, s);
            var n := r.res.value;
            var m := Mapped(fs.inodes[ino].slots);
            Mapped(r.fs.inodes[ino].slots) == if n == 0 then m else Max(m, BlockCount(pos + n))
    decreases |s|
  {
    hide Inv, DirsOf, OnlyInode, Mapped, Blocks, SlotsGrow, WritePage, Stored, Extended, Room, IsFile;
    if s != [] {
      var n := FirstPage(pos, s);
      PageMaps(fs, ino, pos, s[..n]);
      var page := WritePage(fs, ino, pos, s[..n]);
      WriteCount(page.fs, ino, pos + n, s[n..]);
      PageEnd(pos, n);
      hide BlockCount;
      if Write(page.fs, ino, pos + n, s[n..]).res.Ok? {
        WriteMaps(page.fs, ino, pos + n, s[n..]);
        CountMonotone(pos + n, pos + Write(fs, ino, pos, s).res.value);
      } else {
        WriteFailsClean(page.fs, ino, pos + n, s[n..]);
      }
    }
  }

  lemma CountMonotone(a: nat, b: nat)
    requires a <= b
    ensures BlockCount(a) <= BlockCount(b)
  {
  }

  lemma PageMaps(fs: Fs, ino: nat, pos: nat, s: seq<byte>)
    requires Inv(fs) && IsFile(fs, ino) && s != [] && pos % BLOCK_SIZE + |s| <= BLOCK_SIZE
    requires WritePage(fs, ino, pos, s).res.Ok?
    ensures Mapped(WritePage(fs, ino, pos, s).fs.inodes[ino].slots) ==
            Max(Mapped(fs.inodes[ino].slots), BlockCount(pos + |s|))
    ensures var r := WritePage(fs, ino, pos, s); Inv(r.fs) && IsFile(r.fs, ino) && r.res == Ok(|s|)
  {
    hide Inv, Mapped, WritePage, Room, IsFile, Stored;
    WritePageStores(fs, ino, pos, s);
    StoredInv(fs, WritePage(fs, ino, pos, s).fs, ino, pos, s);
    PageSucceedsExactly(fs, ino, pos, s);
    PageEnd(pos, |s|);
  }

  lemma WriteCount(fs: Fs, ino: nat, pos: nat, s: seq<byte>)
    requires Inv(fs) && IsFile(fs, ino)
    ensures var r := Write(fs, ino, pos, s).res; r.Ok? ==> r.value <= |s| && (s != [] ==> 0 < r.value)
  {
    hide Inv, Write, Stored, Extended, IsFile;
    WriteStoresBytes(fs, ino, pos, s);
  }

  /** A write that fails has tried its first page, and that page has taken as
      many of its blocks as there is room for. */
  lemma WriteFailMaps(fs: Fs, ino: nat, pos: nat, s: seq<byte>)
    requires Inv(fs) && IsFile(fs, ino) && Write(fs, ino, pos, s).res.Fail?
    ensures s != []
    ensures Mapped(Write(fs, ino, pos, s).fs.inodes[ino].slots) ==
            Mapped(fs.inodes[ino].slots) + Min(PageNeeds(fs, ino, pos, s[..FirstPage(pos, s)]), Room(fs))
  {
    hide Inv, Mapped, WritePage, Room, IsFile, PageNeeds;
    PageSucceedsExactly(fs, ino, pos, s[..FirstPage(pos, s)]);
  }

  /** A page that continues a mapped one and fails takes no block. */
  lemma WriteFailsClean(fs: Fs, ino: nat, pos: nat, s: seq<byte>)
    requires Inv(fs) && IsFile(fs, ino) && pos / BLOCK_SIZE <= Mapped(fs.inodes[ino].slots)
    requires Write(fs, ino, pos, s).res.Fail?
    ensures Mapped(Write(fs, ino, pos, s).fs.inodes[ino].slots) == Mapped(fs.inodes[ino].slots)
  {
    hide Inv, Mapped, Write, Room, IsFile, PageNeeds;
    WriteFailMaps(fs, ino, pos, s);
    WriteFailsExactly(fs, ino, pos, s);
    FileIndex(fs, ino);
    FirstPageNeeds(fs, ino, pos, s);
  }

  /** What a caller can check: the first page is past the largest file size, or
      there is room for every block up to it, or there is no room at all. */
  ghost predicate FirstPageClean(fs: Fs, ino: nat, pos: nat, s: seq<byte>)
    requires ino < |fs.inodes|
  {
    || s == [] || pos >= MAX_FILESIZE
    || pos / BLOCK_SIZE + 1 - Mapped(fs.inodes[ino].slots) <= Room(fs)
    || Room(fs) == 0
  }

  /** A write, finished or cut short, keeps the accounts exactly when its first
      page does not run out of room halfway through a hole. */
  lemma WriteTightExactly(fs: Fs, ino: nat, pos: nat, s: seq<byte>)
    requires Inv(fs) && IsFile(fs, ino) && Tight(fs)
    ensures Tight(Write(fs, ino, pos, s).fs) <==> FirstPageClean(fs, ino, pos, s)
  {
    hide Inv, DirsOf, OnlyInode, Mapped, Blocks, Write, WritePage, Room, PageNeeds;
    WriteStoresBytes(fs, ino, pos, s);
    if Write(fs, ino, pos, s).res.Ok? {
      WriteMaps(fs, ino, pos, s);
    } else {
      WriteFailMaps(fs, ino, pos, s);
    }
    WriteFailsExactly(fs, ino, pos, s);
    if s != [] {
      FirstPageNeeds(fs, ino, pos, s);
    }
    var fs' := Write(fs, ino, pos, s).fs;
    assert Exact(fs.inodes[ino]);
    if Exact(fs'.inodes[ino]) {
      TightStep(fs, fs', ino);
    }
  }

  /** A write that fits keeps the accounts. */
  lemma FittingWriteClean(fs: Fs, ino: nat, pos: nat, s: seq<byte>)
    requires Inv(fs) && IsFile(fs, ino) && WriteFits(fs, ino, pos, s)
    ensures FirstPageClean(fs, ino, pos, s)
  {
    hide Inv, Mapped, Room;
  }

  /** What a caller can check: the mapping creates nothing, is out of range or
      already there, or there is no block left to take. */
  predicate MapGuard(fs: Fs, ino: nat, iblock: nat, create: bool)
    requires ino < |fs.inodes|
  {
    || !create || iblock >= IBLOCKS || iblock < Mapped(fs.inodes[ino].slots)
    || GetDblock(fs).res == RESERVED_DNO
  }

  /** Block mapping on its own keeps the accounts exactly when it takes no
      block: a block mapped beyond the size is used but not counted by it. */
  lemma MapBlockTight(fs: Fs, ino: nat, iblock: nat, create: bool)
    requires Inv(fs) && IsFile(fs, ino) && Tight(fs)
    ensures |fs.inodes[ino].slots| == IBLOCKS
    ensures Tight(MapBlock(fs, ino, iblock, create).fs) <==> MapGuard(fs, ino, iblock, create)
  {
    hide Inv, DirsOf, Mapped, Blocks, MapBlock, Room;
    FileSlots(fs, ino);
    InvShape(fs);
    GetDblockRoom(fs);
    MapBlockMaps(fs, ino, iblock, create);
    MapBlockTakes(fs, ino, iblock, create);
    var fs' := MapBlock(fs, ino, iblock, create).fs;
    assert Exact(fs.inodes[ino]);
    if Mapped(fs'.inodes[ino].slots) == Mapped(fs.inodes[ino].slots) {
      TightStep(fs, fs', ino);
    }
  }

  /** A successful create takes a data block only for the directory. */
  lemma CreateUses(fs: Fs, dir: nat, name: Name, kind: Kind)
    requires Inv(fs) && IsDir(fs, dir) && kind != Other && Create(fs, dir, name, kind).res.Ok?
    ensures var made := Create(fs, dir, name, kind).fs;
            dir < |made.inodes| && made.dused == fs.dused + Blocks(made.inodes[dir].slots)
  {
    hide Ownership, Links, IsTree, OnlyInode, FreeDentry, NewInode, DirsOf, Blocks, Mapped, PutDentry;
    FreeDentrySlot(fs, dir);
    var slot := FreeDentry(fs, dir).fs;
    NewInodeFresh(slot, kind);
    SlotThenInode(fs, dir, kind);
  }

  /** Creating a name and deleting it again restores every name map and both
      bitmaps, but for what the parent directory keeps. */
  lemma CreateThenDelete(fs: Fs, dir: nat, name: Name, kind: Kind, ino: nat)
    requires Inv(fs) && IsDir(fs, dir) && kind != Other
    requires NulFree(name) && dir in Maps(fs) && name !in Maps(fs)[dir]
    requires Create(fs, dir, name, kind).res == Ok(ino)
    ensures var made := Create(fs, dir, name, kind).fs;
      && Inv(made) && IsNamed(made, dir, name, ino) && made.inodes[ino].nlink == 1
      && var fs' := Delete(made, dir, name, ino).fs;
         && Inv(fs') && Maps(fs') == Maps(fs) && fs'.iused == fs.iused
         && dir < |fs'.inodes| && fs'.dused == fs.dused + Blocks(fs'.inodes[dir].slots)
  {
    hide Inv, Maps, Delete, Create, Blocks, DirsOf;
    CreateInserts(fs, dir, name, kind);
    var made := Create(fs, dir, name, kind).fs;
    InvShape(made);
    InvShape(fs);
    CreateUses(fs, dir, name, kind);
    assert SizedBlocks(made.inodes[ino]) == {};
    MapsAt(fs, ino);
    assert ino !in Maps(fs);
    DeleteRemoves(made, dir, name, ino);
    DeleteKeepsInodes(made, dir, name, ino, dir);
    RemovedInserted(Maps(fs), dir, name, ino, kind == Dir);
    var fs' := Delete(made, dir, name, ino).fs;
    InvShape(fs');
    assert fs.iused == LiveInodes(fs) + {RESERVED_INO} && made.iused == LiveInodes(made) + {RESERVED_INO};
  }

  lemma RemovedInserted(m: map<nat, map<Name, nat>>, dir: nat, name: Name, ino: nat, isDir: bool)
    requires dir in m && ino !in m && name !in m[dir]
    ensures var t := Inserted(m, dir, name, ino, isDir);
            dir in t && (t - {ino})[dir := t[dir] - {name}] == m
  {
    var t := Inserted(m, dir, name, ino, isDir);
    assert t[dir] - {name} == m[dir];
  }

  /** Creating, whether it succeeds or fails, touches no file. */
  lemma CreateKeepsFiles(fs: Fs, dir: nat, name: Name, kind: Kind, j: nat)
    requires Inv(fs) && IsDir(fs, dir) && kind != Other && IsFile(fs, j)
    ensures FileKept(fs, Create(fs, dir, name, kind).fs, j)
  {
    hide Links, IsTree, OnlyInode, EntriesOf, FreeDentry, NewInode, DirsOf, Blocks, Mapped, PutDentry, ByteAt,
      FillDentry;
    if Fits(name) {
      FreeDentrySlot(fs, dir);
      var slot := FreeDentry(fs, dir);
      match slot.res {
        case Ok(k) =>
          OtherFileKept(fs, slot.fs, dir, j);
          NewInodeFresh(slot.fs, kind);
          if NewInode(slot.fs, kind).res.Ok? {
            CreateAtKeepsFiles(fs, slot.fs, dir, k, name, kind, j);
          }
        case Fail(_) =>
          DusedOnlyKeepsFiles(fs, slot.fs, j);
      }
    }
  }

  lemma CreateAtKeepsFiles(fs: Fs, slot: Fs, dir: nat, k: nat, name: Name, kind: Kind, j: nat)
    requires IsDir(fs, dir) && SlotFound(fs, slot, dir, k) && kind != Other && Fits(name)
    requires IsFile(fs, j) && IsFile(slot, j) && NewInode(slot, kind).res.Ok?
    requires HasEntry(NewInode(slot, kind).fs, dir, k)
    ensures FileKept(slot, CreateAt(slot, dir, k, name, kind).fs, j)
  {
    hide Ownership, Links, IsTree, OnlyInode, EntriesOf, DirsOf, PutDentry, ByteAt, FillDentry, Strncpy;
    NewInodeFresh(slot, kind);
    var ino := NewInode(slot, kind).res.value;
    NewInodeEffect(slot, kind, ino);
    var node := NewInode(slot, kind).fs;
    OtherFileKept(slot, node, ino, j);
    DirsAt(slot, dir);
    DirsAt(node, dir);
    var d := NewDentry(name, ino);
    assert d.Live() && d.Storable();
    FillEffect(node, dir, k, d);
    OtherFileKept(node, FillDentry(node, dir, k, d), dir, j);
  }

  lemma DusedOnlyKeepsFiles(fs: Fs, fs': Fs, j: nat)
    requires IsFile(fs, j) && fs' == fs.(dused := fs'.dused)
    ensures FileKept(fs, fs', j)
  {
  }

  /** Deleting touches no other file. */
  lemma DeleteKeepsFiles(fs: Fs, dir: nat, name: Name, ino: nat, j: nat)
    requires Inv(fs) && IsNamed(fs, dir, name, ino) && fs.inodes[ino].nlink <= 1 && IsFile(fs, j) && j != ino
    ensures FileKept(fs, Delete(fs, dir, name, ino).fs, j)
  {
    hide Inv, Ownership, Links, EntriesOf, OnlyInode, DirsOf, IsNamed, PutIno, ByteAt, KillDentry, Find, SizedBlocks;
    InvOwnership(fs);
    InvLinks(fs);
    NamedEntry(fs, dir, name, ino);
    var k := Find(EntriesOf(fs.data, fs.inodes[dir]), name);
    KillEffect(fs, dir, k);
    var fs1 := KillDentry(fs, dir, k);
    OtherFileKept(fs, fs1, dir, j);
    var fs' := Delete(fs, dir, name, ino).fs;
    DeleteKeepsInodes(fs, dir, name, ino, j);
    SameBytes(fs, fs1, fs', j);
  }

  lemma InvLinks(fs: Fs)
    requires Inv(fs)
    ensures Shape(fs) && Links(fs)
  {
  }

  lemma SameBytes(fs: Fs, fs1: Fs, fs': Fs, j: nat)
    requires FileKept(fs, fs1, j) && fs'.data == fs1.data
    requires j < |fs'.inodes| && fs'.inodes[j] == fs1.inodes[j] && j in fs'.iused
    ensures FileKept(fs, fs', j)
  {
  }

  /** Taking any number of blocks by first fit stays on the device exactly when
      the state before has that many unused blocks of the device. */
  lemma StaysOnDevice(fs: Fs, fs': Fs)
    requires OnDevice(fs) && fs'.sb == fs.sb && Filled(fs.dused, fs'.dused)
    ensures OnDevice(fs') <==> |fs'.dused - fs.dused| <= DeviceRoom(fs)
  {
    FilledStaysBelow(fs.dused, fs'.dused, fs.sb.nrD);
    assert fs'.dused == fs.dused + (fs'.dused - fs.dused);
  }

  /** While the device has an unused block, the next one handed out is one of
      its data section; afterwards the spare bitmap bits are handed out. */
  lemma NextBlockOnDevice(fs: Fs)
    requires Shape(fs) && OnDevice(fs)
    ensures fs.sb.Holds(DataBlocks, fs.sb.Dno2Bid(GetDblock(fs).res)) <==> |fs.dused| < fs.sb.nrD
  {
    StaysBelow(fs.dused, fs.sb.DataBits(), fs.sb.nrD);
  }

  /** On the device, a mapped slot addresses the data section. */
  lemma MappedOnDevice(fs: Fs, i: nat, k: nat)
    requires Inv(fs) && OnDevice(fs) && i in LiveInodes(fs) && i < |fs.inodes| && k < Mapped(fs.inodes[i].slots)
    ensures fs.sb.Holds(DataBlocks, fs.sb.Dno2Bid(fs.inodes[i].slots[k]))
  {
    hide IsTree, Links;
    OwnedInData(fs, i, k);
    assert fs.inodes[i].slots[k] in fs.dused;
  }
}
