/** Runs from a formatted device that end where the code differs from its
    documentation: a lost block, and a first bitmap block that is full. */
module Witnesses {
  import opened Layout
  import opened FirstFit
  import opened Dentries
  import opened Directory
  import opened State
  import opened Alloc
  import opened Slots
  import opened Creation
  import opened Deletion
  import opened FileData
  import opened Readdir
  import opened Conservation
  import opened Runs
  import opened Compiled
  import opened CompiledRuns

  /** An empty tree: the root is the only inode and has no names. */
  ghost predicate Blank(fs: Fs) {
    Inv(fs) && fs.iused == {RESERVED_INO, ROOT_INO} && Maps(fs) == map[ROOT_INO := map[]]
  }

  /** The root and one file of size 0. */
  ghost predicate OneFile(fs: Fs, name: Name, ino: nat) {
    && Inv(fs) && fs.iused == {RESERVED_INO, ROOT_INO, ino} && ROOT_INO < ino
    && Maps(fs) == map[ROOT_INO := map[name := ino]] && NulFree(name)
    && IsFile(fs, ino) && fs.inodes[ino].size == 0
  }

  function RootSize(fs: Fs): nat
    requires ROOT_INO < |fs.inodes|
  {
    fs.inodes[ROOT_INO].size
  }

  lemma FormattedIsBlank(fs: Fs)
    requires Formatted(fs)
    ensures Blank(fs) && RootSize(fs) == 0
  {
    hide Inv, Maps;
    FormattedIsGood(fs);
  }

  lemma DirectoryCounts(fs: Fs, dir: nat)
    requires Inv(fs) && dir in Maps(fs)
    ensures IsDir(fs, dir)
    ensures LiveCount(EntriesOf(fs.data, fs.inodes[dir])) == |Maps(fs)[dir]|
    ensures fs.inodes[dir].size == DENTRY_SIZE * |EntriesOf(fs.data, fs.inodes[dir])|
  {
    hide Inv, Maps, DirsOf, NameMap, NamesOk;
    MapsAt(fs, dir);
    DirsAt(fs, dir);
    InvOwnership(fs);
    DirSize(fs, dir);
    LiveEntriesAreNames(DirsOf(fs)[dir]);
  }

  /** In an empty tree a name can be created if the root has an entry already or
      there is a block for it; the compiled driver needs one of the first bitmap
      block. */
  lemma BlankCreate(fs: Fs, name: Name)
    requires Blank(fs) && NulFree(name) && Fits(name)
    ensures IsDir(fs, ROOT_INO)
    ensures Allowed(fs, CreateOp(ROOT_INO, name))
    ensures RootSize(fs) > 0 || GetDblock(fs).res != RESERVED_DNO ==> Create(fs, ROOT_INO, name, Reg).res.Ok?
    ensures RootSize(fs) > 0 || FirstBlockRoom(fs) > 0 ==>
      CompiledGuard(fs, CreateOp(ROOT_INO, name)) && Create(fs, ROOT_INO, name, Reg).res.Ok?
  {
    hide Inv, Maps, EntriesOf, Create, Least, FirstBlockRoom, LiveCount, FirstDead;
    InvShape(fs);
    FirstBlockStep(fs);
    FirstBlockDecides(fs);
    DirectoryCounts(fs, ROOT_INO);
    LeastAtMostUsed(fs.iused, BITS_PER_BLOCK);
    FullMeansAllLive(EntriesOf(fs.data, fs.inodes[ROOT_INO]));
    CreateFailsExactly(fs, ROOT_INO, name, Reg);
    assert 2 !in fs.iused && 2 < |fs.inodes|;
  }

  lemma BlankCreated(fs: Fs, name: Name)
    requires Blank(fs) && NulFree(name) && IsDir(fs, ROOT_INO) && Create(fs, ROOT_INO, name, Reg).res.Ok?
    ensures var r := Create(fs, ROOT_INO, name, Reg);
      OneFile(r.fs, name, r.res.value) && r.fs.inodes[r.res.value] == Inode(Reg, 1, 0, NoBlocks())
  {
    hide Inv, Maps, Create, Filled, OnlyInode;
    var r := Create(fs, ROOT_INO, name, Reg);
    CreateInserts(fs, ROOT_INO, name, Reg);
    InvShape(fs);
    InvShape(r.fs);
    assert r.fs.iused == LiveInodes(r.fs) + {RESERVED_INO};
    assert Inserted(Maps(fs), ROOT_INO, name, r.res.value, false) == map[ROOT_INO := map[name := r.res.value]];
  }

  /** The root then has an entry; only the first create takes a block. */
  lemma BlankCreateTakes(fs: Fs, name: Name)
    requires Blank(fs) && NulFree(name) && IsDir(fs, ROOT_INO) && Create(fs, ROOT_INO, name, Reg).res.Ok?
    ensures var r := Create(fs, ROOT_INO, name, Reg);
      && ROOT_INO < |r.fs.inodes| && RootSize(r.fs) > 0
      && (RootSize(fs) > 0 ==> r.fs.dused == fs.dused)
      && (r.fs.dused == fs.dused || r.fs.dused == Taken(fs.dused, fs.sb.DataBits()))
  {
    hide Inv, Maps, EntriesOf, Create, LiveCount, Taken;
    var r := Create(fs, ROOT_INO, name, Reg);
    BlankCreated(fs, name);
    CreateGrowsAtMostOne(fs, ROOT_INO, name, Reg);
    InvShape(r.fs);
    DirectoryCounts(fs, ROOT_INO);
    DirectoryCounts(r.fs, ROOT_INO);
  }

  /** Mapping the first block of the file takes one, while there is one; the
      compiled driver needs one of the first bitmap block. */
  lemma MapFirst(fs: Fs, name: Name, ino: nat)
    requires OneFile(fs, name, ino) && fs.inodes[ino] == Inode(Reg, 1, 0, NoBlocks())
    ensures Allowed(fs, MapOp(ino, 0, true))
    ensures CompiledGuard(fs, MapOp(ino, 0, true)) <==> FirstBlockRoom(fs) > 0
    ensures FirstBlockRoom(fs) > 0 ==>
      GetDblock(fs).res != RESERVED_DNO && FirstBlockRoom(GetDblock(fs).fs) == FirstBlockRoom(fs) - 1
    ensures GetDblock(fs).res != RESERVED_DNO ==>
      var fs' := MapBlock(fs, ino, 0, true).fs;
      && OneFile(fs', name, ino) && RootSize(fs') == RootSize(fs) && fs'.sb == fs.sb
      && GetDblock(fs).res in Blocks(fs'.inodes[ino].slots) && fs'.dused == GetDblock(fs).fs.dused
      && MapBlock(fs, ino, 0, true).res == Ok(Some(GetDblock(fs).res))
  {
    hide Inv, Maps, DirsOf, Blocks, Extended, Mapped, FirstBlockRoom, Taken, Least;
    MappedIs(NoBlocks(), 0);
    InvShape(fs);
    GetDblockFresh(fs);
    FirstBlockStep(fs);
    FirstBlockDecides(fs);
    MapBlockMaps(fs, ino, 0, true);
    var fs' := MapBlock(fs, ino, 0, true).fs;
    ExtendedMaps(fs, fs', ino);
    if GetDblock(fs).res != RESERVED_DNO {
      var fs1 := SetSlot(GetDblock(fs).fs, ino, 0, GetDblock(fs).res);
      assert Extend(fs1, ino, 1, 1) == Step(fs1, true);
      assert fs' == fs1;
      MappedInBlocks(fs', ino);
    }
  }

  lemma MappedInBlocks(fs: Fs, ino: nat)
    requires IsFile(fs, ino) && Mapped(fs.inodes[ino].slots) > 0
    ensures fs.inodes[ino].slots[0] in Blocks(fs.inodes[ino].slots)
  {
  }

  lemma ExtendedMaps(fs: Fs, fs': Fs, ino: nat)
    requires Inv(fs) && Extended(fs, fs', ino)
    ensures Inv(fs') && IsFile(fs', ino) && Maps(fs') == Maps(fs)
  {
    hide Inv, DirsOf, OnlyInode, SlotsGrow, OwnGrowth, Maps;
    MapsSame(fs, fs');
  }

  /** Deleting the file gives the empty tree back, and frees nothing. */
  lemma UnlinkOnly(fs: Fs, name: Name, ino: nat)
    requires OneFile(fs, name, ino)
    ensures Allowed(fs, UnlinkOp(ROOT_INO, name, ino)) && fs.inodes[ino].nlink <= 1
    ensures var fs' := Delete(fs, ROOT_INO, name, ino).fs;
      && Apply(fs, UnlinkOp(ROOT_INO, name, ino)) == fs'
      && Blank(fs') && fs'.dused == fs.dused && RootSize(fs') == RootSize(fs) && fs'.sb == fs.sb
      && SizedBlocks(fs.inodes[ino]) == {}
  {
    hide Inv, Maps, Delete, DirsOf, Find, SizedBlocks;
    InvShape(fs);
    UnlinkRemoves(fs, ROOT_INO, name, ino);
    DeleteRemoves(fs, ROOT_INO, name, ino);
    DeleteKeepsInodes(fs, ROOT_INO, name, ino, ROOT_INO);
    MapsAt(fs, ino);
    NothingSized(fs.inodes[ino]);
  }

  lemma NothingSized(n: Inode)
    requires n.size == 0
    ensures SizedBlocks(n) == {}
  {
  }

  lemma FormattedRoom(fs: Fs)
    requires Formatted(fs)
    ensures FirstBlockRoom(fs) == BITS_PER_BLOCK
  {
    ClearBelowNone(BITS_PER_BLOCK);
  }

  /** A create in the empty tree uses at most one block of the first bitmap block. */
  lemma BlankCreateRoom(fs: Fs, name: Name)
    requires Blank(fs) && NulFree(name) && IsDir(fs, ROOT_INO) && Create(fs, ROOT_INO, name, Reg).res.Ok?
    ensures FirstBlockRoom(Create(fs, ROOT_INO, name, Reg).fs) >= FirstBlockRoom(fs) - 1
    ensures ROOT_INO < |fs.inodes| && RootSize(fs) > 0 ==>
      FirstBlockRoom(Create(fs, ROOT_INO, name, Reg).fs) == FirstBlockRoom(fs)
  {
    hide Inv, Maps, Create, FirstBlockRoom, Taken, Least;
    BlankCreateTakes(fs, name);
    InvShape(fs);
    FirstBlockStep(fs);
    var r := Create(fs, ROOT_INO, name, Reg);
    BlankCreated(fs, name);
    InvShape(r.fs);
    FirstBlockStep(r.fs);
    if r.fs.dused == fs.dused {
      SameBitmap(fs, r.fs);
    } else {
      SameBitmap(GetDblock(fs).fs, r.fs);
    }
  }

  /** A file mapped but not written, and then deleted: every step is allowed and
      succeeds, the tree is empty again, and the block is lost. */
  lemma MappingLosesABlock(fs: Fs, name: Name) returns (ino: nat, b: nat, fs': Fs)
    requires Formatted(fs) && NulFree(name) && Fits(name)
    ensures Inv(fs)
    ensures ReachesCompiled(fs, [CreateOp(ROOT_INO, name), MapOp(ino, 0, true), UnlinkOp(ROOT_INO, name, ino)], fs')
    ensures Inv(fs') && Maps(fs') == Maps(fs) && Lost(fs', b)
  {
    hide Inv, Maps, Allowed, CompiledGuard, Create, MapBlock, Delete, Lost, FirstBlockRoom, Taken, Blocks, SizedBlocks,
      ReachesCompiled;
    FormattedIsBlank(fs);
    FormattedRoom(fs);
    BlankCreate(fs, name);
    BlankCreateRoom(fs, name);
    BlankCreated(fs, name);
    ino := Create(fs, ROOT_INO, name, Reg).res.value;
    var fs1 := Create(fs, ROOT_INO, name, Reg).fs;
    MapFirst(fs1, name, ino);
    var fs2 := MapBlock(fs1, ino, 0, true).fs;
    b := GetDblock(fs1).res;
    UnlinkOnly(fs2, name, ino);
    UnlinkUnguarded(fs2, ROOT_INO, name, ino);
    DeleteLoses(fs2, ROOT_INO, name, ino, b);
    fs' := Delete(fs2, ROOT_INO, name, ino).fs;
    var op1, op2, op3 := CreateOp(ROOT_INO, name), MapOp(ino, 0, true), UnlinkOp(ROOT_INO, name, ino);
    ReachesNothing(fs);
    ReachesCompiledThen(fs, [], fs, op1);
    ReachesCompiledThen(fs, [] + [op1], fs1, op2);
    ReachesCompiledThen(fs, [] + [op1] + [op2], fs2, op3);
    assert [] + [op1] + [op2] + [op3] == [op1, op2, op3];
  }

  /** fs is reached from fs0 by a run of the compiled driver as well. */
  ghost predicate ReachedByBoth(fs0: Fs, ops: seq<Op>, fs: Fs) {
    Inv(fs0) && ReachesCompiled(fs0, ops, fs)
  }

  /** Create and delete: the empty tree again, with an entry in the root. */
  lemma Round(fs0: Fs, ops: seq<Op>, fs: Fs, name: Name) returns (ops': seq<Op>, fs': Fs)
    requires ReachedByBoth(fs0, ops, fs) && Blank(fs) && FirstBlockRoom(fs) > 0 && NulFree(name) && Fits(name)
    ensures ReachedByBoth(fs0, ops', fs') && Blank(fs') && RootSize(fs') > 0 && fs'.sb == fs.sb
    ensures OnDevice(fs) && DeviceRoom(fs) > 0 ==> OnDevice(fs')
  {
    hide Inv, Maps, Allowed, CompiledGuard, Create, Delete, FirstBlockRoom, ReachesCompiled, SizedBlocks, OnDevice,
      DeviceRoom;
    BlankCreate(fs, name);
    BlankCreateTakes(fs, name);
    BlankCreated(fs, name);
    var ino := Create(fs, ROOT_INO, name, Reg).res.value;
    var fs1 := Create(fs, ROOT_INO, name, Reg).fs;
    ReachesCompiledThen(fs0, ops, fs, CreateOp(ROOT_INO, name));
    UnlinkOnly(fs1, name, ino);
    UnlinkUnguarded(fs1, ROOT_INO, name, ino);
    ReachesCompiledThen(fs0, ops + [CreateOp(ROOT_INO, name)], fs1, UnlinkOp(ROOT_INO, name, ino));
    ops' := ops + [CreateOp(ROOT_INO, name)] + [UnlinkOp(ROOT_INO, name, ino)];
    fs' := Delete(fs1, ROOT_INO, name, ino).fs;
    CreateGrowsAtMostOne(fs, ROOT_INO, name, Reg);
    SameDevice(fs1, fs');
    if OnDevice(fs) {
      CreateOnDevice(fs, ROOT_INO, name, Reg);
    }
  }

  lemma UnlinkUnguarded(fs: Fs, dir: nat, name: Name, ino: nat)
    requires Inv(fs) && Allowed(fs, UnlinkOp(dir, name, ino))
    ensures CompiledGuard(fs, UnlinkOp(dir, name, ino))
  {
  }

  /** Creating, mapping and deleting, over and over, leaves in the end an empty
      file and no clear bit in the first data bitmap block. */
  lemma {:induction false} FillFirstBlock(fs0: Fs, ops: seq<Op>, fs: Fs, name: Name, n: nat)
    returns (ops': seq<Op>, fs': Fs, ino: nat)
    requires ReachedByBoth(fs0, ops, fs) && Blank(fs) && RootSize(fs) > 0 && FirstBlockRoom(fs) == n
    requires NulFree(name) && Fits(name)
    ensures ReachedByBoth(fs0, ops', fs') && OneFile(fs', name, ino)
    ensures fs'.inodes[ino] == Inode(Reg, 1, 0, NoBlocks()) && FirstBlockRoom(fs') == 0
    decreases n
  {
    hide Inv, Maps, Allowed, CompiledGuard, Create, MapBlock, Delete, FirstBlockRoom, ReachesCompiled, SizedBlocks,
      Blocks;
    BlankCreate(fs, name);
    BlankCreateTakes(fs, name);
    BlankCreateRoom(fs, name);
    BlankCreated(fs, name);
    ino := Create(fs, ROOT_INO, name, Reg).res.value;
    fs' := Create(fs, ROOT_INO, name, Reg).fs;
    ReachesCompiledThen(fs0, ops, fs, CreateOp(ROOT_INO, name));
    ops' := ops + [CreateOp(ROOT_INO, name)];
    if n > 0 {
      MapFirst(fs', name, ino);
      var fs2 := MapBlock(fs', ino, 0, true).fs;
      SameBitmap(GetDblock(fs').fs, fs2);
      ReachesCompiledThen(fs0, ops', fs', MapOp(ino, 0, true));
      ops' := ops' + [MapOp(ino, 0, true)];
      UnlinkOnly(fs2, name, ino);
      UnlinkUnguarded(fs2, ROOT_INO, name, ino);
      ReachesCompiledThen(fs0, ops', fs2, UnlinkOp(ROOT_INO, name, ino));
      ops' := ops' + [UnlinkOp(ROOT_INO, name, ino)];
      var fs3 := Delete(fs2, ROOT_INO, name, ino).fs;
      SameBitmap(fs2, fs3);
      ops', fs', ino := FillFirstBlock(fs0, ops', fs3, name, n - 1);
    }
  }

  /** On every formatted device a run of the compiled driver without a fault ends
      in a state where mapping the first block of an empty file derails it. */
  lemma CompiledMappingDerails(fs0: Fs, name: Name) returns (ops: seq<Op>, fs: Fs, ino: nat)
    requires Formatted(fs0) && NulFree(name) && Fits(name)
    ensures Inv(fs0) && ReachesCompiled(fs0, ops, fs) && Inv(fs)
    ensures Allowed(fs, MapOp(ino, 0, true)) && ApplyCompiled(fs, MapOp(ino, 0, true)) == None
  {
    hide Inv, Maps, Allowed, CompiledGuard, Create, MapBlock, Delete, FirstBlockRoom, ReachesCompiled, ApplyCompiled;
    FormattedIsBlank(fs0);
    FormattedRoom(fs0);
    assert ReachesCompiled(fs0, [], fs0) by {
      ReachesNothing(fs0);
    }
    ops, fs := Round(fs0, [], fs0, name);
    InvShape(fs);
    FirstBlockStep(fs);
    ops, fs, ino := FillFirstBlock(fs0, ops, fs, name, FirstBlockRoom(fs));
    MapFirst(fs, name, ino);
    ApplyCompiledAgrees(fs, MapOp(ino, 0, true));
  }

  lemma ReachesNothing(fs: Fs)
    requires Inv(fs)
    ensures ReachesCompiled(fs, [], fs)
  {
  }
}
