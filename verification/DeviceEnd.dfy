/** Runs that use up the data section, which ends the formatted part of the
    device: the bitmap still has clear bits, so the next block handed out lies
    past it. */
module DeviceEnd {
  import opened Layout
  import opened FirstFit
  import opened Dentries
  import opened Directory
  import opened State
  import opened Alloc
  import opened Creation
  import opened Deletion
  import opened FileData
  import opened Conservation
  import opened Runs
  import opened Compiled
  import opened CompiledRuns
  import opened Witnesses

  /** fs is reached from fs0; by the compiled driver too if the first bitmap
      block has a bit for every block of the device. */
  ghost predicate RunsTo(fs0: Fs, ops: seq<Op>, fs: Fs) {
    && Inv(fs0) && Inv(fs) && fs.sb == fs0.sb && Reaches(fs0, ops, fs)
    && (fs0.sb.nrD < BITS_PER_BLOCK ==> ReachesCompiled(fs0, ops, fs))
  }

  /** One more operation after a run. */
  lemma {:induction false} ReachesThen(fs: Fs, ops: seq<Op>, fs1: Fs, op: Op)
    requires Inv(fs) && Reaches(fs, ops, fs1) && Inv(fs1) && Allowed(fs1, op)
    ensures Reaches(fs, ops + [op], Apply(fs1, op))
    decreases |ops|
  {
    hide Inv, Allowed, Apply;
    if ops == [] {
      ApplyKeeps(fs, op);
      assert Reaches(Apply(fs, op), [], Apply(fs, op));
      assert [op][1..] == [];
    } else {
      ApplyKeeps(fs, ops[0]);
      ReachesThen(Apply(fs, ops[0]), ops[1..], fs1, op);
      assert (ops + [op])[1..] == ops[1..] + [op];
    }
  }

  lemma RunThen(fs0: Fs, ops: seq<Op>, fs: Fs, op: Op)
    requires RunsTo(fs0, ops, fs) && Allowed(fs, op)
    requires fs0.sb.nrD < BITS_PER_BLOCK ==> CompiledGuard(fs, op)
    ensures RunsTo(fs0, ops + [op], Apply(fs, op))
  {
    hide Inv, Allowed, Apply, Reaches, ReachesCompiled, CompiledGuard;
    ReachesThen(fs0, ops, fs, op);
    ApplyKeeps(fs, op);
    if fs0.sb.nrD < BITS_PER_BLOCK {
      ReachesCompiledThen(fs0, ops, fs, op);
    }
  }

  /** While the first bitmap block has a bit for every block of the device and
      one more, it has a clear bit. */
  lemma SmallDevice(fs: Fs)
    requires OnDevice(fs) && fs.sb.nrD < BITS_PER_BLOCK
    ensures FirstBlockRoom(fs) > 0
  {
    Fewer(fs.dused, fs.sb.nrD, BITS_PER_BLOCK);
  }

  lemma Fewer(s: set<nat>, m: nat, n: nat)
    requires s <= Segment(m) && m < n
    ensures ClearBelow(s, n) > 0
  {
    SubsetSize(s * Segment(n), Segment(m));
  }

  /** Creating, mapping and deleting, over and over, uses up the device. */
  lemma {:induction false} FillDevice(fs0: Fs, ops: seq<Op>, fs: Fs, name: Name, n: nat)
    returns (ops': seq<Op>, fs': Fs)
    requires RunsTo(fs0, ops, fs) && Blank(fs) && RootSize(fs) > 0 && OnDevice(fs) && DeviceRoom(fs) == n
    requires NulFree(name) && Fits(name)
    ensures RunsTo(fs0, ops', fs') && Blank(fs') && RootSize(fs') > 0 && OnDevice(fs') && DeviceRoom(fs') == 0
    decreases n
  {
    hide Inv, Maps, Allowed, CompiledGuard, Create, MapBlock, Delete, FirstBlockRoom, RunsTo, SizedBlocks, Blocks,
      OnDevice, DeviceRoom;
    if n == 0 {
      ops', fs' := ops, fs;
    } else {
      var ino, fs1;
      ops', fs1, ino := EmptyFile(fs0, ops, fs, name);
      MapFirst(fs1, name, ino);
      InvShape(fs1);
      GetDblockOnDevice(fs1);
      RunSuper(fs0, ops', fs1);
      if fs0.sb.nrD < BITS_PER_BLOCK {
        SmallDevice(fs1);
      }
      RunThen(fs0, ops', fs1, MapOp(ino, 0, true));
      ops' := ops' + [MapOp(ino, 0, true)];
      var fs2 := MapBlock(fs1, ino, 0, true).fs;
      SameDevice(GetDblock(fs1).fs, fs2);
      UnlinkOnly(fs2, name, ino);
      UnlinkUnguarded(fs2, ROOT_INO, name, ino);
      RunThen(fs0, ops', fs2, UnlinkOp(ROOT_INO, name, ino));
      ops' := ops' + [UnlinkOp(ROOT_INO, name, ino)];
      var fs3 := Delete(fs2, ROOT_INO, name, ino).fs;
      SameDevice(fs2, fs3);
      ops', fs' := FillDevice(fs0, ops', fs3, name, n - 1);
    }
  }

  lemma RunSuper(fs0: Fs, ops: seq<Op>, fs: Fs)
    requires RunsTo(fs0, ops, fs)
    ensures Inv(fs) && fs.sb == fs0.sb
  {
  }

  /** Creating a file in the entry the root already has takes no block. */
  lemma EmptyFile(fs0: Fs, ops: seq<Op>, fs: Fs, name: Name) returns (ops': seq<Op>, fs': Fs, ino: nat)
    requires RunsTo(fs0, ops, fs) && Blank(fs) && RootSize(fs) > 0 && OnDevice(fs)
    requires NulFree(name) && Fits(name)
    ensures RunsTo(fs0, ops', fs') && OneFile(fs', name, ino) && fs'.inodes[ino] == Inode(Reg, 1, 0, NoBlocks())
    ensures ROOT_INO < |fs'.inodes| && RootSize(fs') > 0 && OnDevice(fs') && DeviceRoom(fs') == DeviceRoom(fs)
  {
    hide Inv, Maps, Allowed, CompiledGuard, Create, FirstBlockRoom, RunsTo, OnDevice, DeviceRoom;
    BlankCreate(fs, name);
    BlankCreateTakes(fs, name);
    BlankCreated(fs, name);
    ino := Create(fs, ROOT_INO, name, Reg).res.value;
    fs' := Create(fs, ROOT_INO, name, Reg).fs;
    RunThen(fs0, ops, fs, CreateOp(ROOT_INO, name));
    ops' := ops + [CreateOp(ROOT_INO, name)];
    RunSuper(fs0, ops, fs);
    RunSuper(fs0, ops', fs');
    SameDevice(fs, fs');
  }

  /** From any formatted device: an empty tree, and no unused block. */
  lemma FullDevice(fs0: Fs, name: Name) returns (ops: seq<Op>, fs: Fs)
    requires Formatted(fs0) && NulFree(name) && Fits(name)
    ensures RunsTo(fs0, ops, fs) && Blank(fs) && RootSize(fs) > 0 && OnDevice(fs) && DeviceRoom(fs) == 0
  {
    hide Inv, Maps, FirstBlockRoom, ReachesCompiled, Reaches, RunsTo, OnDevice;
    FormattedIsBlank(fs0);
    FormattedIsGood(fs0);
    FormattedRoom(fs0);
    ReachesNothing(fs0);
    ops, fs := Round(fs0, [], fs0, name);
    IsRun(fs0, ops, fs);
    InvShape(fs);
    GetDblockOnDevice(fs);
    ops, fs := FillDevice(fs0, ops, fs, name, DeviceRoom(fs));
  }

  lemma IsRun(fs0: Fs, ops: seq<Op>, fs: Fs)
    requires ReachedByBoth(fs0, ops, fs) && Inv(fs) && fs.sb == fs0.sb
    ensures RunsTo(fs0, ops, fs)
  {
    hide Inv, ReachesCompiled, Reaches;
    CompiledRunAgrees(fs0, ops, fs);
  }

  /** Block b has a bit in the bitmap and no place in the data section. */
  predicate PastDevice(fs: Fs, b: nat) {
    b < fs.sb.DataBits() && !fs.sb.Holds(DataBlocks, fs.sb.Dno2Bid(b))
  }

  /** On every formatted device a run ends in a state where mapping the first
      block of a file succeeds, with a block past the data section. */
  lemma MappingLeavesDevice(fs0: Fs, name: Name) returns (ops: seq<Op>, fs: Fs, ino: nat, b: nat)
    requires Formatted(fs0) && NulFree(name) && Fits(name)
    ensures RunsTo(fs0, ops, fs) && OnDevice(fs) && Allowed(fs, MapOp(ino, 0, true))
    ensures var r := MapBlock(fs, ino, 0, true);
            r.res == Ok(Some(b)) && PastDevice(fs, b) && RunsTo(fs0, ops + [MapOp(ino, 0, true)], r.fs)
  {
    hide Inv, Maps, Allowed, CompiledGuard, FirstBlockRoom, RunsTo, OnDevice, DeviceRoom, MapBlock, Blocks;
    ops, fs := FullDevice(fs0, name);
    ops, fs, ino := EmptyFile(fs0, ops, fs, name);
    MapFirst(fs, name, ino);
    InvShape(fs);
    GetDblockOnDevice(fs);
    b := GetDblock(fs).res;
    GetDblockFresh(fs);
    RunSuper(fs0, ops, fs);
    if fs0.sb.nrD < BITS_PER_BLOCK {
      SmallDevice(fs);
    }
    RunThen(fs0, ops, fs, MapOp(ino, 0, true));
  }

  /** Making a directory in the entry the root already has takes no block. */
  lemma EmptyDirectory(fs0: Fs, ops: seq<Op>, fs: Fs, name: Name) returns (ops': seq<Op>, fs': Fs, d: nat)
    requires RunsTo(fs0, ops, fs) && Blank(fs) && RootSize(fs) > 0 && OnDevice(fs)
    requires NulFree(name) && Fits(name)
    ensures RunsTo(fs0, ops', fs') && OnDevice(fs') && DeviceRoom(fs') == DeviceRoom(fs)
    ensures d in Maps(fs') && Maps(fs')[d] == map[] && IsDir(fs', d) && fs'.inodes[d].size == 0
    ensures |fs'.iused| <= 3
  {
    hide Inv, Maps, Allowed, CompiledGuard, Create, FirstBlockRoom, RunsTo, OnDevice, DeviceRoom, Filled, OnlyInode,
      EntriesOf, LiveCount, Taken, Least;
    BlankCreate(fs, name);
    BlankMkdir(fs, name);
    var r := Create(fs, ROOT_INO, name, Dir);
    d, fs' := r.res.value, r.fs;
    CreateInserts(fs, ROOT_INO, name, Dir);
    MapsAt(fs', d);
    InvShape(fs);
    InvShape(fs');
    assert fs'.iused == fs.iused + {d};
    RunThen(fs0, ops, fs, MkdirOp(ROOT_INO, name));
    ops' := ops + [MkdirOp(ROOT_INO, name)];
    SameDevice(fs, fs');
  }

  lemma BlankMkdir(fs: Fs, name: Name)
    requires Blank(fs) && RootSize(fs) > 0 && NulFree(name) && Fits(name)
    ensures IsDir(fs, ROOT_INO) && Allowed(fs, MkdirOp(ROOT_INO, name)) && CompiledGuard(fs, MkdirOp(ROOT_INO, name))
    ensures var r := Create(fs, ROOT_INO, name, Dir);
      r.res.Ok? && r.fs.dused == fs.dused && r.fs.sb == fs.sb
  {
    hide Inv, Maps, EntriesOf, Create, Least, FirstBlockRoom, LiveCount, FirstDead, Taken;
    BlankCreate(fs, name);
    DirectoryCounts(fs, ROOT_INO);
    CreateGrowsAtMostOne(fs, ROOT_INO, name, Dir);
    InvShape(fs);
    CreateFailsExactly(fs, ROOT_INO, name, Dir);
    assert 2 !in fs.iused && 2 < |fs.inodes|;
  }

  /** On every formatted device a run ends in a state where creating a name in an
      empty directory gives the directory a block past the data section. When
      the device ends there, reading the block fails, and the assertion that
      follows the read with it. */
  lemma CreatingLeavesDevice(fs0: Fs, name: Name) returns (ops: seq<Op>, fs: Fs, d: nat, b: nat)
    requires Formatted(fs0) && NulFree(name) && Fits(name)
    ensures RunsTo(fs0, ops, fs) && OnDevice(fs) && Allowed(fs, CreateOp(d, name)) && IsDir(fs, d)
    ensures var r := Create(fs, d, name, Reg);
            && r.res.Ok? && RunsTo(fs0, ops + [CreateOp(d, name)], r.fs)
            && d < |r.fs.inodes| && b in Blocks(r.fs.inodes[d].slots) && PastDevice(fs, b)
  {
    hide Inv, Maps, CompiledGuard, FirstBlockRoom, RunsTo, OnDevice, DeviceRoom, Create, Blocks, EntriesOf, LiveCount,
      Taken, Least;
    ops, fs := FullDevice(fs0, name);
    ops, fs, d := EmptyDirectory(fs0, ops, fs, name);
    var op := CreateOp(d, name);
    RunSuper(fs0, ops, fs);
    EmptyDirectoryCreate(fs, d, name);
    if fs0.sb.nrD < BITS_PER_BLOCK {
      SmallDevice(fs);
    }
    RunThen(fs0, ops, fs, op);
    CreateUses(fs, d, name, Reg);
    b := GetDblock(fs).res;
  }

  /** The first create in a directory takes a block for it. */
  lemma EmptyDirectoryCreate(fs: Fs, d: nat, name: Name)
    requires Inv(fs) && OnDevice(fs) && DeviceRoom(fs) == 0 && |fs.iused| <= 3
    requires d in Maps(fs) && Maps(fs)[d] == map[] && IsDir(fs, d) && fs.inodes[d].size == 0
    requires NulFree(name) && Fits(name)
    ensures Allowed(fs, CreateOp(d, name)) && Create(fs, d, name, Reg).res.Ok?
    ensures FirstBlockRoom(fs) > 0 ==> CompiledGuard(fs, CreateOp(d, name))
    ensures Create(fs, d, name, Reg).fs.dused == fs.dused + {GetDblock(fs).res}
    ensures GetDblock(fs).res !in fs.dused && PastDevice(fs, GetDblock(fs).res)
  {
    hide Inv, Maps, FirstBlockRoom, OnDevice, DeviceRoom, Create, EntriesOf, LiveCount, Taken, Least, FirstDead;
    InvShape(fs);
    FirstBlockStep(fs);
    GetDblockOnDevice(fs);
    GetDblockFresh(fs);
    LeastAtMostUsed(fs.iused, BITS_PER_BLOCK);
    DirectoryCounts(fs, d);
    CreateGrowsAtMostOne(fs, d, name, Reg);
    CreateFailsExactly(fs, d, name, Reg);
    if forall i: nat :: i < |fs.inodes| ==> i in fs.iused {
      SubsetSize(Segment(|fs.inodes|), fs.iused);
      assert false;
    }
  }
}
