/** Sequences of operations, and what holds in every state they reach. */
module Runs {
  import opened Layout
  import opened Bytes
  import opened FirstFit
  import opened Dentries
  import opened Directory
  import opened Namespace
  import opened State
  import opened Alloc
  import opened Creation
  import opened Deletion
  import opened FileData
  import opened Conservation

  datatype Op =
    | CreateOp(dir: nat, name: Name)
    | MkdirOp(dir: nat, name: Name)
    | LookupOp(dir: nat, name: Name)
    | ListOp(dir: nat, pos: nat)
    | UnlinkOp(dir: nat, name: Name, ino: nat)
    | RmdirOp(dir: nat, name: Name, ino: nat)
    | MapOp(ino: nat, iblock: nat, create: bool)
    | WriteOp(ino: nat, pos: nat, bytes: seq<byte>)

  /** What the VFS has checked before it calls the driver. */
  ghost predicate Allowed(fs: Fs, op: Op)
    requires Inv(fs)
  {
    && (op.CreateOp? || op.MkdirOp? ==> MayCreate(fs, op.dir, op.name))
    && (op.LookupOp? ==> IsDir(fs, op.dir) && NulFree(op.name))
    && (op.ListOp? ==> IsDir(fs, op.dir))
    && (op.UnlinkOp? ==> IsNamed(fs, op.dir, op.name, op.ino) && fs.inodes[op.ino].kind == Reg)
    && (op.RmdirOp? ==> IsNamed(fs, op.dir, op.name, op.ino) && IsDir(fs, op.ino))
    && (op.MapOp? || op.WriteOp? ==> IsFile(fs, op.ino) && |fs.inodes[op.ino].slots| == IBLOCKS)
  }

  ghost predicate MayCreate(fs: Fs, dir: nat, name: Name)
    requires Inv(fs)
  {
    IsDir(fs, dir) && NulFree(name) && dir in Maps(fs) && name !in Maps(fs)[dir]
  }

  /** The state an operation leaves, whether it succeeds or fails. */
  ghost function Apply(fs: Fs, op: Op): Fs
    requires Inv(fs) && Allowed(fs, op)
  {
    match op
    case CreateOp(dir, name) => Create(fs, dir, name, Reg).fs
    case MkdirOp(dir, name) => Create(fs, dir, name, Dir).fs
    case LookupOp(_, _) => fs
    case ListOp(_, _) => fs
    case UnlinkOp(dir, name, ino) => Unlink(fs, dir, name, ino).fs
    case RmdirOp(dir, name, ino) => Rmdir(fs, dir, name, ino).fs
    case MapOp(ino, iblock, create) => MapBlock(fs, ino, iblock, create).fs
    case WriteOp(ino, pos, bytes) => Write(fs, ino, pos, bytes).fs
  }

  /** Blocks are taken by first fit, or only given back. */
  ghost predicate FirstFitOnly(fs: Fs, fs': Fs) {
    Filled(fs.dused, fs'.dused) || fs'.dused <= fs.dused
  }

  lemma FilledRefl(s: set<nat>)
    ensures Filled(s, s)
  {
  }

  /** Every operation keeps the invariant. */
  lemma ApplyKeeps(fs: Fs, op: Op)
    requires Inv(fs) && Allowed(fs, op)
    ensures Inv(Apply(fs, op))
    ensures Apply(fs, op).sb == fs.sb && FirstFitOnly(fs, Apply(fs, op))
  {
    hide Inv, Maps, IsDir, Create, Delete, MapBlock, Write, Filled, OnlyInode, DirsOf, IsNamed;
    FilledRefl(fs.dused);
    match op {
      case CreateOp(dir, name) => CreateInserts(fs, dir, name, Reg);
      case MkdirOp(dir, name) => CreateInserts(fs, dir, name, Dir);
      case LookupOp(_, _) =>
      case ListOp(_, _) =>
      case UnlinkOp(dir, name, ino) =>
        UnlinkRemoves(fs, dir, name, ino);
        DeleteRemoves(fs, dir, name, ino);
      case RmdirOp(dir, name, ino) =>
        RmdirRemovesEmpty(fs, dir, name, ino);
        if Rmdir(fs, dir, name, ino).res.Ok? {
          DeleteRemoves(fs, dir, name, ino);
        }
      case MapOp(ino, iblock, create) =>
        MapBlockMaps(fs, ino, iblock, create);
        SameSuper(fs, MapBlock(fs, ino, iblock, create).fs, ino);
      case WriteOp(ino, pos, bytes) =>
        WriteStoresBytes(fs, ino, pos, bytes);
        SameSuper(fs, Write(fs, ino, pos, bytes).fs, ino);
    }
  }

  lemma SameSuper(fs: Fs, fs': Fs, i: nat)
    requires OnlyInode(fs, fs', i)
    ensures fs'.sb == fs.sb
  {
  }

  /** fs' is reached from fs by the operations ops, each allowed when it is made. */
  ghost predicate Reaches(fs: Fs, ops: seq<Op>, fs': Fs)
    requires Inv(fs)
    decreases |ops|
  {
    if ops == [] then fs' == fs
    else Allowed(fs, ops[0]) && (ApplyKeeps(fs, ops[0]); Reaches(Apply(fs, ops[0]), ops[1..], fs'))
  }

  /** Every state reached from a good one is good. */
  lemma {:induction false} RunKeeps(fs: Fs, ops: seq<Op>, fs': Fs)
    requires Inv(fs) && Reaches(fs, ops, fs')
    ensures Inv(fs') && fs'.sb == fs.sb
    decreases |ops|
  {
    hide Inv, Allowed, Apply;
    if ops != [] {
      ApplyKeeps(fs, ops[0]);
      RunKeeps(Apply(fs, ops[0]), ops[1..], fs');
    }
  }

  /** What a caller can check before an operation: a mapping takes no block, and
      the first page of a write does not run out of room halfway through a hole. */
  ghost predicate KeepsAccounts(fs: Fs, op: Op)
    requires Inv(fs) && Allowed(fs, op)
  {
    match op
    case MapOp(ino, iblock, create) => MapGuard(fs, ino, iblock, create)
    case WriteOp(ino, pos, bytes) => FirstPageClean(fs, ino, pos, bytes)
    case _ => true
  }

  /** An operation keeps the accounts exactly under that guard. */
  lemma ApplyTight(fs: Fs, op: Op)
    requires Inv(fs) && Allowed(fs, op) && Tight(fs)
    ensures Tight(Apply(fs, op)) <==> KeepsAccounts(fs, op)
  {
    hide Inv, Maps, IsDir, IsFile, Create, Delete, MapBlock, Write, OnlyInode, DirsOf, IsNamed, Tight,
      MapGuard, FirstPageClean;
    match op {
      case CreateOp(dir, name) => CreateTight(fs, dir, name, Reg);
      case MkdirOp(dir, name) => CreateTight(fs, dir, name, Dir);
      case LookupOp(_, _) =>
      case ListOp(_, _) =>
      case UnlinkOp(dir, name, ino) =>
        UnlinkRemoves(fs, dir, name, ino);
        DeleteTight(fs, dir, name, ino);
      case RmdirOp(dir, name, ino) =>
        RmdirRemovesEmpty(fs, dir, name, ino);
        if Rmdir(fs, dir, name, ino).res.Ok? {
          DeleteTight(fs, dir, name, ino);
        }
      case MapOp(ino, iblock, create) =>
        MapBlockTight(fs, ino, iblock, create);
      case WriteOp(ino, pos, bytes) =>
        WriteTightExactly(fs, ino, pos, bytes);
    }
  }

  /** Mappings are made only inside writes, and every write fits. */
  ghost predicate Finished(fs: Fs, op: Op)
    requires Inv(fs) && Allowed(fs, op)
  {
    match op
    case MapOp(_, _, create) => !create
    case WriteOp(ino, pos, bytes) => WriteFits(fs, ino, pos, bytes)
    case _ => true
  }

  lemma FinishedKeepsAccounts(fs: Fs, op: Op)
    requires Inv(fs) && Allowed(fs, op) && Finished(fs, op)
    ensures KeepsAccounts(fs, op)
  {
    hide Inv, FirstPageClean, IsFile, Maps, WriteFits;
    if op.WriteOp? {
      FittingWriteClean(fs, op.ino, op.pos, op.bytes);
    }
  }

  ghost predicate AllKeepAccounts(fs: Fs, ops: seq<Op>, fs': Fs)
    requires Inv(fs) && Reaches(fs, ops, fs')
    decreases |ops|
  {
    ops == [] || (KeepsAccounts(fs, ops[0])
                  && (ApplyKeeps(fs, ops[0]); AllKeepAccounts(Apply(fs, ops[0]), ops[1..], fs')))
  }

  /** Conservation: while the guard holds at each step, the used blocks are
      exactly the owned ones. */
  lemma {:induction false} RunConserves(fs: Fs, ops: seq<Op>, fs': Fs)
    requires Inv(fs) && Tight(fs) && Reaches(fs, ops, fs') && AllKeepAccounts(fs, ops, fs')
    ensures Inv(fs') && Tight(fs')
    decreases |ops|
  {
    hide Inv, Allowed, Apply, Tight, KeepsAccounts;
    if ops != [] {
      ApplyKeeps(fs, ops[0]);
      ApplyTight(fs, ops[0]);
      RunConserves(Apply(fs, ops[0]), ops[1..], fs');
    }
  }

  /** What a caller can check before an operation: the device has an unused block
      for each one the operation takes. */
  ghost predicate FitsDevice(fs: Fs, op: Op)
    requires Inv(fs) && Allowed(fs, op)
  {
    match op
    case CreateOp(dir, name) => !Fits(name) || !BlockDue(fs, dir) || DeviceRoom(fs) > 0
    case MkdirOp(dir, name) => !Fits(name) || !BlockDue(fs, dir) || DeviceRoom(fs) > 0
    case MapOp(ino, iblock, create) => SlotsNeeded(fs, ino, iblock, create) <= DeviceRoom(fs)
    case WriteOp(ino, pos, bytes) => WriteStays(fs, ino, pos, bytes)
    case _ => true
  }

  /** An operation stays on the device exactly under that guard. */
  lemma ApplyOnDevice(fs: Fs, op: Op)
    requires Inv(fs) && Allowed(fs, op) && OnDevice(fs)
    ensures OnDevice(Apply(fs, op)) <==> FitsDevice(fs, op)
  {
    hide Inv, Maps, IsDir, IsFile, Create, Delete, MapBlock, Write, IsNamed, OnDevice, DeviceRoom, BlockDue,
      SlotsNeeded, WriteStays, Fits;
    match op {
      case CreateOp(dir, name) => CreateOnDevice(fs, dir, name, Reg);
      case MkdirOp(dir, name) => CreateOnDevice(fs, dir, name, Dir);
      case LookupOp(_, _) =>
      case ListOp(_, _) =>
      case UnlinkOp(dir, name, ino) =>
        UnlinkRemoves(fs, dir, name, ino);
        ApplyKeeps(fs, op);
        FewerOnDevice(fs, Apply(fs, op));
      case RmdirOp(dir, name, ino) =>
        RmdirRemovesEmpty(fs, dir, name, ino);
        if Rmdir(fs, dir, name, ino).res.Ok? {
          DeleteRemoves(fs, dir, name, ino);
          FewerOnDevice(fs, Apply(fs, op));
        }
      case MapOp(ino, iblock, create) => MapOnDevice(fs, ino, iblock, create);
      case WriteOp(ino, pos, bytes) => WriteOnDevice(fs, ino, pos, bytes);
    }
  }

  lemma FewerOnDevice(fs: Fs, fs': Fs)
    requires OnDevice(fs) && fs'.dused <= fs.dused && fs'.sb == fs.sb
    ensures OnDevice(fs')
  {
  }

  ghost predicate AllFitDevice(fs: Fs, ops: seq<Op>, fs': Fs)
    requires Inv(fs) && Reaches(fs, ops, fs')
    decreases |ops|
  {
    ops == [] || (FitsDevice(fs, ops[0]) && (ApplyKeeps(fs, ops[0]); AllFitDevice(Apply(fs, ops[0]), ops[1..], fs')))
  }

  /** In every state of the run all used blocks lie on the device. */
  ghost predicate NeverLeavesDevice(fs: Fs, ops: seq<Op>, fs': Fs)
    requires Inv(fs) && Reaches(fs, ops, fs')
    decreases |ops|
  {
    OnDevice(fs)
    && (ops == [] || (ApplyKeeps(fs, ops[0]); NeverLeavesDevice(Apply(fs, ops[0]), ops[1..], fs')))
  }

  /** A run stays on the device exactly when the guard holds at each step,
      although the bitmap has bits for blocks beyond it. */
  lemma {:induction false} RunStaysOnDevice(fs: Fs, ops: seq<Op>, fs': Fs)
    requires Inv(fs) && OnDevice(fs) && Reaches(fs, ops, fs')
    ensures NeverLeavesDevice(fs, ops, fs') <==> AllFitDevice(fs, ops, fs')
    ensures AllFitDevice(fs, ops, fs') ==> OnDevice(fs')
    decreases |ops|
  {
    hide Inv, Allowed, Apply, OnDevice, FitsDevice;
    if ops != [] {
      ApplyKeeps(fs, ops[0]);
      ApplyOnDevice(fs, ops[0]);
      var fs1 := Apply(fs, ops[0]);
      StartsOnDevice(fs1, ops[1..], fs');
      if OnDevice(fs1) {
        RunStaysOnDevice(fs1, ops[1..], fs');
      }
    }
  }

  lemma StartsOnDevice(fs: Fs, ops: seq<Op>, fs': Fs)
    requires Inv(fs) && Reaches(fs, ops, fs')
    ensures NeverLeavesDevice(fs, ops, fs') ==> OnDevice(fs)
  {
    hide Inv, Allowed, Apply, OnDevice;
  }

  /** What formatting and mounting yields. */
  ghost predicate Formatted(fs: Fs) {
    && fs.sb.Ok()
    && |fs.inodes| == fs.sb.Inodes() && |fs.data| == fs.sb.DataBits()
    && (forall b :: 0 <= b < |fs.data| ==> |fs.data[b]| == BLOCK_SIZE)
    && fs.iused == {RESERVED_INO, ROOT_INO} && fs.dused == {}
    && fs.inodes[ROOT_INO] == Inode(Dir, 1, 0, NoBlocks())
  }

  /** A formatted file system is an empty root directory that owns nothing. */
  lemma FormattedIsGood(fs: Fs)
    requires Formatted(fs)
    ensures Inv(fs) && Tight(fs) && OnDevice(fs)
    ensures Maps(fs) == map[ROOT_INO := map[]]
  {
    assert NamesOk([]);
    hide IsTree, NamesOk, NameMap, Shape, Ownership, Links, DirsOf, LiveInodes, Formatted;
    FormattedTight(fs);
    FormattedShape(fs);
    FormattedDirs(fs);
    RootAlone();
    NameMapIs([], map[]);
  }

  lemma FormattedShape(fs: Fs)
    requires Formatted(fs)
    ensures Shape(fs) && Ownership(fs) && LiveInodes(fs) == {ROOT_INO}
  {
    MappedIs(NoBlocks(), 0);
    assert LiveInodes(fs) == {ROOT_INO};
  }

  lemma FormattedDirs(fs: Fs)
    requires Formatted(fs)
    ensures Links(fs) && DirsOf(fs) == map[ROOT_INO := []]
  {
    assert LiveInodes(fs) == {ROOT_INO};
    assert EntriesOf(fs.data, fs.inodes[ROOT_INO]) == [];
  }

  lemma FormattedTight(fs: Fs)
    requires Formatted(fs)
    ensures Tight(fs) && OnDevice(fs)
  {
    MappedIs(NoBlocks(), 0);
  }

  lemma RootAlone()
    ensures IsTree(map[ROOT_INO := []], {ROOT_INO})
  {
    assert AtDepth(map[ROOT_INO := []], ROOT_INO, 0);
  }

  /** fs is reached from a formatted file system. */
  ghost predicate Reached(fs: Fs) {
    exists fs0, ops :: ReachedBy(fs0, ops, fs)
  }

  ghost predicate ReachedBy(fs0: Fs, ops: seq<Op>, fs: Fs) {
    Formatted(fs0) && (FormattedIsGood(fs0); Reaches(fs0, ops, fs))
  }

  /** What every reachable state satisfies. */
  lemma ReachedIsGood(fs: Fs)
    requires Reached(fs)
    ensures Inv(fs)
  {
    hide Inv, Formatted, Reaches;
    var fs0, ops :| ReachedBy(fs0, ops, fs);
    FormattedIsGood(fs0);
    RunKeeps(fs0, ops, fs);
  }

  /** In every reachable state an allocated inode other than the root is named by
      exactly one live entry, of one live directory, and hangs off the root by a
      path of exactly one length. */
  lemma ReachedIsTree(fs: Fs, x: nat) returns (d: nat, k: int, n: nat)
    requires Reached(fs) && x in LiveInodes(fs) && x != ROOT_INO
    ensures Names(DirsOf(fs), d, k, x) && IsDir(fs, d)
    ensures forall e, l :: Names(DirsOf(fs), e, l, x) ==> e == d && l == k
    ensures AtDepth(DirsOf(fs), x, n) && forall m: nat :: AtDepth(DirsOf(fs), x, m) ==> m == n
  {
    hide Reached, Ownership, Links, DirsOf, GoodNames, NamesOnlyLive;
    ReachedIsGood(fs);
    d, k := NamedOnce(DirsOf(fs), LiveInodes(fs), x);
    DirsAt(fs, d);
    assert Reachable(DirsOf(fs), x);
    n :| AtDepth(DirsOf(fs), x, n);
    forall m: nat | AtDepth(DirsOf(fs), x, m)
      ensures m == n
    {
      OneDepth(DirsOf(fs), LiveInodes(fs), x, m, n);
    }
  }

  /** In every reachable state no data block is held by two slots. */
  lemma ReachedSharesNothing(fs: Fs, i: nat, a: nat, j: nat, b: nat)
    requires Reached(fs) && i in LiveInodes(fs) && j in LiveInodes(fs) && i < |fs.inodes| && j < |fs.inodes|
    requires a < Mapped(fs.inodes[i].slots) && b < Mapped(fs.inodes[j].slots)
    ensures fs.inodes[i].slots[a] in fs.dused
    ensures fs.inodes[i].slots[a] == fs.inodes[j].slots[b] ==> i == j && a == b
  {
    hide Reached, IsTree, Links, DirsOf;
    ReachedIsGood(fs);
    SlotsInjective(fs, i, a, i, a);
    if fs.inodes[i].slots[a] == fs.inodes[j].slots[b] {
      SlotsInjective(fs, i, a, j, b);
    }
  }
}
