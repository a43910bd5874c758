/** The driver tests signed results in unsigned variables. This module follows
    the conversions and says exactly when the outcome is the documented one. */
module Compiled {
  import opened Layout
  import opened Bytes
  import opened FirstFit
  import opened Bitmaps
  import opened Dentries
  import opened Directory
  import opened State
  import opened Alloc
  import opened Slots
  import opened Creation
  import opened FileData

  const TWO64 := 0x1_0000_0000_0000_0000
  const ENOSPC_NR := 28

  function U64(x: int): (r: nat) {
    x % TWO64
  }

  /** Derails: the driver goes on with something it does not own, a slot outside
      i_block or a number that no bitmap scan returned. */
  datatype Outcome<+T> = Proceeds(step: Step<T>) | Derails

  function GetDblockUnsigned(fs: Fs): Step<nat> {
    Step(fs.(dused := Taken(fs.dused, BITS_PER_BLOCK)), UnsignedIndex(fs.dused))
  }

  function GetInodeUnsigned(fs: Fs): Step<nat> {
    Step(fs.(iused := Taken(fs.iused, BITS_PER_BLOCK)), UnsignedIndex(fs.iused))
  }

  /** `yaf_get_free_dentry` over the unsigned scan: an offset, or a negative errno. */
  function FreeDentryCompiled(fs: Fs, dir: nat): Outcome<int>
    requires Shape(fs) && Ownership(fs) && IsDir(fs, dir)
  {
    var n := fs.inodes[dir];
    var k := FirstDead(EntriesOf(fs.data, n));
    if k < n.size / DENTRY_SIZE then Proceeds(Step(fs, k * DENTRY_SIZE))
    else if n.size / DENTRY_SIZE == MAX_DENTRYS then Proceeds(Step(fs, -ENOSPC_NR))
    else
      RoomForDentry(fs, dir);
      if n.size % BLOCK_SIZE == 0 then
        var got := GetDblockUnsigned(fs);
        if got.res == RESERVED_DNO then Proceeds(Step(got.fs, -ENOSPC_NR))
        else if got.res >= BITS_PER_BLOCK || got.res >= |fs.data| then Derails
        else Proceeds(Step(AddDentry(got.fs, dir, GrownSlots(n, got.res)), k * DENTRY_SIZE))
      else Proceeds(Step(AddDentry(fs, dir, n.slots), k * DENTRY_SIZE))
  }

  /** The part of `_yaf_create` after a slot is found, over the unsigned scan. */
  function FillCompiled(fs: Fs, dir: nat, k: nat, name: Name, kind: Kind): Outcome<Result<nat>>
    requires Fits(name)
  {
    var got := GetInodeUnsigned(fs);
    if got.res == RESERVED_INO then Proceeds(Step(got.fs, Fail(ENOSPC)))
    else if got.res >= BITS_PER_BLOCK then Derails
    else if got.res >= fs.sb.Inodes() then Proceeds(Step(got.fs.(iused := got.fs.iused - {got.res}), Fail(EINVAL)))
    else if got.res >= |fs.inodes| then Derails
    else
      var fs2 := got.fs.(inodes := fs.inodes[got.res := Inode(kind, 1, 0, NoBlocks())]);
      if !HasEntry(fs2, dir, k) then Derails
      else Proceeds(Step(FillDentry(fs2, dir, k, NewDentry(name, got.res)), Ok(got.res)))
  }

  /** `_yaf_create` as compiled: the offset is tested after conversion. */
  function CreateCompiled(fs: Fs, dir: nat, name: Name, kind: Kind): Outcome<Result<nat>>
    requires Shape(fs) && Ownership(fs) && IsDir(fs, dir)
  {
    if !Fits(name) then Proceeds(Step(fs, Fail(ENAMETOOLONG)))
    else
      var slot := FreeDentryCompiled(fs, dir);
      if slot.Derails? then Derails
      else
        var doff := U64(slot.step.res);
        if doff < 0 then Proceeds(Step(slot.step.fs, Fail(EIO)))
        else if doff / BLOCK_SIZE >= IBLOCKS then Derails
        else FillCompiled(slot.step.fs, dir, doff / DENTRY_SIZE, name, kind)
  }

  /** What a caller can check: an unused entry, or room for one and, when that
      takes a block, a clear bit in the first data bitmap block; and a clear bit
      in the first inode bitmap block. */
  predicate CreateGuard(fs: Fs, dir: nat)
    requires dir < |fs.inodes|
  {
    SlotGuard(fs, dir) && Least(fs.iused, BITS_PER_BLOCK) < BITS_PER_BLOCK
  }

  predicate SlotGuard(fs: Fs, dir: nat)
    requires dir < |fs.inodes|
  {
    var n := fs.inodes[dir];
    || FirstDead(EntriesOf(fs.data, n)) < n.size / DENTRY_SIZE
    || (&& n.size / DENTRY_SIZE != MAX_DENTRYS
        && (n.size % BLOCK_SIZE == 0 ==> Least(fs.dused, BITS_PER_BLOCK) < BITS_PER_BLOCK))
  }

  lemma FirstBlockDecides(fs: Fs)
    requires Shape(fs)
    ensures Least(fs.dused, BITS_PER_BLOCK) < BITS_PER_BLOCK ==>
      GetDblockUnsigned(fs) == GetDblock(fs) && GetDblock(fs).res < BITS_PER_BLOCK && GetDblock(fs).res < |fs.data|
    ensures Least(fs.iused, BITS_PER_BLOCK) < BITS_PER_BLOCK ==>
      GetInodeUnsigned(fs) == GetInode(fs) && 0 < GetInode(fs).res < BITS_PER_BLOCK
  {
    UnsignedScanAgrees(fs.dused, fs.sb.nrDbp, RESERVED_DNO);
    UnsignedScanAgrees(fs.iused, fs.sb.nrIbp, RESERVED_INO);
  }

  /** The slot search as compiled is the documented one, or derails, or hands
      the caller a negative number. */
  lemma CompiledSlot(fs: Fs, dir: nat)
    requires Shape(fs) && Ownership(fs) && IsDir(fs, dir)
    ensures var slot := FreeDentry(fs, dir);
            var c := FreeDentryCompiled(fs, dir);
      && (SlotGuard(fs, dir) ==> slot.res.Ok? && c == Proceeds(Step(slot.fs, slot.res.value * DENTRY_SIZE)))
      && (!SlotGuard(fs, dir) ==> c.Derails? || c.step.res == -ENOSPC_NR)
  {
    hide EntriesOf, AddDentry, Ownership, GetDblock, GetDblockUnsigned, PutIno;
    FirstBlockDecides(fs);
    var n := fs.inodes[dir];
    var k := FirstDead(EntriesOf(fs.data, n));
    if k >= n.size / DENTRY_SIZE && n.size / DENTRY_SIZE != MAX_DENTRYS {
      RoomForDentry(fs, dir);
      if n.size % BLOCK_SIZE == 0 && Least(fs.dused, BITS_PER_BLOCK) >= BITS_PER_BLOCK {
        FullFirstBlock(fs);
      }
    }
  }

  lemma FullFirstBlock(fs: Fs)
    ensures Least(fs.dused, BITS_PER_BLOCK) >= BITS_PER_BLOCK ==>
      BITS_PER_BLOCK <= GetDblockUnsigned(fs).res && GetDblockUnsigned(fs).res != RESERVED_DNO
    ensures Least(fs.iused, BITS_PER_BLOCK) >= BITS_PER_BLOCK ==> BITS_PER_BLOCK <= GetInodeUnsigned(fs).res
  {
  }

  lemma CompiledFill(fs: Fs, dir: nat, k: nat, name: Name, kind: Kind)
    requires Shape(fs) && Fits(name)
    requires NewInode(fs, kind).res.Ok? ==> HasEntry(NewInode(fs, kind).fs, dir, k)
    ensures Least(fs.iused, BITS_PER_BLOCK) < BITS_PER_BLOCK ==>
      FillCompiled(fs, dir, k, name, kind) == Proceeds(CreateAt(fs, dir, k, name, kind))
    ensures Least(fs.iused, BITS_PER_BLOCK) >= BITS_PER_BLOCK ==> FillCompiled(fs, dir, k, name, kind) == Derails
  {
    hide FillDentry, NewDentry, GetInode, GetInodeUnsigned, HasEntry;
    FirstBlockDecides(fs);
    FullFirstBlock(fs);
  }

  lemma SlotIndex(fs: Fs, fs': Fs, dir: nat, k: nat)
    requires SlotFound(fs, fs', dir, k)
    ensures Shape(fs') && fs'.iused == fs.iused && k < MAX_DENTRYS
  {
    hide Links, DirsOf;
    DirSize(fs', dir);
  }

  /** The compiled create is the documented one exactly under the guard. */
  lemma CompiledCreateAgrees(fs: Fs, dir: nat, name: Name, kind: Kind)
    requires Inv(fs) && IsDir(fs, dir)
    ensures dir < |fs.inodes|
    ensures CreateCompiled(fs, dir, name, kind) == Proceeds(Create(fs, dir, name, kind))
            <==> !Fits(name) || CreateGuard(fs, dir)
    ensures Fits(name) && !CreateGuard(fs, dir) ==> CreateCompiled(fs, dir, name, kind) == Derails
  {
    hide Inv, EntriesOf, FreeDentry, FreeDentryCompiled, SlotFound, FillCompiled, CreateAt, SlotGuard, HasEntry,
      NewInode;
    InvOwnership(fs);
    if Fits(name) {
      CompiledSlot(fs, dir);
      FreeDentrySlot(fs, dir);
      var slot := FreeDentry(fs, dir);
      if SlotGuard(fs, dir) {
        SlotThenInode(fs, dir, kind);
        SlotIndex(fs, slot.fs, dir, slot.res.value);
        CompiledFill(slot.fs, dir, slot.res.value, name, kind);
      }
    }
  }

  /** The allocation loop of `yaf_get_block` over the unsigned scan. */
  function ExtendCompiled(fs: Fs, ino: nat, dbnr: nat, target: nat): (r: Outcome<bool>)
    requires ino < |fs.inodes| && |fs.inodes[ino].slots| == IBLOCKS && target <= IBLOCKS
    ensures r.Proceeds? ==> |r.step.fs.inodes| == |fs.inodes| && |r.step.fs.inodes[ino].slots| == IBLOCKS
    decreases target - dbnr
  {
    if dbnr >= target then Proceeds(Step(fs, true))
    else
      var got := GetDblockUnsigned(fs);
      if got.res == RESERVED_DNO then Proceeds(Step(got.fs, false))
      else if got.res >= BITS_PER_BLOCK then Derails
      else ExtendCompiled(SetSlot(got.fs, ino, dbnr, got.res), ino, dbnr + 1, target)
  }

  /** Clear bits in the first data bitmap block. */
  ghost function FirstBlockRoom(fs: Fs): int {
    ClearBelow(fs.dused, BITS_PER_BLOCK)
  }

  lemma FirstBlockStep(fs: Fs)
    requires Shape(fs)
    ensures FirstBlockRoom(fs) >= 0 && (FirstBlockRoom(fs) == 0 <==> Least(fs.dused, BITS_PER_BLOCK) >= BITS_PER_BLOCK)
    ensures FirstBlockRoom(fs) > 0 ==> FirstBlockRoom(GetDblock(fs).fs) == FirstBlockRoom(fs) - 1
  {
    hide ClearBelow, Taken;
    ClearBelowTaken(fs.dused, BITS_PER_BLOCK, BITS_PER_BLOCK);
    FirstBlockDecides(fs);
  }

  /** The compiled mapping loop is the documented one exactly when the first
      data bitmap block has a clear bit for every slot to be filled. */
  lemma {:induction false} CompiledExtendAgrees(fs: Fs, ino: nat, dbnr: nat, target: nat)
    requires Shape(fs) && ino < |fs.inodes| && |fs.inodes[ino].slots| == IBLOCKS && dbnr <= target <= IBLOCKS
    ensures var r := Extend(fs, ino, dbnr, target);
            var c := ExtendCompiled(fs, ino, dbnr, target);
      && (c == Proceeds(r) <==> target - dbnr <= FirstBlockRoom(fs))
      && (if target - dbnr <= FirstBlockRoom(fs)
          then r.res && FirstBlockRoom(r.fs) == FirstBlockRoom(fs) - (target - dbnr)
          else c == Derails)
    decreases target - dbnr
  {
    hide FirstBlockRoom, Taken;
    FirstBlockStep(fs);
    if dbnr < target {
      FirstBlockDecides(fs);
      FullFirstBlock(fs);
      if Least(fs.dused, BITS_PER_BLOCK) < BITS_PER_BLOCK {
        GetDblockFresh(fs);
        var got := GetDblock(fs);
        var fs1 := SetSlot(got.fs, ino, dbnr, got.res);
        assert FirstBlockRoom(fs1) == FirstBlockRoom(got.fs) by {
          SameBitmap(got.fs, fs1);
        }
        CompiledExtendAgrees(fs1, ino, dbnr + 1, target);
      }
    }
  }

  lemma SameBitmap(fs: Fs, fs': Fs)
    requires fs'.dused == fs.dused
    ensures FirstBlockRoom(fs') == FirstBlockRoom(fs)
  {
  }

  /** `yaf_get_block` as compiled. */
  function MapBlockCompiled(fs: Fs, ino: nat, iblock: nat, create: bool): (r: Outcome<Result<Option<nat>>>)
    requires ino < |fs.inodes| && |fs.inodes[ino].slots| == IBLOCKS
    ensures r.Proceeds? ==> |r.step.fs.inodes| == |fs.inodes| && |r.step.fs.inodes[ino].slots| == IBLOCKS
  {
    var n := fs.inodes[ino];
    if iblock >= IBLOCKS then Proceeds(Step(fs, Fail(EFBIG)))
    else if iblock < Mapped(n.slots) then Proceeds(Step(fs, Ok(Some(n.slots[iblock]))))
    else if !create then Proceeds(Step(fs, Ok(None)))
    else
      var r := ExtendCompiled(fs, ino, Mapped(n.slots), iblock + 1);
      if r.Derails? then Derails
      else if !r.step.res then Proceeds(Step(r.step.fs, Fail(ENOSPC)))
      else Proceeds(Step(r.step.fs, Ok(Some(r.step.fs.inodes[ino].slots[iblock]))))
  }

  /** The compiled mapping is the documented one exactly when the first data
      bitmap block has a clear bit for every slot that is missing. */
  lemma CompiledMapAgrees(fs: Fs, ino: nat, iblock: nat, create: bool)
    requires Inv(fs) && IsFile(fs, ino)
    ensures |fs.inodes[ino].slots| == IBLOCKS
    ensures var r := MapBlock(fs, ino, iblock, create);
            var c := MapBlockCompiled(fs, ino, iblock, create);
            var need := SlotsNeeded(fs, ino, iblock, create);
      && (c == Proceeds(r) <==> need <= FirstBlockRoom(fs))
      && (if need <= FirstBlockRoom(fs)
          then (r.res.Ok? || iblock >= IBLOCKS) && FirstBlockRoom(r.fs) == FirstBlockRoom(fs) - need
          else c == Derails)
  {
    hide Inv, FirstBlockRoom, Mapped;
    FileSlots(fs, ino);
    InvShape(fs);
    FirstBlockStep(fs);
    if SlotsNeeded(fs, ino, iblock, create) > 0 {
      CompiledExtendAgrees(fs, ino, Mapped(fs.inodes[ino].slots), iblock + 1);
    }
  }

  /** One page of a write as compiled. */
  function WritePageCompiled(fs: Fs, ino: nat, pos: nat, s: seq<byte>): (r: Outcome<Result<nat>>)
    requires ino < |fs.inodes| && |fs.inodes[ino].slots| == IBLOCKS && pos % BLOCK_SIZE + |s| <= BLOCK_SIZE
    ensures r.Proceeds? ==> |r.step.fs.inodes| == |fs.inodes| && |r.step.fs.inodes[ino].slots| == IBLOCKS
  {
    if pos + |s| > MAX_FILESIZE then Proceeds(Step(fs, Fail(ENOSPC)))
    else
      var r := MapBlockCompiled(fs, ino, pos / BLOCK_SIZE, true);
      match r
      case Derails => Derails
      case Proceeds(Step(fs1, Fail(e))) => Proceeds(Step(fs1, Fail(e)))
      case Proceeds(Step(fs1, Ok(None))) => Derails
      case Proceeds(Step(fs1, Ok(Some(b)))) =>
        if b >= |fs1.data| || |fs1.data[b]| != BLOCK_SIZE then Derails
        else Proceeds(Step(StoreBytes(fs1, ino, b, pos, s), Ok(|s|)))
  }

  lemma CompiledPageAgrees(fs: Fs, ino: nat, pos: nat, s: seq<byte>)
    requires Inv(fs) && IsFile(fs, ino) && s != [] && pos % BLOCK_SIZE + |s| <= BLOCK_SIZE
    ensures |fs.inodes[ino].slots| == IBLOCKS
    ensures var r := WritePage(fs, ino, pos, s);
            var c := WritePageCompiled(fs, ino, pos, s);
            var need := PageNeeds(fs, ino, pos, s);
      && (c == Proceeds(r) <==> need <= FirstBlockRoom(fs))
      && (if need <= FirstBlockRoom(fs)
          then (r.res.Ok? || pos + |s| > MAX_FILESIZE) && FirstBlockRoom(r.fs) == FirstBlockRoom(fs) - need
          else c == Derails)
  {
    hide Inv, FirstBlockRoom, Mapped, MapBlock, MapBlockCompiled, SlotsNeeded;
    FileSlots(fs, ino);
    CompiledMapAgrees(fs, ino, pos / BLOCK_SIZE, true);
    MapBlockReady(fs, ino, pos / BLOCK_SIZE);
    var r := MapBlock(fs, ino, pos / BLOCK_SIZE, true);
    if r.res.Ok? {
      SameBitmap(r.fs, StoreBytes(r.fs, ino, r.res.value.value, pos, s));
    }
    InvShape(fs);
    FirstBlockStep(fs);
  }

  /** A whole write as compiled. */
  function WriteCompiled(fs: Fs, ino: nat, pos: nat, s: seq<byte>): Outcome<Result<nat>>
    requires ino < |fs.inodes| && |fs.inodes[ino].slots| == IBLOCKS
    decreases |s|
  {
    if s == [] then Proceeds(Step(fs, Ok(0)))
    else
      var n := FirstPage(pos, s);
      var page := WritePageCompiled(fs, ino, pos, s[..n]);
      if page.Derails? || page.step.res.Fail? then page
      else
        var rest := WriteCompiled(page.step.fs, ino, pos + n, s[n..]);
        if rest.Derails? then Derails
        else Proceeds(Step(rest.step.fs, Ok(n + if rest.step.res.Ok? then rest.step.res.value else 0)))
  }

  /** What a caller can check: a clear bit in the first data bitmap block for
      every missing slot up to the end of the write or the largest file size. */
  ghost predicate WriteGuard(fs: Fs, ino: nat, pos: nat, s: seq<byte>)
    requires ino < |fs.inodes|
  {
    || s == [] || pos >= MAX_FILESIZE
    || BlockCount(Min(pos + |s|, MAX_FILESIZE)) - Mapped(fs.inodes[ino].slots) <= FirstBlockRoom(fs)
  }

  /** The first page of a write as compiled: stored as documented, or derailed. */
  lemma CompiledFirstPage(fs: Fs, ino: nat, pos: nat, s: seq<byte>)
    requires Inv(fs) && IsFile(fs, ino) && s != []
    ensures |fs.inodes[ino].slots| == IBLOCKS && FirstBlockRoom(fs) >= 0
    ensures var first := FirstMissing(pos, Mapped(fs.inodes[ino].slots));
            var t := s[..FirstPage(pos, s)];
            var r := WritePage(fs, ino, pos, t);
            var c := WritePageCompiled(fs, ino, pos, t);
      if pos >= MAX_FILESIZE then r.res.Fail? && c == Proceeds(r)
      else if first > FirstBlockRoom(fs) then c == Derails
      else
        && r.res == Ok(|t|) && c == Proceeds(r) && Inv(r.fs) && IsFile(r.fs, ino)
        && Mapped(r.fs.inodes[ino].slots) == Mapped(fs.inodes[ino].slots) + first
        && FirstBlockRoom(r.fs) == FirstBlockRoom(fs) - first
  {
    hide Inv, FirstBlockRoom, Mapped, WritePage, WritePageCompiled, Stored, Extended, Room, BlockCount;
    var t := s[..FirstPage(pos, s)];
    PageEnd(pos, |t|);
    InvShape(fs);
    FirstBlockStep(fs);
    CompiledPageAgrees(fs, ino, pos, t);
    WritePageStores(fs, ino, pos, t);
    PageSucceedsExactly(fs, ino, pos, t);
    if WritePage(fs, ino, pos, t).res.Ok? {
      StoredInv(fs, WritePage(fs, ino, pos, t).fs, ino, pos, t);
    }
  }

  /** The compiled write is the documented one exactly under the guard. */
  lemma {:induction false} CompiledWriteAgrees(fs: Fs, ino: nat, pos: nat, s: seq<byte>)
    requires Inv(fs) && IsFile(fs, ino)
    ensures |fs.inodes[ino].slots| == IBLOCKS
    ensures WriteCompiled(fs, ino, pos, s) == Proceeds(Write(fs, ino, pos, s)) <==> WriteGuard(fs, ino, pos, s)
    ensures !WriteGuard(fs, ino, pos, s) ==> WriteCompiled(fs, ino, pos, s) == Derails
    decreases |s|
  {
    hide Inv, FirstBlockRoom, Mapped, WritePage, WritePageCompiled, BlockCount, FirstPage, FirstMissing, Min;
    FileSlots(fs, ino);
    if s != [] {
      CompiledFirstPage(fs, ino, pos, s);
      if pos < MAX_FILESIZE {
        MissingSplit(pos, s, Mapped(fs.inodes[ino].slots), FirstBlockRoom(fs));
        if FirstMissing(pos, Mapped(fs.inodes[ino].slots)) <= FirstBlockRoom(fs) {
          var n := FirstPage(pos, s);
          CompiledWriteAgrees(WritePage(fs, ino, pos, s[..n]).fs, ino, pos + n, s[n..]);
        }
      }
    }
  }
}
