/** Mapping the blocks of a regular file, and writing through the mapping. */
module FileData {
  import opened Layout
  import opened Bytes
  import opened FirstFit
  import opened Directory
  import opened Namespace
  import opened State
  import opened Alloc
  import opened Slots

  predicate IsFile(fs: Fs, i: nat) {
    i in LiveInodes(fs) && i < |fs.inodes| && fs.inodes[i].kind == Reg
  }

  function SetSlot(fs: Fs, ino: nat, i: nat, b: nat): Fs
    requires ino < |fs.inodes| && i < |fs.inodes[ino].slots|
  {
    var n := fs.inodes[ino];
    fs.(inodes := fs.inodes[ino := n.(slots := n.slots[i := b])])
  }

  /** The allocation loop of `yaf_get_block`, from slot dbnr up to slot target;
      false when the disk fills up on the way. */
  function Extend(fs: Fs, ino: nat, dbnr: nat, target: nat): (r: Step<bool>)
    requires ino < |fs.inodes| && |fs.inodes[ino].slots| == IBLOCKS && target <= IBLOCKS
    ensures |r.fs.inodes| == |fs.inodes| && |r.fs.inodes[ino].slots| == IBLOCKS
    decreases target - dbnr
  {
    if dbnr >= target then Step(fs, true)
    else
      var got := GetDblock(fs);
      if got.res == RESERVED_DNO then Step(got.fs, false)
      else Extend(SetSlot(got.fs, ino, dbnr, got.res), ino, dbnr + 1, target)
  }

  /** `yaf_get_block`: the data block mapped to block iblock of the file; None
      when it is not mapped and is not to be created. */
  function MapBlock(fs: Fs, ino: nat, iblock: nat, create: bool): (r: Step<Result<Option<nat>>>)
    requires ino < |fs.inodes| && |fs.inodes[ino].slots| == IBLOCKS
    ensures |r.fs.inodes| == |fs.inodes| && |r.fs.inodes[ino].slots| == IBLOCKS
  {
    var n := fs.inodes[ino];
    if iblock >= IBLOCKS then Step(fs, Fail(EFBIG))
    else if iblock < Mapped(n.slots) then Step(fs, Ok(Some(n.slots[iblock])))
    else if !create then Step(fs, Ok(None))
    else
      var r := Extend(fs, ino, Mapped(n.slots), iblock + 1);
      if !r.res then Step(r.fs, Fail(ENOSPC))
      else Step(r.fs, Ok(Some(r.fs.inodes[ino].slots[iblock])))
  }

  /** Whatever only touches a regular file and keeps its shape keeps everything. */
  lemma FileStep(fs: Fs, fs': Fs, ino: nat)
    requires Inv(fs) && IsFile(fs, ino) && OnlyInode(fs, fs', ino)
    requires InodeOk(fs'.inodes[ino]) && fs'.inodes[ino].kind == Reg && fs'.inodes[ino].nlink == fs.inodes[ino].nlink
    ensures Inv(fs') && DirsOf(fs') == DirsOf(fs) && IsFile(fs', ino)
  {
    hide IsTree, EntriesOf, DirsOf, Ownership, InodeOk;
    OwnershipStep(fs, fs', ino);
    DirsStep(fs, fs', ino);
    assert LinkOk(fs, ino);
    LinksStep(fs, fs', ino);
    assert LiveInodes(fs') == LiveInodes(fs);
  }

  /** fs' is fs with more blocks at the end of file ino: the old slots are kept
      and the used blocks grow by exactly the new slots. */
  ghost predicate Extended(fs: Fs, fs': Fs, ino: nat) {
    && Inv(fs') && IsFile(fs, ino) && IsFile(fs', ino) && OnlyInode(fs, fs', ino) && DirsOf(fs') == DirsOf(fs)
    && fs'.data == fs.data && fs'.iused == fs.iused
    && fs'.inodes[ino] == fs.inodes[ino].(slots := fs'.inodes[ino].slots)
    && SlotsGrow(fs.inodes[ino].slots, fs'.inodes[ino].slots)
    && OwnGrowth(fs, fs', ino)
  }

  /** The used blocks grow by first fit, and by blocks the inode then owns. */
  ghost predicate OwnGrowth(fs: Fs, fs': Fs, ino: nat)
    requires ino < |fs.inodes| && ino < |fs'.inodes|
  {
    && Filled(fs.dused, fs'.dused)
    && fs'.dused <= fs.dused + Blocks(fs'.inodes[ino].slots) + {RESERVED_DNO}
  }

  ghost predicate SlotsGrow(s: seq<nat>, t: seq<nat>) {
    && |s| == IBLOCKS == |t|
    && Mapped(s) <= Mapped(t)
    && (forall i :: 0 <= i < Mapped(s) ==> t[i] == s[i])
    && Blocks(s) <= Blocks(t)
  }

  lemma ExtendOneTouches(fs: Fs, ino: nat, b: nat)
    requires Shape(fs) && Ownership(fs) && IsFile(fs, ino)
    requires |fs.inodes[ino].slots| == IBLOCKS && Mapped(fs.inodes[ino].slots) < IBLOCKS
    requires b !in fs.dused && b != RESERVED_DNO && b < |fs.data|
    ensures var fs' := SetSlot(fs.(dused := fs.dused + {b}), ino, Mapped(fs.inodes[ino].slots), b);
      && OnlyInode(fs, fs', ino) && InodeOk(fs'.inodes[ino])
      && Blocks(fs'.inodes[ino].slots) == Blocks(fs.inodes[ino].slots) + {b}
      && Mapped(fs'.inodes[ino].slots) == Mapped(fs.inodes[ino].slots) + 1
  {
    var s := fs.inodes[ino].slots;
    var fs' := SetSlot(fs.(dused := fs.dused + {b}), ino, Mapped(s), b);
    assert InodeOk(fs.inodes[ino]);
    AppendSlot(s, b);
    hide Mapped, Blocks;
    assert Shape(fs');
    assert b !in Blocks(s);
    assert InodeOk(fs'.inodes[ino]);
  }

  lemma ExtendOne(fs: Fs, ino: nat, b: nat)
    requires Inv(fs) && IsFile(fs, ino) && |fs.inodes[ino].slots| == IBLOCKS && Mapped(fs.inodes[ino].slots) < IBLOCKS
    requires b !in fs.dused && b != RESERVED_DNO && b < |fs.data| && Filled(fs.dused, fs.dused + {b})
    ensures var fs' := SetSlot(fs.(dused := fs.dused + {b}), ino, Mapped(fs.inodes[ino].slots), b);
            Extended(fs, fs', ino) && Mapped(fs'.inodes[ino].slots) == Mapped(fs.inodes[ino].slots) + 1
  {
    hide IsTree, Links, DirsOf, EntriesOf, Filled, Ownership, Mapped, Blocks, OnlyInode, InodeOk;
    ExtendOneTouches(fs, ino, b);
    FileStep(fs, SetSlot(fs.(dused := fs.dused + {b}), ino, Mapped(fs.inodes[ino].slots), b), ino);
  }

  lemma ExtendedTrans(fs: Fs, fs1: Fs, fs2: Fs, ino: nat)
    requires Inv(fs) && Extended(fs, fs1, ino) && Extended(fs1, fs2, ino)
    ensures Extended(fs, fs2, ino)
  {
    hide Inv, DirsOf, Mapped, Blocks;
  }

  /** The allocation loop only ever extends the file, and extends it far enough
      unless every block but the reserved number is used. */
  lemma {:induction false} ExtendExtends(fs: Fs, ino: nat, target: nat)
    requires Inv(fs) && IsFile(fs, ino) && |fs.inodes[ino].slots| == IBLOCKS && target <= IBLOCKS
    ensures var r := Extend(fs, ino, Mapped(fs.inodes[ino].slots), target);
      && Extended(fs, r.fs, ino)
      && (r.res ==> Mapped(r.fs.inodes[ino].slots) ==
                    if target > Mapped(fs.inodes[ino].slots) then target else Mapped(fs.inodes[ino].slots))
      && (!r.res ==> forall b: nat :: b < |fs.data| && b != RESERVED_DNO ==> b in r.fs.dused)
      && Mapped(r.fs.inodes[ino].slots) - Mapped(fs.inodes[ino].slots) == Room(fs) - Room(r.fs)
    decreases IBLOCKS - Mapped(fs.inodes[ino].slots)
  {
    hide Inv, OnlyInode, DirsOf, Blocks, SlotsGrow, Mapped, Extended, Taken, Least, Filled, ClearBelow;
    var m := Mapped(fs.inodes[ino].slots);
    assert Shape(fs) by { InvShape(fs); }
    GetDblockRoom(fs);
    if m >= target {
      ExtendedRefl(fs, ino);
    } else {
      var got := GetDblock(fs);
      GetDblockFresh(fs);
      if got.res == RESERVED_DNO {
        ExtendedRefl(fs, ino);
        ExtendFails(fs, got.fs, ino);
      } else {
        ExtendOne(fs, ino, got.res);
        var fs1 := SetSlot(got.fs, ino, m, got.res);
        ExtendedInv(fs, fs1, ino);
        ExtendExtends(fs1, ino, target);
        ExtendedTrans(fs, fs1, Extend(fs, ino, m, target).fs, ino);
      }
    }
  }

  /** The allocation loop fills its slots exactly when there is room for all of
      them; otherwise it uses up the room. */
  lemma {:induction false} ExtendSucceedsExactly(fs: Fs, ino: nat, dbnr: nat, target: nat)
    requires Shape(fs) && ino < |fs.inodes| && |fs.inodes[ino].slots| == IBLOCKS && dbnr <= target <= IBLOCKS
    ensures Room(fs) >= 0
    ensures var r := Extend(fs, ino, dbnr, target);
            (r.res <==> target - dbnr <= Room(fs)) && Room(r.fs) == if r.res then Room(fs) - (target - dbnr) else 0
    decreases target - dbnr
  {
    hide Taken, Least, ClearBelow;
    GetDblockRoom(fs);
    if dbnr < target && Room(fs) > 0 {
      GetDblockFresh(fs);
      var got := GetDblock(fs);
      ExtendSucceedsExactly(SetSlot(got.fs, ino, dbnr, got.res), ino, dbnr + 1, target);
    }
  }

  lemma ExtendedRefl(fs: Fs, ino: nat)
    requires Inv(fs) && IsFile(fs, ino) && |fs.inodes[ino].slots| == IBLOCKS
    ensures Extended(fs, fs, ino)
  {
    hide IsTree, Links, DirsOf, EntriesOf, Mapped, Blocks, InodeOk;
  }

  lemma ExtendFails(fs: Fs, fs': Fs, ino: nat)
    requires Inv(fs) && IsFile(fs, ino) && |fs.inodes[ino].slots| == IBLOCKS
    requires Shape(fs') && fs' == fs.(dused := fs'.dused)
    requires Filled(fs.dused, fs'.dused) && fs'.dused <= fs.dused + {RESERVED_DNO}
    ensures Extended(fs, fs', ino)
  {
    hide IsTree, Links, EntriesOf, Mapped, Blocks, InodeOk;
    DusedIrrelevant(fs, fs');
    assert DirsOf(fs') == DirsOf(fs);
  }

  /** The slots a mapping has to fill. */
  function SlotsNeeded(fs: Fs, ino: nat, iblock: nat, create: bool): nat
    requires ino < |fs.inodes|
  {
    var m := Mapped(fs.inodes[ino].slots);
    if create && m <= iblock < IBLOCKS then iblock + 1 - m else 0
  }

  function Min(a: int, b: int): int {
    if a < b then a else b
  }

  /** Block mapping only extends: it never changes a mapped slot, maps through
      iblock exactly when there is room for the slots it has to fill, and
      without `create` changes nothing. */
  lemma MapBlockMaps(fs: Fs, ino: nat, iblock: nat, create: bool)
    requires Inv(fs) && IsFile(fs, ino)
    ensures |fs.inodes[ino].slots| == IBLOCKS
    ensures var r := MapBlock(fs, ino, iblock, create);
            var m := Mapped(fs.inodes[ino].slots);
            var m' := Mapped(r.fs.inodes[ino].slots);
      && Extended(fs, r.fs, ino)
      && (!create || iblock >= IBLOCKS || iblock < m ==> r.fs == fs)
      && match r.res
         case Ok(Some(b)) =>
           iblock < m' && b == r.fs.inodes[ino].slots[iblock] && m' == if iblock < m then m else iblock + 1
         case Ok(None) => !create && m <= iblock
         case Fail(EFBIG) => iblock >= IBLOCKS
         case Fail(e) => e == ENOSPC && create && m <= iblock
                         && forall b: nat :: b < |fs.data| && b != RESERVED_DNO ==> b in r.fs.dused
    ensures Room(fs) >= 0
    ensures MapBlock(fs, ino, iblock, create).res.Ok? <==>
            iblock < IBLOCKS && SlotsNeeded(fs, ino, iblock, create) <= Room(fs)
  {
    hide Inv, DirsOf, OnlyInode, Mapped, Blocks, InodeOk, Extended, Room;
    assert |fs.inodes[ino].slots| == IBLOCKS by {
      FileSlots(fs, ino);
    }
    ExtendedRefl(fs, ino);
    InvShape(fs);
    GetDblockRoom(fs);
    if Mapped(fs.inodes[ino].slots) <= iblock < IBLOCKS && create {
      ExtendExtends(fs, ino, iblock + 1);
      ExtendSucceedsExactly(fs, ino, Mapped(fs.inodes[ino].slots), iblock + 1);
    }
  }

  /** A mapping fills as many of the slots it needs as there is room for. */
  lemma MapBlockTakes(fs: Fs, ino: nat, iblock: nat, create: bool)
    requires Inv(fs) && IsFile(fs, ino)
    ensures |fs.inodes[ino].slots| == IBLOCKS && Room(fs) >= 0
    ensures var r := MapBlock(fs, ino, iblock, create);
            var need := SlotsNeeded(fs, ino, iblock, create);
      && (r.res.Ok? <==> iblock < IBLOCKS && need <= Room(fs))
      && Mapped(r.fs.inodes[ino].slots) == Mapped(fs.inodes[ino].slots) + Min(need, Room(fs))
      && Room(r.fs) == Room(fs) - Min(need, Room(fs))
  {
    hide Inv, DirsOf, OnlyInode, Mapped, Blocks, InodeOk, Room, Extended;
    FileSlots(fs, ino);
    InvShape(fs);
    GetDblockRoom(fs);
    var m := Mapped(fs.inodes[ino].slots);
    if SlotsNeeded(fs, ino, iblock, create) > 0 {
      ExtendExtends(fs, ino, iblock + 1);
      ExtendSucceedsExactly(fs, ino, m, iblock + 1);
    }
  }

  /** A mapping fills its slots in the order of the block numbers. */
  lemma MapBlockAscends(fs: Fs, ino: nat, iblock: nat, create: bool)
    requires Inv(fs) && IsFile(fs, ino)
    ensures |fs.inodes[ino].slots| == IBLOCKS
    ensures var s, t := fs.inodes[ino].slots, MapBlock(fs, ino, iblock, create).fs.inodes[ino].slots;
      forall i, j :: Mapped(s) <= i < j < Mapped(t) ==> t[i] < t[j]
  {
    hide Inv, DirsOf, OnlyInode, Mapped, Blocks, InodeOk;
    FileSlots(fs, ino);
    InvShape(fs);
    UnmappedReserved(fs.inodes[ino]);
    if iblock < IBLOCKS {
      ExtendAscends(fs, ino, Mapped(fs.inodes[ino].slots), iblock + 1);
    }
  }

  lemma UnmappedReserved(n: Inode)
    requires InodeOk(n)
    ensures forall j :: Mapped(n.slots) <= j < |n.slots| ==> n.slots[j] == RESERVED_DNO
  {
  }

  lemma {:induction false} ExtendGrows(fs: Fs, ino: nat, dbnr: nat, target: nat)
    requires ino < |fs.inodes| && |fs.inodes[ino].slots| == IBLOCKS && target <= IBLOCKS
    ensures var r := Extend(fs, ino, dbnr, target); fs.dused <= r.fs.dused && r.fs.sb == fs.sb
    decreases target - dbnr
  {
    hide Least;
    if dbnr < target {
      var got := GetDblock(fs);
      ExtendGrows(SetSlot(got.fs, ino, dbnr, got.res), ino, dbnr + 1, target);
    }
  }

  /** The allocation loop fills its slots in the order of the block numbers. */
  lemma {:induction false} ExtendAscends(fs: Fs, ino: nat, dbnr: nat, target: nat)
    requires Shape(fs) && ino < |fs.inodes| && |fs.inodes[ino].slots| == IBLOCKS && target <= IBLOCKS
    ensures var s, t := fs.inodes[ino].slots, Extend(fs, ino, dbnr, target).fs.inodes[ino].slots;
      && (forall i :: 0 <= i < dbnr && i < IBLOCKS ==> t[i] == s[i])
      && (forall i :: dbnr <= i < IBLOCKS ==> t[i] == s[i] || t[i] !in fs.dused)
      && (forall i, j :: dbnr <= i < j < IBLOCKS && t[j] != s[j] ==> t[i] < t[j])
    decreases target - dbnr
  {
    hide Taken;
    if dbnr < target {
      GetDblockFresh(fs);
      var got := GetDblock(fs);
      if got.res != RESERVED_DNO {
        var fs1 := SetSlot(got.fs, ino, dbnr, got.res);
        assert Shape(fs1);
        ExtendAscends(fs1, ino, dbnr + 1, target);
        var s, t := fs.inodes[ino].slots, Extend(fs, ino, dbnr, target).fs.inodes[ino].slots;
        assert fs1.inodes[ino].slots == s[dbnr := got.res];
        assert t == Extend(fs1, ino, dbnr + 1, target).fs.inodes[ino].slots;
        assert t[dbnr] == got.res;
        assert forall x: nat :: x <= got.res ==> x in fs1.dused;
      }
    }
  }

  /** The allocation loop stays on the device exactly when the device has unused
      blocks for all its slots. */
  lemma {:induction false} ExtendOnDevice(fs: Fs, ino: nat, dbnr: nat, target: nat)
    requires Shape(fs) && OnDevice(fs)
    requires ino < |fs.inodes| && |fs.inodes[ino].slots| == IBLOCKS && dbnr <= target <= IBLOCKS
    ensures var r := Extend(fs, ino, dbnr, target);
      && (OnDevice(r.fs) <==> target - dbnr <= DeviceRoom(fs))
      && (OnDevice(r.fs) ==> r.res && DeviceRoom(r.fs) == DeviceRoom(fs) - (target - dbnr))
    decreases target - dbnr
  {
    hide Taken, Least, OnDevice, DeviceRoom;
    GetDblockOnDevice(fs);
    if dbnr < target {
      GetDblockFresh(fs);
      var got := GetDblock(fs);
      var fs1 := SetSlot(got.fs, ino, dbnr, got.res);
      SameDevice(got.fs, fs1);
      if DeviceRoom(fs) > 0 {
        ExtendOnDevice(fs1, ino, dbnr + 1, target);
      } else {
        ExtendGrows(fs1, ino, dbnr + 1, target);
        var r := Extend(fs, ino, dbnr, target);
        if OnDevice(r.fs) {
          OffDevice(fs1, r.fs);
        }
      }
    }
  }

  /** A mapping stays on the device exactly when the device has unused blocks for
      the missing slots. */
  lemma MapOnDevice(fs: Fs, ino: nat, iblock: nat, create: bool)
    requires Inv(fs) && IsFile(fs, ino) && OnDevice(fs)
    ensures |fs.inodes[ino].slots| == IBLOCKS
    ensures var r := MapBlock(fs, ino, iblock, create);
            var need := SlotsNeeded(fs, ino, iblock, create);
      && (OnDevice(r.fs) <==> need <= DeviceRoom(fs))
      && (OnDevice(r.fs) ==> (r.res.Ok? || iblock >= IBLOCKS) && DeviceRoom(r.fs) == DeviceRoom(fs) - need)
  {
    hide Inv, OnDevice, DeviceRoom, Mapped;
    FileSlots(fs, ino);
    InvShape(fs);
    GetDblockOnDevice(fs);
    if SlotsNeeded(fs, ino, iblock, create) > 0 {
      ExtendOnDevice(fs, ino, Mapped(fs.inodes[ino].slots), iblock + 1);
    }
  }

  lemma FileSlots(fs: Fs, ino: nat)
    requires Inv(fs) && IsFile(fs, ino)
    ensures InodeOk(fs.inodes[ino])
    ensures |fs.inodes[ino].slots| == IBLOCKS
  {
  }

  /** The byte at position p of a file, if its block is mapped. */
  function ByteAt(fs: Fs, ino: nat, p: nat): byte {
    if ino < |fs.inodes| && p / BLOCK_SIZE < Mapped(fs.inodes[ino].slots)
       && var b := fs.inodes[ino].slots[p / BLOCK_SIZE]; b < |fs.data| && |fs.data[b]| == BLOCK_SIZE
    then fs.data[fs.inodes[ino].slots[p / BLOCK_SIZE]][p % BLOCK_SIZE]
    else 0
  }

  function Max(a: nat, b: nat): nat {
    if a < b then b else a
  }

  /** The bytes s stored at pos, inside one mapped block, and the size raised. */
  function StoreBytes(fs: Fs, ino: nat, b: nat, pos: nat, s: seq<byte>): Fs
    requires ino < |fs.inodes| && b < |fs.data| && |fs.data[b]| == BLOCK_SIZE
    requires pos % BLOCK_SIZE + |s| <= BLOCK_SIZE
  {
    var n := fs.inodes[ino];
    Rewrite(fs, fs.dused, ino, n.(size := Max(n.size, pos + |s|)), b, Splice(fs.data[b], pos % BLOCK_SIZE, s))
  }

  /** One page of a write: `yaf_write_begin`, the copy, and the size update. */
  function WritePage(fs: Fs, ino: nat, pos: nat, s: seq<byte>): (r: Step<Result<nat>>)
    requires Inv(fs) && IsFile(fs, ino) && pos % BLOCK_SIZE + |s| <= BLOCK_SIZE
    ensures |r.fs.inodes| == |fs.inodes|
  {
    if pos + |s| > MAX_FILESIZE then Step(fs, Fail(ENOSPC))
    else
      FileSlots(fs, ino);
      MapBlockReady(fs, ino, pos / BLOCK_SIZE);
      var r := MapBlock(fs, ino, pos / BLOCK_SIZE, true);
      match r.res
      case Fail(e) => Step(r.fs, Fail(e))
      case Ok(b) => Step(StoreBytes(r.fs, ino, b.value, pos, s), Ok(|s|))
  }

  lemma MapBlockReady(fs: Fs, ino: nat, iblock: nat)
    requires Inv(fs) && IsFile(fs, ino)
    ensures |fs.inodes[ino].slots| == IBLOCKS
    ensures var r := MapBlock(fs, ino, iblock, true);
      && (r.res.Ok? ==>
            && r.res.value.Some? && r.res.value.value < |r.fs.data|
            && |r.fs.data[r.res.value.value]| == BLOCK_SIZE)
  {
    hide Inv, MapBlock, Mapped, Extended;
    MapBlockMaps(fs, ino, iblock, true);
    var r := MapBlock(fs, ino, iblock, true);
    if r.res.Ok? {
      ExtendedInv(fs, r.fs, ino);
      OwnedInData(r.fs, ino, iblock);
    }
  }

  lemma ExtendedInv(fs: Fs, fs': Fs, ino: nat)
    requires Extended(fs, fs', ino)
    ensures Inv(fs') && IsFile(fs', ino)
  {
  }

  lemma OwnedInData(fs: Fs, i: nat, k: nat)
    requires Inv(fs) && i in LiveInodes(fs) && i < |fs.inodes| && k < Mapped(fs.inodes[i].slots)
    ensures fs.inodes[i].slots[k] in Blocks(fs.inodes[i].slots)
    ensures fs.inodes[i].slots[k] < |fs.data| && |fs.data[fs.inodes[i].slots[k]]| == BLOCK_SIZE
  {
  }

  /** The bytes of a write that go to its first page. */
  function FirstPage(pos: nat, s: seq<byte>): (n: nat)
    ensures n <= |s| && pos % BLOCK_SIZE + n <= BLOCK_SIZE && (s != [] ==> n > 0)
  {
    if |s| <= BLOCK_SIZE - pos % BLOCK_SIZE then |s| else BLOCK_SIZE - pos % BLOCK_SIZE
  }

  /** `generic_perform_write`: page by page, up to the first failure; the number
      of bytes written, or the error when there are none. */
  function Write(fs: Fs, ino: nat, pos: nat, s: seq<byte>): (r: Step<Result<nat>>)
    requires Inv(fs) && IsFile(fs, ino)
    ensures |r.fs.inodes| == |fs.inodes|
    decreases |s|
  {
    if s == [] then Step(fs, Ok(0))
    else
      var n := FirstPage(pos, s);
      WritePageStores(fs, ino, pos, s[..n]);
      var page := WritePage(fs, ino, pos, s[..n]);
      if page.res.Fail? then page
      else
        var rest := Write(page.fs, ino, pos + n, s[n..]);
        Step(rest.fs, Ok(n + if rest.res.Ok? then rest.res.value else 0))
  }

  /** fs' is fs after the bytes s have been stored at pos of file ino: they read
      back, every other mapped byte of the file and everything else is kept. */
  ghost predicate Stored(fs: Fs, fs': Fs, ino: nat, pos: nat, s: seq<byte>) {
    && Inv(fs') && IsFile(fs, ino) && IsFile(fs', ino) && OnlyInode(fs, fs', ino)
    && DirsOf(fs') == DirsOf(fs) && fs'.iused == fs.iused
    && SlotsGrow(fs.inodes[ino].slots, fs'.inodes[ino].slots)
    && OwnGrowth(fs, fs', ino)
    && fs'.inodes[ino].size == (if s == [] then fs.inodes[ino].size else Max(fs.inodes[ino].size, pos + |s|))
    && (s != [] ==> pos + |s| <= Mapped(fs'.inodes[ino].slots) * BLOCK_SIZE)
    && (forall p: nat :: pos <= p < pos + |s| ==> ByteAt(fs', ino, p) == s[p - pos])
    && (forall p: nat :: !(pos <= p < pos + |s|) && p / BLOCK_SIZE < Mapped(fs.inodes[ino].slots) ==>
          ByteAt(fs', ino, p) == ByteAt(fs, ino, p))
  }

  lemma ExtendedStoresNothing(fs: Fs, fs': Fs, ino: nat, pos: nat)
    requires Inv(fs) && Extended(fs, fs', ino)
    ensures Stored(fs, fs', ino, pos, [])
  {
    hide Inv, DirsOf, OnlyInode, Mapped, Blocks;
  }

  lemma StoreStores(fs: Fs, ino: nat, pos: nat, s: seq<byte>)
    requires Inv(fs) && IsFile(fs, ino) && s != [] && pos % BLOCK_SIZE + |s| <= BLOCK_SIZE
    requires pos / BLOCK_SIZE < Mapped(fs.inodes[ino].slots)
    ensures var b := fs.inodes[ino].slots[pos / BLOCK_SIZE];
      && b < |fs.data| && |fs.data[b]| == BLOCK_SIZE
      && Stored(fs, StoreBytes(fs, ino, b, pos, s), ino, pos, s)
  {
    hide Inv, DirsOf, OnlyInode, IsTree, Links, Blocks, EntriesOf, InodeOk, ByteAt, Mapped;
    OwnedInData(fs, ino, pos / BLOCK_SIZE);
    FileSlots(fs, ino);
    StoreKeeps(fs, ino, pos, s);
    var n := fs.inodes[ino];
    var fs' := StoreBytes(fs, ino, n.slots[pos / BLOCK_SIZE], pos, s);
    forall p: nat | p / BLOCK_SIZE < Mapped(n.slots)
      ensures ByteAt(fs', ino, p) == if pos <= p < pos + |s| then s[p - pos] else ByteAt(fs, ino, p)
    {
      StoredByte(fs, ino, pos, s, p);
    }
    forall p: nat | pos <= p < pos + |s|
      ensures p / BLOCK_SIZE < Mapped(n.slots)
    {
    }
  }

  lemma StoreKeeps(fs: Fs, ino: nat, pos: nat, s: seq<byte>)
    requires Inv(fs) && IsFile(fs, ino) && s != [] && pos % BLOCK_SIZE + |s| <= BLOCK_SIZE
    requires pos / BLOCK_SIZE < Mapped(fs.inodes[ino].slots)
    requires var b := fs.inodes[ino].slots[pos / BLOCK_SIZE];
      b in Blocks(fs.inodes[ino].slots) && b < |fs.data| && |fs.data[b]| == BLOCK_SIZE
    ensures var fs' := StoreBytes(fs, ino, fs.inodes[ino].slots[pos / BLOCK_SIZE], pos, s);
      && Inv(fs') && IsFile(fs', ino) && OnlyInode(fs, fs', ino) && DirsOf(fs') == DirsOf(fs)
      && pos + |s| <= Mapped(fs'.inodes[ino].slots) * BLOCK_SIZE
  {
    hide DirsOf, OnlyInode, IsTree, Links, Blocks, EntriesOf, Mapped;
    var n := fs.inodes[ino];
    var b := n.slots[pos / BLOCK_SIZE];
    var n' := n.(size := Max(n.size, pos + |s|));
    var blk := Splice(fs.data[b], pos % BLOCK_SIZE, s);
    FileSlots(fs, ino);
    assert pos + |s| <= (pos / BLOCK_SIZE + 1) * BLOCK_SIZE;
    assert BlockCount(pos + |s|) <= pos / BLOCK_SIZE + 1;
    assert InodeOk(n');
    hide InodeOk;
    RewriteTouches(fs, fs.dused, ino, n', b, blk);
    FileStep(fs, StoreBytes(fs, ino, b, pos, s), ino);
  }

  lemma StoredByte(fs: Fs, ino: nat, pos: nat, s: seq<byte>, p: nat)
    requires Inv(fs) && IsFile(fs, ino) && pos % BLOCK_SIZE + |s| <= BLOCK_SIZE
    requires pos / BLOCK_SIZE < Mapped(fs.inodes[ino].slots) && p / BLOCK_SIZE < Mapped(fs.inodes[ino].slots)
    requires var b := fs.inodes[ino].slots[pos / BLOCK_SIZE]; b < |fs.data| && |fs.data[b]| == BLOCK_SIZE
    ensures ByteAt(StoreBytes(fs, ino, fs.inodes[ino].slots[pos / BLOCK_SIZE], pos, s), ino, p) ==
            if pos <= p < pos + |s| then s[p - pos] else ByteAt(fs, ino, p)
  {
    hide DirsOf, IsTree, Links, Blocks, EntriesOf, Mapped;
    OwnedInData(fs, ino, p / BLOCK_SIZE);
    FileSlots(fs, ino);
    assert p == p / 4096 * 4096 + p % 4096 && pos == pos / 4096 * 4096 + pos % 4096;
  }

  lemma StoredTrans(fs: Fs, fs1: Fs, fs2: Fs, ino: nat, pos: nat, s: seq<byte>, t: seq<byte>)
    requires Inv(fs) && Stored(fs, fs1, ino, pos, s) && Stored(fs1, fs2, ino, pos + |s|, t)
    ensures Stored(fs, fs2, ino, pos, s + t)
  {
    hide Inv, DirsOf, Mapped, Blocks, ByteAt;
    assert OnlyInode(fs, fs2, ino);
    var m := Mapped(fs1.inodes[ino].slots);
    forall p: nat | pos <= p < pos + |s + t|
      ensures ByteAt(fs2, ino, p) == (s + t)[p - pos]
    {
      if p < pos + |s| {
        assert p / BLOCK_SIZE < m;
      }
    }
  }

  lemma WritePageStores(fs: Fs, ino: nat, pos: nat, s: seq<byte>)
    requires Inv(fs) && IsFile(fs, ino) && s != [] && pos % BLOCK_SIZE + |s| <= BLOCK_SIZE
    ensures var r := WritePage(fs, ino, pos, s);
      match r.res
      case Ok(n) => n == |s| && Stored(fs, r.fs, ino, pos, s)
      case Fail(e) => e == ENOSPC && Extended(fs, r.fs, ino)
  {
    hide Inv, DirsOf, OnlyInode, Mapped, Blocks, ByteAt, SlotsGrow, MapBlock, StoreBytes;
    FileSlots(fs, ino);
    ExtendedRefl(fs, ino);
    if pos + |s| <= MAX_FILESIZE {
      MapBlockReady(fs, ino, pos / BLOCK_SIZE);
      MapBlockMaps(fs, ino, pos / BLOCK_SIZE, true);
      var r := MapBlock(fs, ino, pos / BLOCK_SIZE, true);
      if r.res.Ok? {
        ExtendedStoresNothing(fs, r.fs, ino, pos);
        StoreStores(r.fs, ino, pos, s);
        StoredTrans(fs, r.fs, StoreBytes(r.fs, ino, r.res.value.value, pos, s), ino, pos, [], s);
        assert [] + s == s;
      }
    }
  }

  lemma {:induction false} WriteStoresBytes(fs: Fs, ino: nat, pos: nat, s: seq<byte>)
    requires Inv(fs) && IsFile(fs, ino)
    ensures var r := Write(fs, ino, pos, s);
      match r.res
      case Ok(n) => n <= |s| && (s != [] ==> 0 < n) && Stored(fs, r.fs, ino, pos, s[..n])
      case Fail(e) => e == ENOSPC && Extended(fs, r.fs, ino)
    decreases |s|
  {
    hide Inv, DirsOf, OnlyInode, Mapped, Blocks, ByteAt, SlotsGrow, WritePage, Stored, Extended;
    if s == [] {
      FileSlots(fs, ino);
      ExtendedRefl(fs, ino);
      ExtendedStoresNothing(fs, fs, ino, pos);
      assert s[..0] == [];
    } else {
      var n := FirstPage(pos, s);
      WritePageStores(fs, ino, pos, s[..n]);
      var page := WritePage(fs, ino, pos, s[..n]);
      if page.res.Ok? {
        StoredInv(fs, page.fs, ino, pos, s[..n]);
        WriteStoresBytes(page.fs, ino, pos + n, s[n..]);
        var rest := Write(page.fs, ino, pos + n, s[n..]);
        if rest.res.Ok? {
          StoredTrans(fs, page.fs, rest.fs, ino, pos, s[..n], s[n..][..rest.res.value]);
          assert s[..n] + s[n..][..rest.res.value] == s[..n + rest.res.value];
        } else {
          ExtendedStoresNothing(page.fs, rest.fs, ino, pos + n);
          StoredTrans(fs, page.fs, rest.fs, ino, pos, s[..n], []);
          assert s[..n] + [] == s[..n];
        }
      }
    }
  }

  /** The slots a page of a write has to fill; none past the largest file size. */
  function PageNeeds(fs: Fs, ino: nat, pos: nat, s: seq<byte>): nat
    requires ino < |fs.inodes|
  {
    if pos + |s| > MAX_FILESIZE then 0 else SlotsNeeded(fs, ino, pos / BLOCK_SIZE, true)
  }

  lemma PageSucceedsExactly(fs: Fs, ino: nat, pos: nat, s: seq<byte>)
    requires Inv(fs) && IsFile(fs, ino) && s != [] && pos % BLOCK_SIZE + |s| <= BLOCK_SIZE
    ensures Room(fs) >= 0
    ensures var r := WritePage(fs, ino, pos, s);
            var need := PageNeeds(fs, ino, pos, s);
      && (r.res.Ok? <==> pos + |s| <= MAX_FILESIZE && need <= Room(fs))
      && Mapped(r.fs.inodes[ino].slots) == Mapped(fs.inodes[ino].slots) + Min(need, Room(fs))
      && Room(r.fs) == Room(fs) - Min(need, Room(fs))
  {
    hide Inv, Mapped, MapBlock, ClearBelow, SlotsNeeded;
    MapBlockTakes(fs, ino, pos / BLOCK_SIZE, true);
    MapBlockReady(fs, ino, pos / BLOCK_SIZE);
  }

  /** The slots missing at the first page of a write. */
  function FirstMissing(pos: nat, m: nat): nat {
    if pos / BLOCK_SIZE < m then 0 else pos / BLOCK_SIZE + 1 - m
  }

  /** The slots a write is missing are those of its first page and those of the
      rest, counted from where the first page ends. */
  lemma MissingSplit(pos: nat, s: seq<byte>, m: nat, room: int)
    requires pos < MAX_FILESIZE && room >= 0 && s != []
    ensures var last := BlockCount(Min(pos + |s|, MAX_FILESIZE));
            var first := FirstMissing(pos, m);
            var n := FirstPage(pos, s);
            last - m <= room <==>
            first <= room && (s[n..] == [] || pos + n >= MAX_FILESIZE || last - (m + first) <= room - first)
  {
  }

  /** Where a write ends, seen from the state before it: after its last byte, or
      at the largest file size, or where the mapped blocks and the room end. */
  ghost function WriteEnd(fs: Fs, ino: nat, pos: nat, s: seq<byte>): int
    requires ino < |fs.inodes|
  {
    Min(pos + |s|, Min(IBLOCKS, Mapped(fs.inodes[ino].slots) + Room(fs)) * BLOCK_SIZE)
  }

  /** The result of a write: the bytes up to its end, or an error if that is
      none of them. */
  lemma {:induction false} WriteResult(fs: Fs, ino: nat, pos: nat, s: seq<byte>)
    requires Inv(fs) && IsFile(fs, ino)
    ensures Room(fs) >= 0
    ensures Write(fs, ino, pos, s).res ==
            if s == [] then Ok(0)
            else if pos < WriteEnd(fs, ino, pos, s) then Ok(WriteEnd(fs, ino, pos, s) - pos)
            else Fail(ENOSPC)
    decreases |s|
  {
    hide Inv, Mapped, WritePage, Stored, Extended, Room, IsFile, PageNeeds, BlockCount;
    if s == [] {
      MapBlockTakes(fs, ino, 0, false);
    } else {
      var n := FirstPage(pos, s);
      WritePageStores(fs, ino, pos, s[..n]);
      PageSucceedsExactly(fs, ino, pos, s[..n]);
      FileIndex(fs, ino);
      FirstPageNeeds(fs, ino, pos, s);
      PageEnd(pos, n);
      var page := WritePage(fs, ino, pos, s[..n]);
      if page.res.Ok? {
        StoredInv(fs, page.fs, ino, pos, s[..n]);
        WriteResult(page.fs, ino, pos + n, s[n..]);
      }
    }
  }

  lemma FileIndex(fs: Fs, ino: nat)
    requires IsFile(fs, ino)
    ensures ino < |fs.inodes|
  {
  }

  /** The slots the first page of a write has to fill. */
  lemma FirstPageNeeds(fs: Fs, ino: nat, pos: nat, s: seq<byte>)
    requires ino < |fs.inodes| && s != []
    ensures PageNeeds(fs, ino, pos, s[..FirstPage(pos, s)]) ==
            if pos >= MAX_FILESIZE || pos / BLOCK_SIZE < Mapped(fs.inodes[ino].slots) then 0
            else pos / BLOCK_SIZE + 1 - Mapped(fs.inodes[ino].slots)
  {
    hide Mapped;
    PageEnd(pos, FirstPage(pos, s));
  }

  /** The first page of a write stays on the device and is stored, or leaves it. */
  lemma FirstPageOnDevice(fs: Fs, ino: nat, pos: nat, s: seq<byte>)
    requires Inv(fs) && IsFile(fs, ino) && OnDevice(fs) && s != []
    ensures ino < |fs.inodes| && DeviceRoom(fs) >= 0
    ensures var first := FirstMissing(pos, Mapped(fs.inodes[ino].slots));
            var t := s[..FirstPage(pos, s)];
            var r := WritePage(fs, ino, pos, t);
      if pos >= MAX_FILESIZE then r.res.Fail? && r.fs == fs
      else
        && (OnDevice(r.fs) <==> first <= DeviceRoom(fs))
        && (OnDevice(r.fs) ==>
              && r.res == Ok(|t|)
              && Mapped(r.fs.inodes[ino].slots) == Mapped(fs.inodes[ino].slots) + first
              && DeviceRoom(r.fs) == DeviceRoom(fs) - first)
  {
    hide Inv, OnDevice, DeviceRoom, Mapped, MapBlock, Room, BlockCount;
    var t := s[..FirstPage(pos, s)];
    PageEnd(pos, |t|);
    FileSlots(fs, ino);
    InvShape(fs);
    GetDblockOnDevice(fs);
    MapOnDevice(fs, ino, pos / BLOCK_SIZE, true);
    MapBlockReady(fs, ino, pos / BLOCK_SIZE);
    PageSucceedsExactly(fs, ino, pos, t);
    var r := MapBlock(fs, ino, pos / BLOCK_SIZE, true);
    if r.res.Ok? {
      SameDevice(r.fs, StoreBytes(r.fs, ino, r.res.value.value, pos, t));
    }
  }

  /** What a caller can check: the device has unused blocks for the missing slots
      up to the end of the write or the largest file size. */
  ghost predicate WriteStays(fs: Fs, ino: nat, pos: nat, s: seq<byte>)
    requires ino < |fs.inodes|
  {
    || s == [] || pos >= MAX_FILESIZE
    || BlockCount(Min(pos + |s|, MAX_FILESIZE)) - Mapped(fs.inodes[ino].slots) <= DeviceRoom(fs)
  }

  lemma WriteGrows(fs: Fs, ino: nat, pos: nat, s: seq<byte>)
    requires Inv(fs) && IsFile(fs, ino)
    ensures var r := Write(fs, ino, pos, s); fs.dused <= r.fs.dused && r.fs.sb == fs.sb
  {
    hide Inv, Write, ByteAt, Mapped, Blocks, SlotsGrow, OwnGrowth, DirsOf;
    WriteStoresBytes(fs, ino, pos, s);
  }

  /** A write stays on the device exactly under that guard. */
  lemma {:induction false} WriteOnDevice(fs: Fs, ino: nat, pos: nat, s: seq<byte>)
    requires Inv(fs) && IsFile(fs, ino) && OnDevice(fs)
    ensures OnDevice(Write(fs, ino, pos, s).fs) <==> WriteStays(fs, ino, pos, s)
    decreases |s|
  {
    hide Inv, OnDevice, DeviceRoom, Mapped, WritePage, BlockCount, FirstPage, FirstMissing, Min, Stored, Extended,
      IsFile;
    if s != [] {
      FirstPageOnDevice(fs, ino, pos, s);
      if pos < MAX_FILESIZE {
        var n := FirstPage(pos, s);
        WritePageStores(fs, ino, pos, s[..n]);
        MissingSplit(pos, s, Mapped(fs.inodes[ino].slots), DeviceRoom(fs));
        var page := WritePage(fs, ino, pos, s[..n]);
        if page.res.Ok? {
          StoredInv(fs, page.fs, ino, pos, s[..n]);
          if OnDevice(page.fs) {
            WriteOnDevice(page.fs, ino, pos + n, s[n..]);
          } else {
            WriteGrows(page.fs, ino, pos + n, s[n..]);
            if OnDevice(Write(fs, ino, pos, s).fs) {
              OffDevice(page.fs, Write(fs, ino, pos, s).fs);
            }
          }
        }
      }
    }
  }

  /** The guard of a whole write: it ends within the largest file size, and
      there is room for every block up to its last byte. */
  ghost predicate WriteFits(fs: Fs, ino: nat, pos: nat, s: seq<byte>)
    requires ino < |fs.inodes|
  {
    s == [] || (pos + |s| <= MAX_FILESIZE && BlockCount(pos + |s|) - Mapped(fs.inodes[ino].slots) <= Room(fs))
  }

  /** The same with room on the device only. */
  ghost predicate WriteFitsDevice(fs: Fs, ino: nat, pos: nat, s: seq<byte>)
    requires ino < |fs.inodes|
  {
    s == [] || (pos + |s| <= MAX_FILESIZE && BlockCount(pos + |s|) - Mapped(fs.inodes[ino].slots) <= DeviceRoom(fs))
  }

  /** A write is finished exactly under its guard, and finished without leaving
      the device exactly under the stricter one. */
  lemma WriteSucceedsExactly(fs: Fs, ino: nat, pos: nat, s: seq<byte>)
    requires Inv(fs) && IsFile(fs, ino)
    ensures Write(fs, ino, pos, s).res == Ok(|s|) <==> WriteFits(fs, ino, pos, s)
    ensures var r := Write(fs, ino, pos, s);
            OnDevice(fs) ==> (r.res == Ok(|s|) && OnDevice(r.fs) <==> WriteFitsDevice(fs, ino, pos, s))
  {
    hide Inv, Mapped, Room, DeviceRoom, OnDevice, Write;
    WriteResult(fs, ino, pos, s);
    CountFits(pos + |s|, Mapped(fs.inodes[ino].slots) + Room(fs));
    if OnDevice(fs) {
      InvShape(fs);
      DeviceRoomIsRoom(fs);
      WriteOnDevice(fs, ino, pos, s);
    }
  }

  lemma CountFits(n: nat, blocks: nat)
    ensures n <= blocks * BLOCK_SIZE <==> BlockCount(n) <= blocks
  {
  }

  /** A write fails without storing anything exactly when its first page fails. */
  lemma WriteFailsExactly(fs: Fs, ino: nat, pos: nat, s: seq<byte>)
    requires Inv(fs) && IsFile(fs, ino)
    ensures Room(fs) >= 0
    ensures Write(fs, ino, pos, s).res.Fail? <==>
            s != [] && (pos >= MAX_FILESIZE || pos / BLOCK_SIZE + 1 - Mapped(fs.inodes[ino].slots) > Room(fs))
  {
    hide Inv, Mapped, Room, Write;
    WriteResult(fs, ino, pos, s);
  }

  /** A write stores the bytes it reports, as many as the state before it has
      blocks for, and changes no other byte of any file, no name and no other
      inode. */
  lemma WriteStores(fs: Fs, ino: nat, pos: nat, s: seq<byte>)
    requires Inv(fs) && IsFile(fs, ino)
    ensures var r := Write(fs, ino, pos, s);
            var end := WriteEnd(fs, ino, pos, s);
      if s == [] || pos < end
      then var n := if s == [] then 0 else end - pos;
           n <= |s| && r.res == Ok(n) && Stored(fs, r.fs, ino, pos, s[..n])
      else r.res == Fail(ENOSPC) && Extended(fs, r.fs, ino)
  {
    hide Inv, Mapped, Room, Write, Stored, Extended, IsFile;
    FileIndex(fs, ino);
    WriteResult(fs, ino, pos, s);
    WriteStoresBytes(fs, ino, pos, s);
  }

  function DiskByte(data: seq<Block>, b: nat, o: nat): byte {
    if b < |data| && o < |data[b]| then data[b][o] else 0
  }

  /** Outside the n bytes from pos on, the file reads what its blocks held before
      the write, the newly mapped ones included. */
  ghost predicate HoldsOld(fs: Fs, fs': Fs, ino: nat, pos: nat, n: nat) {
    && IsFile(fs', ino) && |fs'.inodes[ino].slots| == IBLOCKS
    && forall p: nat :: p / BLOCK_SIZE < Mapped(fs'.inodes[ino].slots) && !(pos <= p < pos + n) ==>
         ByteAt(fs', ino, p) == DiskByte(fs.data, fs'.inodes[ino].slots[p / BLOCK_SIZE], p % BLOCK_SIZE)
  }

  lemma ExtendedHoldsOld(fs: Fs, fs': Fs, ino: nat, pos: nat)
    requires Extended(fs, fs', ino)
    ensures HoldsOld(fs, fs', ino, pos, 0)
  {
    hide DirsOf, IsTree, Links, Blocks, EntriesOf, Mapped, OnlyInode, SlotsGrow, OwnGrowth;
    FileSlots(fs', ino);
    forall p: nat | p / BLOCK_SIZE < Mapped(fs'.inodes[ino].slots)
      ensures ByteAt(fs', ino, p) == DiskByte(fs.data, fs'.inodes[ino].slots[p / BLOCK_SIZE], p % BLOCK_SIZE)
    {
      OwnedInData(fs', ino, p / BLOCK_SIZE);
    }
  }

  lemma PageHoldsOld(fs: Fs, ino: nat, pos: nat, s: seq<byte>)
    requires Inv(fs) && IsFile(fs, ino) && s != [] && pos % BLOCK_SIZE + |s| <= BLOCK_SIZE
    requires WritePage(fs, ino, pos, s).res.Ok?
    ensures HoldsOld(fs, WritePage(fs, ino, pos, s).fs, ino, pos, |s|)
  {
    hide Inv, DirsOf, OnlyInode, Mapped, Blocks, ByteAt, Extended, MapBlock, InodeOk, DiskByte;
    FileSlots(fs, ino);
    MapBlockReady(fs, ino, pos / BLOCK_SIZE);
    MapBlockMaps(fs, ino, pos / BLOCK_SIZE, true);
    var r := MapBlock(fs, ino, pos / BLOCK_SIZE, true);
    ExtendedInv(fs, r.fs, ino);
    ExtendedHoldsOld(fs, r.fs, ino, pos);
    var fs' := WritePage(fs, ino, pos, s).fs;
    forall p: nat | p / BLOCK_SIZE < Mapped(fs'.inodes[ino].slots) && !(pos <= p < pos + |s|)
      ensures ByteAt(fs', ino, p) == ByteAt(r.fs, ino, p)
    {
      StoredByte(r.fs, ino, pos, s, p);
    }
  }

  /** A newly mapped slot holds a block the file did not have. */
  lemma NewlyMapped(fs: Fs, fs': Fs, ino: nat, k: nat)
    requires Inv(fs') && IsFile(fs, ino) && IsFile(fs', ino)
    requires SlotsGrow(fs.inodes[ino].slots, fs'.inodes[ino].slots)
    requires Mapped(fs.inodes[ino].slots) <= k < Mapped(fs'.inodes[ino].slots)
    ensures fs'.inodes[ino].slots[k] !in Blocks(fs.inodes[ino].slots)
  {
    hide IsTree, Links, EntriesOf, DirsOf;
    FileSlots(fs', ino);
  }

  lemma HoldsOldTrans(fs: Fs, fs1: Fs, fs2: Fs, ino: nat, pos: nat, s: seq<byte>, t: seq<byte>)
    requires Stored(fs, fs1, ino, pos, s) && Stored(fs1, fs2, ino, pos + |s|, t)
    requires HoldsOld(fs, fs1, ino, pos, |s|) && HoldsOld(fs1, fs2, ino, pos + |s|, |t|)
    ensures HoldsOld(fs, fs2, ino, pos, |s| + |t|)
  {
    hide Inv, DirsOf, Blocks, ByteAt, OwnGrowth, Mapped;
    forall p: nat | p / BLOCK_SIZE < Mapped(fs2.inodes[ino].slots) && !(pos <= p < pos + |s| + |t|)
      ensures ByteAt(fs2, ino, p) == DiskByte(fs.data, fs2.inodes[ino].slots[p / BLOCK_SIZE], p % BLOCK_SIZE)
    {
      if p / BLOCK_SIZE >= Mapped(fs1.inodes[ino].slots) {
        NewlyMapped(fs1, fs2, ino, p / BLOCK_SIZE);
      } else {
        assert ByteAt(fs2, ino, p) == ByteAt(fs1, ino, p);
      }
    }
  }

  /** A write changes no byte outside the ones it reports, not even in blocks it
      has newly mapped. */
  lemma {:induction false} WriteHoldsOld(fs: Fs, ino: nat, pos: nat, s: seq<byte>)
    requires Inv(fs) && IsFile(fs, ino)
    ensures var r := Write(fs, ino, pos, s);
            HoldsOld(fs, r.fs, ino, pos, if r.res.Ok? then r.res.value else 0)
    decreases |s|
  {
    hide Inv, DirsOf, OnlyInode, Mapped, Blocks, ByteAt, SlotsGrow, WritePage, Stored, Extended, HoldsOld;
    if s == [] {
      FileSlots(fs, ino);
      ExtendedRefl(fs, ino);
      ExtendedHoldsOld(fs, fs, ino, pos);
    } else {
      var n := FirstPage(pos, s);
      WritePageStores(fs, ino, pos, s[..n]);
      var page := WritePage(fs, ino, pos, s[..n]);
      if page.res.Fail? {
        ExtendedHoldsOld(fs, page.fs, ino, pos);
      } else {
        PageHoldsOld(fs, ino, pos, s[..n]);
        StoredInv(fs, page.fs, ino, pos, s[..n]);
        WriteStoresBytes(page.fs, ino, pos + n, s[n..]);
        WriteHoldsOld(page.fs, ino, pos + n, s[n..]);
        var rest := Write(page.fs, ino, pos + n, s[n..]);
        var m := if rest.res.Ok? then rest.res.value else 0;
        if rest.res.Fail? {
          ExtendedStoresNothing(page.fs, rest.fs, ino, pos + n);
        }
        assert s[n..][..0] == [];
        HoldsOldTrans(fs, page.fs, rest.fs, ino, pos, s[..n], s[n..][..m]);
      }
    }
  }

  /** Where a page ends, in blocks. */
  lemma PageEnd(pos: nat, n: nat)
    requires 0 < n && pos % BLOCK_SIZE + n <= BLOCK_SIZE
    ensures BlockCount(pos + n) == pos / BLOCK_SIZE + 1
    ensures pos + n <= MAX_FILESIZE <==> pos / BLOCK_SIZE < IBLOCKS
    ensures pos % BLOCK_SIZE + n == BLOCK_SIZE ==> pos + n == (pos / BLOCK_SIZE + 1) * BLOCK_SIZE
  {
    assert pos == pos / BLOCK_SIZE * BLOCK_SIZE + pos % BLOCK_SIZE;
  }

  lemma StoredInv(fs: Fs, fs': Fs, ino: nat, pos: nat, s: seq<byte>)
    requires Stored(fs, fs', ino, pos, s)
    ensures Inv(fs') && IsFile(fs', ino)
  {
  }

  /** The byte read at position p: the block is looked up without creating it. */
  function ReadByte(fs: Fs, ino: nat, p: nat): Option<byte>
    requires ino < |fs.inodes| && |fs.inodes[ino].slots| == IBLOCKS
  {
    var r := MapBlock(fs, ino, p / BLOCK_SIZE, false);
    match r.res
    case Ok(Some(b)) => if b < |fs.data| && |fs.data[b]| == BLOCK_SIZE then Some(fs.data[b][p % BLOCK_SIZE]) else None
    case _ => None
  }

  lemma ReadIsByteAt(fs: Fs, ino: nat, p: nat)
    requires Inv(fs) && IsFile(fs, ino)
    ensures ino < |fs.inodes| && |fs.inodes[ino].slots| == IBLOCKS
    ensures ReadByte(fs, ino, p) ==
            if p / BLOCK_SIZE < Mapped(fs.inodes[ino].slots) then Some(ByteAt(fs, ino, p)) else None
  {
  }

  /** A write that fits is finished and read back; every other mapped byte of
      every file reads as before, every size but the written file's is kept, and
      so is every name map. Its bytes are on the device exactly when the device
      had blocks for them. */
  lemma WriteThenRead(fs: Fs, ino: nat, pos: nat, s: seq<byte>, j: nat, p: nat)
    requires Inv(fs) && IsFile(fs, ino) && IsFile(fs, j) && WriteFits(fs, ino, pos, s)
    ensures |fs.inodes[j].slots| == IBLOCKS && Write(fs, ino, pos, s).res == Ok(|s|)
    ensures OnDevice(fs) ==> (OnDevice(Write(fs, ino, pos, s).fs) <==> WriteFitsDevice(fs, ino, pos, s))
    ensures var fs' := Write(fs, ino, pos, s).fs;
      && Inv(fs') && IsFile(fs', j) && |fs'.inodes[j].slots| == IBLOCKS
      && Maps(fs') == Maps(fs)
      && (j == ino && pos <= p < pos + |s| ==> ReadByte(fs', j, p) == Some(s[p - pos]))
      && (!(j == ino && pos <= p < pos + |s|) && p / BLOCK_SIZE < Mapped(fs.inodes[j].slots) ==>
            ReadByte(fs', j, p) == ReadByte(fs, j, p))
      && fs'.inodes[j].size ==
         if j == ino && s != [] then Max(fs.inodes[j].size, pos + |s|) else fs.inodes[j].size
  {
    hide Inv, Write, DirsOf, Mapped, Blocks, ByteAt, ReadByte, OnlyInode, NameMap, WriteFits, OnDevice, WriteFitsDevice;
    WriteSucceedsExactly(fs, ino, pos, s);
    WriteStoresBytes(fs, ino, pos, s);
    assert s[..|s|] == s;
    var fs' := Write(fs, ino, pos, s).fs;
    FileSlots(fs, j);
    ReadIsByteAt(fs, j, p);
    MapsSame(fs, fs');
    if j != ino {
      assert Ownership(fs) && Ownership(fs') by {
        InvOwnership(fs);
        InvOwnership(fs');
      }
      OtherFileKept(fs, fs', ino, j);
    }
    ReadIsByteAt(fs', j, p);
    if j == ino && pos <= p < pos + |s| {
      assert p / BLOCK_SIZE < Mapped(fs'.inodes[ino].slots);
    }
  }

  lemma MapsSame(fs: Fs, fs': Fs)
    requires Inv(fs) && Inv(fs') && DirsOf(fs') == DirsOf(fs)
    ensures Maps(fs') == Maps(fs)
  {
    hide Inv, DirsOf, NameMap, NamesOk;
    InvGoodNames(fs);
    InvGoodNames(fs');
    MapsEqual(Maps(fs'), Maps(fs));
  }

  /** File j has the same inode and the same bytes. */
  ghost predicate FileKept(fs: Fs, fs': Fs, j: nat) {
    && IsFile(fs, j) && IsFile(fs', j) && fs'.inodes[j] == fs.inodes[j]
    && forall p: nat :: ByteAt(fs', j, p) == ByteAt(fs, j, p)
  }

  /** Changing inode i and its blocks touches no byte of another file. */
  lemma OtherFileKept(fs: Fs, fs': Fs, i: nat, j: nat)
    requires OnlyInode(fs, fs', i) && Ownership(fs) && Ownership(fs') && j != i && IsFile(fs, j)
    ensures FileKept(fs, fs', j)
  {
  }
}
