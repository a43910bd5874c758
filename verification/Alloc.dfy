/** Results of operations, and taking blocks and inode numbers from a state. */
module Alloc {
  import opened Layout
  import opened FirstFit
  import opened State

  datatype Option<+T> = None | Some(value: T)

  datatype Errno = ENAMETOOLONG | EIO | ENOSPC | EINVAL | ENOTEMPTY | EFBIG | ENOENT | ENOTDIR

  datatype Result<+T> = Ok(value: T) | Fail(errno: Errno)

  /** The state after an operation, and what it returned. */
  datatype Step<+T> = Step(fs: Fs, res: T)

  /** Takes a data block; RESERVED_DNO when the bitmap is full. Bit RESERVED_DNO
      itself exists on the largest devices and reads as a failure too. */
  function GetDblock(fs: Fs): Step<nat> {
    var k := Least(fs.dused, fs.sb.DataBits());
    Step(fs.(dused := Taken(fs.dused, fs.sb.DataBits())), if k < fs.sb.DataBits() then k else RESERVED_DNO)
  }

  /** Takes an inode number; RESERVED_INO when the bitmap is full. */
  function GetInode(fs: Fs): Step<nat> {
    var k := Least(fs.iused, fs.sb.InodeBits());
    Step(fs.(iused := Taken(fs.iused, fs.sb.InodeBits())), if k < fs.sb.InodeBits() then k else RESERVED_INO)
  }

  /** The slots of a new inode. */
  function NoBlocks(): (r: seq<nat>)
    ensures |r| == IBLOCKS && forall j :: 0 <= j < IBLOCKS ==> r[j] == RESERVED_DNO
  {
    seq(IBLOCKS, _ => RESERVED_DNO)
  }

  /** `yaf_new_inode`: a number beyond the inode table is taken and given back. */
  function NewInode(fs: Fs, kind: Kind): Step<Result<nat>>
    requires |fs.inodes| == fs.sb.Inodes()
  {
    var got := GetInode(fs);
    if got.res == RESERVED_INO then Step(got.fs, Fail(ENOSPC))
    else if got.res >= fs.sb.Inodes() then Step(got.fs.(iused := got.fs.iused - {got.res}), Fail(EINVAL))
    else Step(got.fs.(inodes := fs.inodes[got.res := Inode(kind, 1, 0, NoBlocks())]), Ok(got.res))
  }

  /** A block handed out is unused and in the bitmap; a failure means a full one. */
  lemma GetDblockFresh(fs: Fs)
    requires Shape(fs)
    ensures Shape(GetDblock(fs).fs) && Filled(fs.dused, GetDblock(fs).fs.dused)
    ensures GetDblock(fs).res != RESERVED_DNO ==>
      && GetDblock(fs).res < |fs.data| && GetDblock(fs).res !in fs.dused
      && GetDblock(fs).fs == fs.(dused := fs.dused + {GetDblock(fs).res})
    ensures GetDblock(fs).res == RESERVED_DNO ==>
      && GetDblock(fs).fs == fs.(dused := GetDblock(fs).fs.dused)
      && fs.dused <= GetDblock(fs).fs.dused <= fs.dused + {RESERVED_DNO}
      && (forall b: nat :: b < |fs.data| && b != RESERVED_DNO ==> b in fs.dused)
  {
  }

  /** Block numbers from here on are not handed out. */
  function DnoLimit(sb: Super): nat {
    if sb.DataBits() < RESERVED_DNO then sb.DataBits() else RESERVED_DNO
  }

  /** How many data blocks can still be handed out, on the device or past it. */
  ghost function Room(fs: Fs): int {
    ClearBelow(fs.dused, DnoLimit(fs.sb))
  }

  /** A block is handed out exactly while there is room, and uses up one. */
  lemma GetDblockRoom(fs: Fs)
    requires Shape(fs)
    ensures Room(fs) >= 0 && (GetDblock(fs).res == RESERVED_DNO <==> Room(fs) == 0)
    ensures Room(GetDblock(fs).fs) == if Room(fs) == 0 then 0 else Room(fs) - 1
  {
    ClearBelowTaken(fs.dused, fs.sb.DataBits(), DnoLimit(fs.sb));
  }

  /** Every used block lies in the data section, which ends the formatted part of
      the device. */
  ghost predicate OnDevice(fs: Fs) {
    fs.dused <= Segment(fs.sb.nrD)
  }

  /** How many blocks of the device are unused, while all used ones lie on it. */
  ghost function DeviceRoom(fs: Fs): int {
    fs.sb.nrD - |fs.dused|
  }

  /** The allocator knows nothing of the end of the device: the block it hands
      out lies on the device exactly while the device has an unused one. */
  lemma GetDblockOnDevice(fs: Fs)
    requires Shape(fs) && OnDevice(fs)
    ensures DeviceRoom(fs) >= 0
    ensures OnDevice(GetDblock(fs).fs) <==> DeviceRoom(fs) > 0
    ensures DeviceRoom(GetDblock(fs).fs) == DeviceRoom(fs) - 1
    ensures GetDblock(fs).res != RESERVED_DNO && (GetDblock(fs).res < fs.sb.nrD <==> DeviceRoom(fs) > 0)
  {
    hide Taken, Least;
    var n := fs.sb.DataBits();
    SubsetSize(fs.dused, Segment(fs.sb.nrD));
    StaysBelow(fs.dused, n, fs.sb.nrD);
    LeastAtMostUsed(fs.dused, n);
    TakeGiveBack(fs.dused, n);
    TakenIs(fs.dused, n);
  }

  lemma TakenIs(s: set<nat>, n: nat)
    requires Least(s, n) < n
    ensures Taken(s, n) == s + {Least(s, n)}
  {
  }

  /** On the device, what the bitmap has room for includes what the device has. */
  lemma DeviceRoomIsRoom(fs: Fs)
    requires Shape(fs) && OnDevice(fs)
    ensures DeviceRoom(fs) <= Room(fs)
  {
    assert fs.dused * Segment(DnoLimit(fs.sb)) == fs.dused;
  }

  lemma SameDevice(fs: Fs, fs': Fs)
    requires fs'.sb == fs.sb && fs'.dused == fs.dused
    ensures (OnDevice(fs') <==> OnDevice(fs)) && DeviceRoom(fs') == DeviceRoom(fs)
  {
  }

  lemma OffDevice(fs: Fs, fs': Fs)
    requires fs.dused <= fs'.dused && fs'.sb == fs.sb && OnDevice(fs')
    ensures OnDevice(fs)
  {
  }

  /** A new inode number is the least free one, neither the reserved nor the root
      one, and lies in the table; a failure leaves the whole state as it was and
      means that no number of the table was free. */
  lemma NewInodeFresh(fs: Fs, kind: Kind)
    requires Shape(fs)
    ensures var r := NewInode(fs, kind);
      && (r.res.Ok? ==>
            && r.res.value !in fs.iused && ROOT_INO < r.res.value < |fs.inodes|
            && (forall x: nat :: x < r.res.value ==> x in fs.iused)
            && r.fs == fs.(iused := fs.iused + {r.res.value},
                           inodes := fs.inodes[r.res.value := Inode(kind, 1, 0, NoBlocks())]))
      && (r.res.Fail? ==> r.fs == fs)
      && (r.res.Fail? <==> forall i: nat :: i < |fs.inodes| ==> i in fs.iused)
  {
  }
}
