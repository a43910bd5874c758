/** The driver: a mounted file system updated in place. Each method computes
    what the function of the same operation says. */
module Driver {
  import opened Layout
  import opened Bytes
  import opened FirstFit
  import opened Bitmaps
  import opened Dentries
  import opened Directory
  import opened State
  import opened Alloc
  import opened Slots
  import opened Creation
  import opened Deletion
  import opened FileData
  import opened Readdir

  class Yaf {
    const sb: Super
    const ibm: Bitmap
    const dbm: Bitmap
    /** The inode table, by inode number. */
    var inodes: seq<Inode>
    /** The data section, by data block number. */
    var data: seq<Block>

    ghost predicate Valid() {
      && ibm.Valid() && ibm.nblocks == sb.nrIbp
      && dbm.Valid() && dbm.nblocks == sb.nrDbp
      && ibm.buf != dbm.buf
    }

    ghost function Abs(): Fs
      reads this, ibm.buf, dbm.buf
    {
      Fs(sb, ibm.Used(), dbm.Used(), inodes, data)
    }

    /** A mounted file system over the bitmaps, inodes and data of a device. */
    constructor (sb: Super, ibits: seq<bv8>, dbits: seq<bv8>, inodes: seq<Inode>, data: seq<Block>)
      requires |ibits| == sb.nrIbp * BLOCK_SIZE && |dbits| == sb.nrDbp * BLOCK_SIZE
      ensures Valid() && fresh(ibm.buf) && fresh(dbm.buf)
      ensures Abs() == Fs(sb, UsedIn(ibits), UsedIn(dbits), inodes, data)
    {
      this.sb := sb;
      ibm := new Bitmap(ibits, sb.nrIbp);
      dbm := new Bitmap(dbits, sb.nrDbp);
      this.inodes := inodes;
      this.data := data;
    }

    lemma AbsFields()
      ensures Abs().inodes == inodes && Abs().data == data && Abs().sb == sb
    {
    }

    method GetFreeDblock() returns (dno: nat)
      requires Valid()
      modifies dbm.buf
      ensures Step(Abs(), dno) == GetDblock(old(Abs()))
    {
      dno := dbm.GetFree(RESERVED_DNO);
    }

    method GetFreeInode() returns (ino: nat)
      requires Valid()
      modifies ibm.buf
      ensures Step(Abs(), ino) == GetInode(old(Abs()))
    {
      ino := ibm.GetFree(RESERVED_INO);
    }

    method PutDblock(dno: nat)
      requires Valid() && dno in Abs().dused
      modifies dbm.buf
      ensures Abs() == old(Abs()).(dused := old(Abs()).dused - {dno})
    {
      dbm.PutBit(dno);
    }

    method PutInode(ino: nat)
      requires Valid() && ino in Abs().iused
      modifies ibm.buf
      ensures Abs() == old(Abs()).(iused := old(Abs()).iused - {ino})
    {
      ibm.PutBit(ino);
    }

    /** `yaf_new_inode`. */
    method MakeInode(kind: Kind) returns (r: Result<nat>)
      requires Valid() && Shape(Abs())
      modifies this`inodes, ibm.buf
      ensures Step(Abs(), r) == NewInode(old(Abs()), kind)
    {
      var ino := GetFreeInode();
      if ino == RESERVED_INO {
        return Fail(ENOSPC);
      }
      if ino >= sb.Inodes() {
        PutInode(ino);
        return Fail(EINVAL);
      }
      var slots: seq<nat> := [];
      for i := 0 to IBLOCKS
        invariant |slots| == i && forall j :: 0 <= j < i ==> slots[j] == RESERVED_DNO
      {
        slots := slots + [RESERVED_DNO];
      }
      assert slots == NoBlocks();
      inodes := inodes[ino := Inode(kind, 1, 0, slots)];
      return Ok(ino);
    }

    /** The scan of `yaf_get_free_dentry`: the offset of the first unused entry,
        or the directory's size. */
    method ScanUnused(dir: nat) returns (doff: nat)
      requires Valid() && Shape(Abs()) && Ownership(Abs()) && IsDir(Abs(), dir)
      ensures doff == FirstDead(EntriesOf(data, inodes[dir])) * DENTRY_SIZE <= inodes[dir].size
    {
      hide Ownership, Shape, EntriesOf, DentryAt, FirstDead, Abs;
      ghost var fs := Abs();
      assert fs.inodes == inodes && fs.data == data by { AbsFields(); }
      ghost var es := EntriesOf(data, inodes[dir]);
      var n := inodes[dir];
      DirSize(fs, dir);
      doff := 0;
      ghost var k := 0;
      while doff < n.size
        invariant doff <= n.size && (doff % BLOCK_SIZE == 0 || doff == n.size) && doff == k * DENTRY_SIZE
        invariant forall j :: 0 <= j < k ==> es[j].Live()
      {
        BlockReady(fs, dir, doff);
        ghost var base := doff;
        var bh := data[n.slots[doff / BLOCK_SIZE]];
        var i := 0;
        while i < DENTRYS_PER_BLOCK && doff < n.size
          invariant i <= DENTRYS_PER_BLOCK && doff == base + i * DENTRY_SIZE == k * DENTRY_SIZE <= n.size
          invariant forall j :: 0 <= j < k ==> es[j].Live()
          decreases DENTRYS_PER_BLOCK - i
        {
          ScanStep(data, n, base, i, k);
          if DentryAt(bh, i).ino == RESERVED_INO {
            FirstDeadIs(es, k);
            return;
          }
          i := i + 1;
          k := k + 1;
          doff := doff + DENTRY_SIZE;
        }
      }
      FirstDeadIs(es, |es|);
    }

    /** `yaf_get_free_dentry`: the byte offset of an unused entry. */
    method GetFreeDentry(dir: nat) returns (r: Result<nat>)
      requires Valid() && Shape(Abs()) && Ownership(Abs()) && IsDir(Abs(), dir)
      modifies this`inodes, this`data, dbm.buf
      ensures Abs() == FreeDentry(old(Abs()), dir).fs
      ensures r == match FreeDentry(old(Abs()), dir).res
                   case Ok(k) => Ok(k * DENTRY_SIZE)
                   case Fail(e) => Fail(e)
    {
      hide Ownership, EntriesOf, PutIno, Mapped, Blocks, UsedIn, FirstDead, Least, Taken;
      var n := inodes[dir];
      DirSize(Abs(), dir);
      var doff := ScanUnused(dir);
      hide Shape;
      if doff < n.size {
        return Ok(doff);
      }
      if n.size / DENTRY_SIZE == MAX_DENTRYS {
        return Fail(ENOSPC);
      }
      RoomForDentry(Abs(), dir);
      var slots := n.slots;
      if n.size % BLOCK_SIZE == 0 {
        var dno := GetFreeDblock();
        if dno == RESERVED_DNO {
          return Fail(ENOSPC);
        }
        assert slots[doff / BLOCK_SIZE] == RESERVED_DNO;
        slots := slots[doff / BLOCK_SIZE := dno];
      }
      var b := slots[doff / BLOCK_SIZE];
      data := data[b := PutIno(data[b], doff % BLOCK_SIZE / DENTRY_SIZE, RESERVED_INO)];
      inodes := inodes[dir := n.(slots := slots, size := doff + DENTRY_SIZE)];
      return Ok(doff);
    }

    /** `_yaf_create`. */
    method CreateEntry(dir: nat, name: Name, kind: Kind) returns (r: Result<nat>)
      requires Valid() && Inv(Abs()) && IsDir(Abs(), dir)
      modifies this`inodes, this`data, ibm.buf, dbm.buf
      ensures Step(Abs(), r) == Create(old(Abs()), dir, name, kind)
    {
      hide Inv, Ownership, EntriesOf, UsedIn, FreeDentry, NewInode, PutDentry, Strncpy, Shape, SlotFound, IsDir;
      InvOwnership(Abs());
      if |name| > NAME_LEN {
        return Fail(ENAMETOOLONG);
      }
      SlotThenInode(Abs(), dir, kind);
      FreeDentrySlot(Abs(), dir);
      ghost var found := FreeDentry(Abs(), dir);
      var slot := GetFreeDentry(dir);
      if slot.Fail? {
        return Fail(EIO);
      }
      assert Shape(Abs()) by {
        SlotShape(old(Abs()), found.fs, dir, found.res.value);
      }
      var doff := slot.value;
      var node := MakeInode(kind);
      if node.Fail? {
        return node;
      }
      var ino := node.value;
      assert doff / DENTRY_SIZE / DENTRYS_PER_BLOCK == doff / BLOCK_SIZE
             && doff / DENTRY_SIZE % DENTRYS_PER_BLOCK == doff % BLOCK_SIZE / DENTRY_SIZE;
      var b := inodes[dir].slots[doff / BLOCK_SIZE];
      var yd := Dentry(ino, |name|, Strncpy(name, NAME_LEN));
      data := data[b := PutDentry(data[b], doff % BLOCK_SIZE / DENTRY_SIZE, yd)];
      inodes := inodes[dir := AddLink(inodes[dir])];
      return Ok(ino);
    }

    /** `_yaf_lookup`: the offset of the live entry with this name. */
    method LookupOffset(dir: nat, name: Name) returns (r: Result<nat>)
      requires Valid() && Shape(Abs()) && Ownership(Abs()) && IsDir(Abs(), dir)
      ensures r == if !Fits(name) then Fail(ENAMETOOLONG)
                   else var es := EntriesOf(data, inodes[dir]);
                        if Find(es, name) < |es| then Ok(Find(es, name) * DENTRY_SIZE) else Fail(ENOENT)
    {
      hide Ownership, Shape, EntriesOf, DentryAt, Find, Abs, StrncmpZero;
      if |name| > NAME_LEN {
        return Fail(ENAMETOOLONG);
      }
      ghost var fs := Abs();
      assert fs.inodes == inodes && fs.data == data by { AbsFields(); }
      ghost var es := EntriesOf(data, inodes[dir]);
      var n := inodes[dir];
      DirSize(fs, dir);
      var doff := 0;
      ghost var k := 0;
      while doff < n.size
        invariant doff <= n.size && (doff % BLOCK_SIZE == 0 || doff == n.size) && doff == k * DENTRY_SIZE
        invariant forall j :: 0 <= j < k ==> !(es[j].Live() && es[j].Matches(name))
      {
        BlockReady(fs, dir, doff);
        ghost var base := doff;
        var bh := data[n.slots[doff / BLOCK_SIZE]];
        var i := 0;
        while i < DENTRYS_PER_BLOCK && doff < n.size
          invariant i <= DENTRYS_PER_BLOCK && doff == base + i * DENTRY_SIZE == k * DENTRY_SIZE <= n.size
          invariant forall j :: 0 <= j < k ==> !(es[j].Live() && es[j].Matches(name))
          decreases DENTRYS_PER_BLOCK - i
        {
          ScanStep(data, n, base, i, k);
          var yd := DentryAt(bh, i);
          if yd.ino != RESERVED_INO && StrncmpZero(yd.name, name, NAME_LEN) {
            FindIs(es, name, k);
            return Ok(doff);
          }
          i := i + 1;
          k := k + 1;
          doff := doff + DENTRY_SIZE;
        }
      }
      FindIs(es, name, |es|);
      return Fail(ENOENT);
    }

    /** `yaf_lookup`. */
    method LookupName(dir: nat, name: Name) returns (r: Result<Option<nat>>)
      requires Valid() && Shape(Abs()) && Ownership(Abs()) && IsDir(Abs(), dir)
      ensures r == Lookup(Abs(), dir, name)
    {
      hide Ownership, EntriesOf, DentryAt, Find;
      DirSize(Abs(), dir);
      var at := LookupOffset(dir, name);
      if at == Fail(ENOENT) {
        return Ok(None);
      }
      if at.Fail? {
        return Fail(at.errno);
      }
      var doff := at.value;
      BlockReady(Abs(), dir, doff);
      ScanStep(data, inodes[dir], doff / BLOCK_SIZE * BLOCK_SIZE, doff % BLOCK_SIZE / DENTRY_SIZE, doff / DENTRY_SIZE);
      var yd := DentryAt(data[inodes[dir].slots[doff / BLOCK_SIZE]], doff % BLOCK_SIZE / DENTRY_SIZE);
      if yd.ino >= sb.Inodes() {
        return Fail(EINVAL);
      }
      return Ok(Some(yd.ino));
    }

    /** `yaf_delete`. The lookup assertion and, in the freeing loop, the one in
        PutDblock hold. */
    method DeleteEntry(dir: nat, name: Name, ino: nat) returns (r: Result<()>)
      requires Valid() && Inv(Abs()) && IsNamed(Abs(), dir, name, ino)
      modifies this`inodes, this`data, ibm.buf, dbm.buf
      ensures Step(Abs(), r) == Delete(old(Abs()), dir, name, ino)
    {
      hide Inv, Ownership, EntriesOf, UsedIn, PutIno, Shape, Find, IsNamed, Mapped, Blocks;
      InvOwnership(Abs());
      NamedEntry(Abs(), dir, name, ino);
      DeletedBlocks(Abs(), dir, name, ino);
      var at := LookupOffset(dir, name);
      assert at.Ok?;
      var doff := at.value;
      assert doff / DENTRY_SIZE / DENTRYS_PER_BLOCK == doff / BLOCK_SIZE
             && doff / DENTRY_SIZE % DENTRYS_PER_BLOCK == doff % BLOCK_SIZE / DENTRY_SIZE;
      var b := inodes[dir].slots[doff / BLOCK_SIZE];
      data := data[b := PutIno(data[b], doff % BLOCK_SIZE / DENTRY_SIZE, RESERVED_INO)];
      inodes := inodes[dir := DropLink(inodes[dir])];
      inodes := inodes[ino := DropLink(inodes[ino])];
      if inodes[ino].nlink > 1 {
        return Ok(());
      }
      FreeBlocks(ino);
      PutInode(ino);
      return Ok(());
    }

    /** The loop of `yaf_delete` that frees a file's blocks by its size. */
    method FreeBlocks(ino: nat)
      requires Valid() && ino < |inodes| && FreeableBlocks(Abs(), inodes[ino])
      modifies dbm.buf
      ensures Abs() == old(Abs()).(dused := old(Abs()).dused - SizedBlocks(inodes[ino]))
    {
      hide UsedIn;
      var n := inodes[ino];
      var doff := 0;
      while doff < n.size
        invariant doff % BLOCK_SIZE == 0 && doff / BLOCK_SIZE <= BlockCount(n.size)
        invariant Abs() == old(Abs()).(dused := old(Abs()).dused - ToSet(n.slots[..doff / BLOCK_SIZE]))
      {
        var i := doff / BLOCK_SIZE;
        PutDblock(n.slots[i]);
        assert n.slots[..i + 1] == n.slots[..i] + [n.slots[i]];
        doff := doff + BLOCK_SIZE;
      }
      assert doff / BLOCK_SIZE == BlockCount(n.size);
    }

    /** `yaf_rmdir`. */
    method RemoveDirectory(dir: nat, name: Name, ino: nat) returns (r: Result<()>)
      requires Valid() && Inv(Abs()) && IsNamed(Abs(), dir, name, ino)
      modifies this`inodes, this`data, ibm.buf, dbm.buf
      ensures Step(Abs(), r) == Rmdir(old(Abs()), dir, name, ino)
    {
      if inodes[ino].nlink > 1 {
        return Fail(ENOTEMPTY);
      }
      r := DeleteEntry(dir, name, ino);
    }

    /** `yaf_unlink`. */
    method RemoveFile(dir: nat, name: Name, ino: nat) returns (r: Result<()>)
      requires Valid() && Inv(Abs()) && IsNamed(Abs(), dir, name, ino)
      modifies this`inodes, this`data, ibm.buf, dbm.buf
      ensures Step(Abs(), r) == Unlink(old(Abs()), dir, name, ino)
    {
      r := DeleteEntry(dir, name, ino);
    }

    /** `yaf_get_block`. */
    method GetBlock(ino: nat, iblock: nat, create: bool) returns (r: Result<Option<nat>>)
      requires Valid() && ino < |inodes| && |inodes[ino].slots| == IBLOCKS
      modifies this`inodes, dbm.buf
      ensures Step(Abs(), r) == MapBlock(old(Abs()), ino, iblock, create)
    {
      hide UsedIn, Least, Taken;
      if iblock >= IBLOCKS {
        return Fail(EFBIG);
      }
      var dbnr := 0;
      while dbnr < IBLOCKS && inodes[ino].slots[dbnr] != RESERVED_DNO
        invariant dbnr <= IBLOCKS
        invariant forall j :: 0 <= j < dbnr ==> inodes[ino].slots[j] != RESERVED_DNO
      {
        dbnr := dbnr + 1;
      }
      MappedIs(inodes[ino].slots, dbnr);
      if iblock >= dbnr {
        if !create {
          return Ok(None);
        }
        while dbnr <= iblock
          invariant Valid() && |inodes| == |old(inodes)| && |inodes[ino].slots| == IBLOCKS && dbnr <= iblock + 1
          invariant Extend(Abs(), ino, dbnr, iblock + 1) ==
                    Extend(old(Abs()), ino, Mapped(old(inodes)[ino].slots), iblock + 1)
        {
          var dno := GetFreeDblock();
          if dno == RESERVED_DNO {
            return Fail(ENOSPC);
          }
          var n := inodes[ino];
          inodes := inodes[ino := n.(slots := n.slots[dbnr := dno])];
          dbnr := dbnr + 1;
        }
      }
      return Ok(Some(inodes[ino].slots[iblock]));
    }

    /** One page of a write: the size check, the mapping, the copy and the new size. */
    method WriteOnePage(ino: nat, pos: nat, s: seq<byte>) returns (r: Result<nat>)
      requires Valid() && Inv(Abs()) && IsFile(Abs(), ino) && pos % BLOCK_SIZE + |s| <= BLOCK_SIZE
      modifies this`inodes, this`data, dbm.buf
      ensures Step(Abs(), r) == WritePage(old(Abs()), ino, pos, s)
    {
      hide Inv, UsedIn, MapBlock, Splice;
      if pos + |s| > MAX_FILESIZE {
        return Fail(ENOSPC);
      }
      FileSlots(Abs(), ino);
      MapBlockReady(Abs(), ino, pos / BLOCK_SIZE);
      var bh := GetBlock(ino, pos / BLOCK_SIZE, true);
      if bh.Fail? {
        return Fail(bh.errno);
      }
      var b := bh.value.value;
      data := data[b := Splice(data[b], pos % BLOCK_SIZE, s)];
      if pos + |s| > inodes[ino].size {
        inodes := inodes[ino := inodes[ino].(size := pos + |s|)];
      }
      return Ok(|s|);
    }

    /** The page loop of a write. */
    method WriteAt(ino: nat, pos: nat, s: seq<byte>) returns (r: Result<nat>)
      requires Valid() && Inv(Abs()) && IsFile(Abs(), ino)
      modifies this`inodes, this`data, dbm.buf
      ensures Step(Abs(), r) == Write(old(Abs()), ino, pos, s)
    {
      hide Inv, UsedIn, WritePage, IsFile, Write, Abs;
      var written := 0;
      while written < |s|
        invariant Valid() && written <= |s| && Inv(Abs()) && IsFile(Abs(), ino)
        invariant Write(old(Abs()), ino, pos, s) ==
                  Resumed(written, Write(Abs(), ino, pos + written, s[written..]))
      {
        var at := pos + written;
        var rest := s[written..];
        var n := FirstPage(at, rest);
        WriteUnfolds(Abs(), ino, at, rest, n);
        var page := WriteOnePage(ino, at, rest[..n]);
        if page.Fail? {
          return if written > 0 then Ok(written) else page;
        }
        assert rest[n..] == s[written + n..];
        written := written + n;
      }
      NothingToWrite(Abs(), ino, pos + written);
      assert s[written..] == [];
      return Ok(written);
    }

    /** `yaf_iterate_shared` after the dots; every emit is accepted. */
    method Iterate(dir: nat, ctxPos: nat) returns (r: Result<Listing>)
      requires Valid() && Shape(Abs()) && Ownership(Abs()) && dir in LiveInodes(Abs())
      ensures r == ListFrom(Abs(), dir, ctxPos)
    {
      hide Ownership, Shape, EntriesOf, DentryAt, Abs, Scanned, StartsLaterBlock;
      ghost var fs := Abs();
      assert fs.inodes == inodes && fs.data == data && dir < |inodes| by { IterateReady(dir); }
      var n := inodes[dir];
      if n.kind != Dir {
        return Fail(ENOTDIR);
      }
      DirSize(fs, dir);
      ghost var es := EntriesOf(data, n);
      var doff := if ctxPos <= 2 then 0 else ctxPos - 2;
      if doff % DENTRY_SIZE != 0 {
        return Fail(ENOENT);
      }
      ghost var k0 := doff / DENTRY_SIZE;
      NothingScanned(es, k0, if k0 < |es| then k0 else |es|);
      var out: seq<Emit> := [];
      while doff < n.size
        invariant doff % DENTRY_SIZE == 0
        invariant doff / DENTRY_SIZE == k0 || StartsLaterBlock(k0, doff) || doff == n.size
        invariant if doff <= n.size then out == Scanned(es, k0, doff / DENTRY_SIZE)
                  else doff / DENTRY_SIZE == k0 && out == []
      {
        BlockReady(fs, dir, doff);
        ghost var from := doff;
        var bh := data[n.slots[doff / BLOCK_SIZE]];
        var i := doff % BLOCK_SIZE / DENTRY_SIZE;
        var yd := 0;
        while i < DENTRYS_PER_BLOCK && doff < n.size
          invariant i <= DENTRYS_PER_BLOCK && doff == from + yd * DENTRY_SIZE <= n.size
          invariant i == from % BLOCK_SIZE / DENTRY_SIZE + yd && doff % DENTRY_SIZE == 0
          invariant out == Scanned(es, k0, doff / DENTRY_SIZE)
          decreases DENTRYS_PER_BLOCK - i
        {
          ReadStep(data, n, k0, from, yd);
          var d := DentryAt(bh, yd);
          if d.ino != RESERVED_INO {
            out := out + [Emit(d.Emitted(), d.ino)];
          }
          i := i + 1;
          yd := yd + 1;
          doff := doff + DENTRY_SIZE;
        }
        assert doff == n.size || StartsLaterBlock(k0, doff) by {
          if i == DENTRYS_PER_BLOCK {
            BlockEnd(k0, from, yd);
          }
        }
      }
      return Ok(Listing(out, doff + 2));
    }

    lemma IterateReady(dir: nat)
      requires Shape(Abs()) && dir in LiveInodes(Abs())
      ensures Abs().inodes == inodes && Abs().data == data && dir < |inodes|
    {
    }
  }

  ghost predicate StartsLaterBlock(k0: nat, doff: nat) {
    doff % BLOCK_SIZE == 0 && doff / BLOCK_SIZE > k0 / DENTRYS_PER_BLOCK
  }

  lemma NothingScanned(es: Entries, k0: nat, k: nat)
    requires k <= k0 && k <= |es|
    ensures Scanned(es, k0, k) == []
  {
  }

  /** After a whole block the scan is at the start of a later one. */
  lemma BlockEnd(k0: nat, from: nat, yd: nat)
    requires from % DENTRY_SIZE == 0 && from % BLOCK_SIZE / DENTRY_SIZE + yd == DENTRYS_PER_BLOCK
    requires from / DENTRY_SIZE == k0 || StartsLaterBlock(k0, from)
    ensures StartsLaterBlock(k0, from + yd * DENTRY_SIZE)
  {
    var q, r := from / BLOCK_SIZE, from % BLOCK_SIZE;
    assert from == q * BLOCK_SIZE + r && r % DENTRY_SIZE == 0;
    assert r + yd * DENTRY_SIZE == BLOCK_SIZE;
    assert from + yd * DENTRY_SIZE == (q + 1) * BLOCK_SIZE;
  }

  /** The record read after yd steps from offset `from` is the scanned entry. */
  lemma ReadStep(data: seq<Block>, n: Inode, k0: nat, from: nat, yd: nat)
    requires from % DENTRY_SIZE == 0 && from % BLOCK_SIZE / DENTRY_SIZE + yd < DENTRYS_PER_BLOCK
    requires from / DENTRY_SIZE == k0 || StartsLaterBlock(k0, from)
    requires from + yd * DENTRY_SIZE < n.size && n.size % DENTRY_SIZE == 0
    requires from / BLOCK_SIZE < |n.slots| && n.slots[from / BLOCK_SIZE] < |data|
    requires |data[n.slots[from / BLOCK_SIZE]]| == BLOCK_SIZE
    ensures var k := (from + yd * DENTRY_SIZE) / DENTRY_SIZE;
            var es := EntriesOf(data, n);
      && k < |es| && (from + yd * DENTRY_SIZE + DENTRY_SIZE) / DENTRY_SIZE == k + 1
      && from + yd * DENTRY_SIZE + DENTRY_SIZE <= n.size
      && Scanned(es, k0, k + 1) ==
         Scanned(es, k0, k) + EmitOf(DentryAt(data[n.slots[from / BLOCK_SIZE]], yd))
  {
    var k := (from + yd * DENTRY_SIZE) / DENTRY_SIZE;
    assert from == from / BLOCK_SIZE * BLOCK_SIZE + from % BLOCK_SIZE;
    assert k == from / DENTRY_SIZE + yd;
    assert k / DENTRYS_PER_BLOCK == from / BLOCK_SIZE;
    var j := ReadIndex(k0, k);
    assert j / DENTRYS_PER_BLOCK == from / BLOCK_SIZE && j % DENTRYS_PER_BLOCK == yd;
    assert EntriesOf(data, n)[j] == EntryOf(data, n.slots, j);
  }

  /** The result of a write of which `written` bytes were stored before. */
  function Resumed(written: nat, rest: Step<Result<nat>>): Step<Result<nat>> {
    if written == 0 then rest
    else Step(rest.fs, Ok(written + if rest.res.Ok? then rest.res.value else 0))
  }

  /** One turn of the page loop. */
  lemma WriteUnfolds(fs: Fs, ino: nat, pos: nat, s: seq<byte>, n: nat)
    requires Inv(fs) && IsFile(fs, ino) && s != []
    requires n == FirstPage(pos, s)
    ensures var page := WritePage(fs, ino, pos, s[..n]);
      if page.res.Fail? then Write(fs, ino, pos, s) == page
      else page.res == Ok(n) && Inv(page.fs) && IsFile(page.fs, ino)
           && Write(fs, ino, pos, s) == Resumed(n, Write(page.fs, ino, pos + n, s[n..]))
  {
    hide Inv, WritePage, Stored, Extended, IsFile;
    WritePageStores(fs, ino, pos, s[..n]);
    var page := WritePage(fs, ino, pos, s[..n]);
    if page.res.Ok? {
      StoredInv(fs, page.fs, ino, pos, s[..n]);
    }
  }

  lemma NothingToWrite(fs: Fs, ino: nat, pos: nat)
    requires Inv(fs) && IsFile(fs, ino)
    ensures Write(fs, ino, pos, []) == Step(fs, Ok(0))
  {
  }

  /** The blocks the freeing loop visits are distinct, used and within the slots. */
  ghost predicate FreeableBlocks(fs: Fs, n: Inode) {
    && BlockCount(n.size) <= |n.slots|
    && (forall i :: 0 <= i < BlockCount(n.size) ==> n.slots[i] in fs.dused)
    && (forall i, j :: 0 <= i < j < BlockCount(n.size) ==> n.slots[i] != n.slots[j])
  }

  lemma DeletedBlocks(fs: Fs, dir: nat, name: Name, ino: nat)
    requires Inv(fs) && IsNamed(fs, dir, name, ino)
    ensures FreeableBlocks(fs, fs.inodes[ino]) && ino in fs.iused
  {
    hide Links, DirsOf, Maps;
    NamedEntry(fs, dir, name, ino);
    assert InodeOk(fs.inodes[ino]);
    assert Blocks(fs.inodes[ino].slots) <= fs.dused;
  }

  lemma SlotShape(fs: Fs, fs': Fs, dir: nat, k: nat)
    requires SlotFound(fs, fs', dir, k)
    ensures Shape(fs')
  {
  }

  lemma FindIs(es: Entries, n: Name, k: nat)
    requires k <= |es| && (k < |es| ==> es[k].Live() && es[k].Matches(n))
    requires forall j :: 0 <= j < k ==> !(es[j].Live() && es[j].Matches(n))
    ensures Find(es, n) == k
  {
  }

  /** Record i of the block at offset base is entry k, which the scan has reached. */
  lemma ScanStep(data: seq<Block>, n: Inode, base: nat, i: nat, k: nat)
    requires base % BLOCK_SIZE == 0 && i < DENTRYS_PER_BLOCK && base + i * DENTRY_SIZE == k * DENTRY_SIZE < n.size
    requires base / BLOCK_SIZE < |n.slots| && n.slots[base / BLOCK_SIZE] < |data|
    requires |data[n.slots[base / BLOCK_SIZE]]| == BLOCK_SIZE
    requires n.size % DENTRY_SIZE == 0
    ensures k < |EntriesOf(data, n)|
    ensures EntriesOf(data, n)[k] == DentryAt(data[n.slots[base / BLOCK_SIZE]], i)
    ensures k * DENTRY_SIZE + DENTRY_SIZE <= n.size
  {
    hide DentryAt;
    SlotOf(base, i, k);
  }

  lemma SlotOf(base: nat, i: nat, k: nat)
    requires base % BLOCK_SIZE == 0 && i < DENTRYS_PER_BLOCK && base + i * DENTRY_SIZE == k * DENTRY_SIZE
    ensures k / DENTRYS_PER_BLOCK == base / BLOCK_SIZE && k % DENTRYS_PER_BLOCK == i
  {
  }

  /** The block at offset doff of a directory can be read. */
  lemma BlockReady(fs: Fs, dir: nat, doff: nat)
    requires Shape(fs) && Ownership(fs) && IsDir(fs, dir) && doff < fs.inodes[dir].size
    ensures doff / BLOCK_SIZE < |fs.inodes[dir].slots|
    ensures var b := fs.inodes[dir].slots[doff / BLOCK_SIZE]; b < |fs.data| && |fs.data[b]| == BLOCK_SIZE
  {
  }

  lemma FirstDeadIs(es: Entries, k: nat)
    requires k <= |es| && (k < |es| ==> !es[k].Live()) && forall j :: 0 <= j < k ==> es[j].Live()
    ensures FirstDead(es) == k
  {
  }
}
