/** Creating a file or a directory. */
module Creation {
  import opened Layout
  import opened Bytes
  import opened FirstFit
  import opened Dentries
  import opened Directory
  import opened Namespace
  import opened State
  import opened Alloc
  import opened Slots

  function AddLink(n: Inode): Inode {
    n.(nlink := n.nlink + 1)
  }

  /** Entry k of dir filled in, and the link count of dir raised. */
  function FillDentry(fs: Fs, dir: nat, k: nat, d: Dentry): Fs
    requires HasEntry(fs, dir, k) && |d.name| == NAME_LEN
  {
    var b := BlockOf(fs.inodes[dir], k);
    Rewrite(fs, fs.dused, dir, AddLink(fs.inodes[dir]), b, PutDentry(fs.data[b], k % DENTRYS_PER_BLOCK, d))
  }

  /** `_yaf_create`; the new inode's number on success. */
  function Create(fs: Fs, dir: nat, name: Name, kind: Kind): Step<Result<nat>>
    requires Inv(fs) && IsDir(fs, dir)
  {
    if !Fits(name) then Step(fs, Fail(ENAMETOOLONG))
    else
      SlotThenInode(fs, dir, kind);
      var slot := FreeDentry(fs, dir);
      match slot.res
      case Fail(_) => Step(slot.fs, Fail(EIO))
      case Ok(k) => CreateAt(slot.fs, dir, k, name, kind)
  }

  /** The part of `_yaf_create` after a slot is found. */
  function CreateAt(fs: Fs, dir: nat, k: nat, name: Name, kind: Kind): Step<Result<nat>>
    requires Fits(name) && |fs.inodes| == fs.sb.Inodes()
    requires NewInode(fs, kind).res.Ok? ==> HasEntry(NewInode(fs, kind).fs, dir, k)
  {
    var node := NewInode(fs, kind);
    match node.res
    case Fail(e) => Step(node.fs, Fail(e))
    case Ok(ino) => Step(FillDentry(node.fs, dir, k, NewDentry(name, ino)), Ok(ino))
  }

  /** Taking an inode leaves the slot that was found in place. */
  lemma SlotThenInode(fs: Fs, dir: nat, kind: Kind)
    requires Inv(fs) && IsDir(fs, dir)
    ensures var slot := FreeDentry(fs, dir);
      slot.res.Ok? ==>
        && |slot.fs.inodes| == slot.fs.sb.Inodes()
        && var node := NewInode(slot.fs, kind);
           node.res.Ok? ==> HasEntry(node.fs, dir, slot.res.value)
  {
    hide Links, IsTree, Ownership, OnlyInode, EntriesOf, DirsOf;
    FreeDentrySlot(fs, dir);
    var slot := FreeDentry(fs, dir);
    if slot.res.Ok? {
      NewInodeFresh(slot.fs, kind);
    }
  }

  /** A new inode owns nothing and, as a directory, is empty. */
  lemma NewInodeEffect(fs: Fs, kind: Kind, ino: nat)
    requires Shape(fs) && Ownership(fs) && Links(fs) && kind != Other
    requires NewInode(fs, kind).res == Ok(ino)
    ensures var fs' := NewInode(fs, kind).fs;
      && OnlyInode(fs, fs', ino) && Ownership(fs') && Links(fs')
      && LiveInodes(fs') == LiveInodes(fs) + {ino} && ino !in LiveInodes(fs)
      && DirsOf(fs') == if kind == Dir then DirsOf(fs)[ino := []] else DirsOf(fs)
  {
    hide Links, Ownership, EntriesOf, DirsOf;
    NewInodeFresh(fs, kind);
    var fs' := NewInode(fs, kind).fs;
    MappedIs(NoBlocks(), 0);
    assert Blocks(NoBlocks()) == {};
    assert OnlyInode(fs, fs', ino);
    assert InodeOk(fs'.inodes[ino]);
    OwnershipStep(fs, fs', ino);
    DirsStep(fs, fs', ino);
    LinksStep(fs, fs', ino);
  }

  lemma NewRecord(blk: Block, i: nat, d: Dentry)
    requires |blk| == BLOCK_SIZE && i < DENTRYS_PER_BLOCK && d.Storable()
    ensures forall r :: 0 <= r < DENTRYS_PER_BLOCK ==>
      DentryAt(PutDentry(blk, i, d), r) == if r == i then d else DentryAt(blk, r)
  {
    forall r | 0 <= r < DENTRYS_PER_BLOCK
      ensures DentryAt(PutDentry(blk, i, d), r) == if r == i then d else DentryAt(blk, r)
    {
      PutDentryAt(blk, i, d, r);
    }
  }

  lemma FillTouches(fs: Fs, dir: nat, k: nat, n: Inode, blk: Block)
    requires Shape(fs) && Ownership(fs) && IsDir(fs, dir) && k < |EntriesOf(fs.data, fs.inodes[dir])|
    requires |blk| == BLOCK_SIZE && n == fs.inodes[dir].(nlink := n.nlink) && HasEntry(fs, dir, k)
    ensures var fs' := Rewrite(fs, fs.dused, dir, n, BlockOf(fs.inodes[dir], k), blk);
            OnlyInode(fs, fs', dir) && Ownership(fs') && IsDir(fs', dir) && LiveInodes(fs') == LiveInodes(fs)
  {
    hide OnlyInode, EntriesOf, Mapped;
    assert InodeOk(fs.inodes[dir]) && InodeOk(n);
    EntryInBlock(fs, dir, k);
    RewriteTouches(fs, fs.dused, dir, n, BlockOf(fs.inodes[dir], k), blk);
  }

  /** Filling an unused entry sets that entry and adds the link it stands for. */
  lemma FillEffect(fs: Fs, dir: nat, k: nat, d: Dentry)
    requires Shape(fs) && Ownership(fs) && Links(fs) && IsDir(fs, dir)
    requires var es := EntriesOf(fs.data, fs.inodes[dir]); k < |es| && !es[k].Live()
    requires HasEntry(fs, dir, k) && d.Live() && d.Storable()
    ensures var fs' := FillDentry(fs, dir, k, d);
      && OnlyInode(fs, fs', dir) && Ownership(fs') && Links(fs') && LiveInodes(fs') == LiveInodes(fs)
      && DirsOf(fs') == DirsOf(fs)[dir := EntriesOf(fs.data, fs.inodes[dir])[k := d]]
  {
    hide OnlyInode, Ownership, Links, EntriesOf, DirsOf, PutDentry, InodeOk;
    var es := EntriesOf(fs.data, fs.inodes[dir]);
    var fs' := FillDentry(fs, dir, k, d);
    var blk := PutDentry(fs.data[BlockOf(fs.inodes[dir], k)], k % DENTRYS_PER_BLOCK, d);
    FillTouches(fs, dir, k, AddLink(fs.inodes[dir]), blk);
    NewRecord(fs.data[BlockOf(fs.inodes[dir], k)], k % DENTRYS_PER_BLOCK, d);
    EntriesRewritten(fs, dir, k, blk, d);
    NlinkIrrelevant(fs'.data, fs'.inodes[dir], fs.inodes[dir]);
    DirsStep(fs, fs', dir);
    CountUpdate(es, k, d);
    LinksAt(fs, dir);
    LinksStep(fs, fs', dir);
  }

  lemma NlinkIrrelevant(data: seq<Block>, m: Inode, n: Inode)
    requires m.slots == n.slots && m.size == n.size
    ensures EntriesOf(data, m) == EntriesOf(data, n)
  {
  }

  /** What a successful create does: entry k of dir becomes the new name. */
  lemma CreateEffect(fs1: Fs, dir: nat, k: nat, name: Name, kind: Kind, ino: nat)
    requires Inv(fs1) && IsDir(fs1, dir) && HasEntry(fs1, dir, k) && kind != Other
    requires NulFree(name) && Fits(name) && NewInode(fs1, kind).res == Ok(ino)
    requires var es := DirsOf(fs1)[dir];
      k < |es| && !es[k].Live() && name !in NameMap(es)
    ensures HasEntry(NewInode(fs1, kind).fs, dir, k)
    ensures var fs' := FillDentry(NewInode(fs1, kind).fs, dir, k, NewDentry(name, ino));
      && Inv(fs') && ino !in LiveInodes(fs1) && LiveInodes(fs') == LiveInodes(fs1) + {ino} && fs'.dused == fs1.dused
      && DirsOf(fs') == Grafted(DirsOf(fs1), dir, k, NewDentry(name, ino), kind == Dir)
      && fs'.sb == fs1.sb
  {
    hide Links, IsTree, Ownership, EntriesOf, DirsOf, PutDentry, InodeOk, OnlyInode, NamesOk;
    NewInodeFresh(fs1, kind);
    NewInodeEffect(fs1, kind, ino);
    var fs2 := NewInode(fs1, kind).fs;
    DirsAt(fs1, dir);
    DirsAt(fs2, dir);
    var d := NewDentry(name, ino);
    assert d.Live() && d.Storable();
    FillEffect(fs2, dir, k, d);
    var fs' := FillDentry(fs2, dir, k, d);
    assert DirsOf(fs') == Grafted(DirsOf(fs1), dir, k, d, kind == Dir);
    GraftKeepsTree(DirsOf(fs1), LiveInodes(fs1), dir, k, d, kind == Dir);
    assert Shape(fs') by {
      assert OnlyInode(fs2, fs', dir);
    }
  }

  /** No name, live inode, link count or kind differs. */
  ghost predicate SameTree(fs: Fs, fs': Fs)
    requires Inv(fs) && Inv(fs')
  {
    && Maps(fs') == Maps(fs)
    && fs'.iused == fs.iused
    && (forall i :: i in LiveInodes(fs) ==>
          fs'.inodes[i].nlink == fs.inodes[i].nlink && fs'.inodes[i].kind == fs.inodes[i].kind)
  }

  /** Finding a slot shows nothing to the user. */
  lemma SlotFoundSameTree(fs: Fs, fs': Fs, dir: nat, k: nat)
    requires Inv(fs) && IsDir(fs, dir) && SlotFound(fs, fs', dir, k)
    ensures SameTree(fs, fs')
    ensures NameMap(DirsOf(fs')[dir]) == Maps(fs)[dir]
  {
    hide Ownership, IsTree, InodeOk, EntriesOf, DirsOf, NamesOk, NameMap, Blocks, HasEntry, Maps;
    var es, es' := DirsOf(fs)[dir], DirsOf(fs')[dir];
    InvGoodNames(fs);
    assert NamesOk(es') && NameMap(es') == NameMap(es) && LiveCount(es') == LiveCount(es) by {
      if es' != es {
        DeadAppended(es, es'[k]);
      }
    }
    MapsStep(fs, fs', dir, es');
    MapsAt(fs, dir);
    MapsEqual(Maps(fs'), Maps(fs));
    DirsAt(fs, dir);
    DirsAt(fs', dir);
    LinksAt(fs, dir);
    LinksAt(fs', dir);
  }

  /** The tree of name maps with a new name, and a new empty map for a directory. */
  ghost function Inserted(maps: map<nat, map<Name, nat>>, dir: nat, name: Name, ino: nat, isDir: bool)
    : map<nat, map<Name, nat>>
    requires dir in maps
  {
    var m: map<Name, nat> := maps[dir][name := ino];
    if isDir then maps[dir := m][ino := map[]] else maps[dir := m]
  }

  lemma NewNameInserts(es: Entries, k: nat, name: Name, ino: nat)
    requires NamesOk(es) && NulFree(name) && Fits(name) && name !in NameMap(es)
    requires ino != RESERVED_INO && k < |es| && !es[k].Live()
    ensures NamesOk(Put(es, k, NewDentry(name, ino)))
    ensures NameMap(Put(es, k, NewDentry(name, ino))) == NameMap(es)[name := ino]
  {
    hide NamesOk, NameMap, Strncpy, Put;
    PutInserts(es, k, NewDentry(name, ino));
  }

  lemma GraftMaps(fs: Fs, fs': Fs, dir: nat, k: nat, d: Dentry, name: Name, isDir: bool)
    requires Inv(fs) && Inv(fs') && dir in DirsOf(fs) && d.ino !in DirsOf(fs)
    requires k < |DirsOf(fs)[dir]| && DirsOf(fs') == Grafted(DirsOf(fs), dir, k, d, isDir)
    requires NamesOk(DirsOf(fs)[dir]) && NamesOk(Put(DirsOf(fs)[dir], k, d))
    requires NameMap(Put(DirsOf(fs)[dir], k, d)) == NameMap(DirsOf(fs)[dir])[name := d.ino]
    ensures Maps(fs') == Inserted(Maps(fs), dir, name, d.ino, isDir)
  {
    hide Inv, DirsOf, NameMap, NamesOk, Put;
    InvGoodNames(fs);
    InvGoodNames(fs');
    if isDir {
      assert DirsOf(fs')[d.ino] == [];
      NameMapIs([], map[]);
    }
    MapsEqual(Maps(fs'), Inserted(Maps(fs), dir, name, d.ino, isDir));
  }

  lemma CreateSucceeds(fs: Fs, slot: Fs, dir: nat, k: nat, name: Name, kind: Kind, ino: nat)
    requires Inv(fs) && IsDir(fs, dir) && SlotFound(fs, slot, dir, k) && kind != Other
    requires NulFree(name) && Fits(name) && name !in Maps(fs)[dir]
    requires NewInode(slot, kind).res == Ok(ino)
    ensures HasEntry(NewInode(slot, kind).fs, dir, k)
    ensures var fs' := FillDentry(NewInode(slot, kind).fs, dir, k, NewDentry(name, ino));
      && Inv(fs') && fs'.sb == fs.sb && fs'.dused == slot.dused && ino !in fs.iused && ROOT_INO < ino
      && LiveInodes(fs') == LiveInodes(fs) + {ino}
      && fs'.inodes[ino] == Inode(kind, 1, 0, NoBlocks())
      && Maps(fs') == Inserted(Maps(fs), dir, name, ino, kind == Dir)
  {
    hide Ownership, Links, IsTree, OnlyInode, NameMap, DirsOf, Maps, NamesOk, EntriesOf, Strncpy, PutDentry;
    SlotFoundSameTree(fs, slot, dir, k);
    NewInodeFresh(slot, kind);
    CreateEffect(slot, dir, k, name, kind, ino);
    DirsAt(slot, ino);
    InvGoodNames(slot);
    var d := NewDentry(name, ino);
    NewNameInserts(DirsOf(slot)[dir], k, name, ino);
    GraftMaps(slot, FillDentry(NewInode(slot, kind).fs, dir, k, d), dir, k, d, name, kind == Dir);
  }

  /** Creating inserts into one name map and adds one live inode; failing leaves
      the tree as it was, and touches at most dir and one new block of dir's. */
  lemma CreateInserts(fs: Fs, dir: nat, name: Name, kind: Kind)
    requires Inv(fs) && IsDir(fs, dir) && kind != Other
    requires NulFree(name) && dir in Maps(fs) && name !in Maps(fs)[dir]
    ensures var r := Create(fs, dir, name, kind);
      && Inv(r.fs) && r.fs.sb == fs.sb && Filled(fs.dused, r.fs.dused)
      && match r.res
         case Ok(ino) =>
           && Fits(name) && ino !in fs.iused && ROOT_INO < ino
           && LiveInodes(r.fs) == LiveInodes(fs) + {ino}
           && r.fs.inodes[ino] == Inode(kind, 1, 0, NoBlocks())
           && Maps(r.fs) == Inserted(Maps(fs), dir, name, ino, kind == Dir)
         case Fail(e) => SameTree(fs, r.fs) && (OnlyInode(fs, r.fs, dir) || r.fs == fs.(dused := r.fs.dused))
  {
    hide Ownership, Links, IsTree, OnlyInode, EntriesOf, FreeDentry, NewInode, FillDentry;
    if Fits(name) {
      FreeDentrySlot(fs, dir);
      var slot := FreeDentry(fs, dir);
      match slot.res {
        case Ok(k) =>
          SlotFoundSameTree(fs, slot.fs, dir, k);
          NewInodeFresh(slot.fs, kind);
          if NewInode(slot.fs, kind).res.Ok? {
            CreateSucceeds(fs, slot.fs, dir, k, name, kind, NewInode(slot.fs, kind).res.value);
          }
        case Fail(_) =>
          assert DirsOf(slot.fs) == DirsOf(fs);
          MapsEqual(Maps(slot.fs), Maps(fs));
      }
    }
  }

  lemma CreateErrors(fs: Fs, dir: nat, name: Name, kind: Kind)
    requires Inv(fs) && IsDir(fs, dir)
    ensures var r := Create(fs, dir, name, kind).res;
            var es := EntriesOf(fs.data, fs.inodes[dir]);
            var noSlot := LiveCount(es) == |es| && (|es| == MAX_DENTRYS
                            || (|es| % DENTRYS_PER_BLOCK == 0 && GetDblock(fs).res == RESERVED_DNO));
            var noInode := forall i: nat :: i < |fs.inodes| ==> i in fs.iused;
      && (r == Fail(ENAMETOOLONG) <==> !Fits(name))
      && (r == Fail(EIO) <==> Fits(name) && noSlot)
      && (r == Fail(ENOSPC) <==> Fits(name) && !noSlot && noInode && fs.sb.Inodes() == fs.sb.InodeBits())
      && (r == Fail(EINVAL) <==> Fits(name) && !noSlot && noInode && fs.sb.Inodes() < fs.sb.InodeBits())
      && (r.Ok? <==> Fits(name) && !noSlot && !noInode)
  {
    hide Inv, Ownership, EntriesOf, DirsOf, FreeDentry, NewInode, OnlyInode, FillDentry, HasEntry, LiveCount, IsDir;
    InvOwnership(fs);
    FreeDentryFailsExactly(fs, dir);
    if Fits(name) {
      FreeDentrySlot(fs, dir);
      var slot := FreeDentry(fs, dir);
      if slot.res.Ok? {
        InvOwnership(slot.fs);
        assert |slot.fs.inodes| == |fs.inodes|;
        NewInodeFresh(slot.fs, kind);
        NewInodeErrors(slot.fs, kind);
      }
    }
  }

  /** A full table is a full bitmap only when the bitmap has no spare bits. */
  lemma NewInodeErrors(fs: Fs, kind: Kind)
    requires Shape(fs)
    ensures var r := NewInode(fs, kind).res;
            r.Fail? ==> r == Fail(if fs.sb.Inodes() == fs.sb.InodeBits() then ENOSPC else EINVAL)
  {
    if NewInode(fs, kind).res.Fail? {
      NewInodeFresh(fs, kind);
      LeastUnique(fs.iused, fs.sb.InodeBits(), |fs.inodes|);
    }
  }

  /** The next entry of dir starts a new block: all entries are live, and they
      fill their blocks. */
  predicate BlockDue(fs: Fs, dir: nat)
    requires dir < |fs.inodes|
  {
    var es := EntriesOf(fs.data, fs.inodes[dir]);
    LiveCount(es) == |es| && |es| != MAX_DENTRYS && |es| % DENTRYS_PER_BLOCK == 0
  }

  /** Whatever its result, a create takes one block exactly when one is due, and
      adds one entry to the directory exactly when none is unused and there is
      room. */
  lemma CreateGrowsAtMostOne(fs: Fs, dir: nat, name: Name, kind: Kind)
    requires Inv(fs) && IsDir(fs, dir)
    ensures var fs' := Create(fs, dir, name, kind).fs;
      && fs'.sb == fs.sb && dir < |fs.inodes| && dir < |fs'.inodes|
      && fs'.dused == (if Fits(name) && BlockDue(fs, dir) then Taken(fs.dused, fs.sb.DataBits()) else fs.dused)
      && fs'.inodes[dir].size == fs.inodes[dir].size + if Fits(name) && Grows(fs, dir) then DENTRY_SIZE else 0
  {
    hide Ownership, Links, EntriesOf, DirsOf, PutDentry, PutIno, Taken, Least, NewDentry, NewInode, HasEntry,
      SlotFound, BlockDue, Grows, FreeDentry;
    if Fits(name) {
      SlotThenInode(fs, dir, kind);
      FreeDentrySlot(fs, dir);
      var slot := FreeDentry(fs, dir);
      SlotGrowth(fs, dir);
      if slot.res.Ok? {
        SlotFoundLive(fs, slot.fs, dir, slot.res.value);
        NewInodeFresh(slot.fs, kind);
      }
    }
  }

  lemma SlotFoundLive(fs: Fs, fs': Fs, dir: nat, k: nat)
    requires SlotFound(fs, fs', dir, k)
    ensures Shape(fs') && dir in fs'.iused
  {
  }

  lemma SlotGrowth(fs: Fs, dir: nat)
    requires Shape(fs) && Ownership(fs) && IsDir(fs, dir)
    ensures var fs' := FreeDentry(fs, dir).fs;
      && fs'.sb == fs.sb && |fs'.inodes| == |fs.inodes|
      && fs'.dused == (if BlockDue(fs, dir) then Taken(fs.dused, fs.sb.DataBits()) else fs.dused)
      && fs'.inodes[dir].size == fs.inodes[dir].size + if Grows(fs, dir) then DENTRY_SIZE else 0
  {
    hide EntriesOf, Taken, Least, Ownership, PutIno, LiveCount, FirstDead;
    FullMeansAllLive(EntriesOf(fs.data, fs.inodes[dir]));
    DirSize(fs, dir);
    GrownCount(fs.inodes[dir].size);
  }

  /** The inodes after a create, whatever its result: the directory grows by one
      entry exactly when none is unused; on success it gains a link, and the
      new inode has the least free number. */
  lemma CreateInodesExactly(fs: Fs, dir: nat, name: Name, kind: Kind)
    requires Inv(fs) && IsDir(fs, dir)
    ensures |fs.inodes[dir].slots| == IBLOCKS
    ensures var r := Create(fs, dir, name, kind);
            var slot := if Fits(name) then fs.inodes[dir := GrownDir(fs, dir)] else fs.inodes;
      match r.res
      case Ok(ino) =>
        && Fits(name) && ino < |fs.inodes| && ino !in fs.iused && (forall x: nat :: x < ino ==> x in fs.iused)
        && r.fs.iused == fs.iused + {ino}
        && r.fs.inodes == slot[ino := Inode(kind, 1, 0, NoBlocks())][dir := AddLink(slot[dir])]
      case Fail(_) => r.fs.iused == fs.iused && r.fs.inodes == slot
  {
    hide Inv, Ownership, EntriesOf, DirsOf, FreeDentry, NewInode, PutDentry, NewDentry, OnlyInode, HasEntry, GrownDir;
    InvOwnership(fs);
    FreeDentryExactly(fs, dir);
    if Fits(name) {
      SlotThenInode(fs, dir, kind);
      var slot := FreeDentry(fs, dir);
      if slot.res.Ok? {
        FreeDentrySlot(fs, dir);
        SlotFoundLive(fs, slot.fs, dir, slot.res.value);
        NewInodeFresh(slot.fs, kind);
      }
    }
  }

  /** The entries after a create: the first unused one, or one past the end, holds
      the new name, and every other entry of every directory stays where it was;
      a failure at most appends an unused entry. */
  lemma CreateEntriesExactly(fs: Fs, dir: nat, name: Name, kind: Kind)
    requires Inv(fs) && IsDir(fs, dir) && kind != Other
    requires NulFree(name) && dir in Maps(fs) && name !in Maps(fs)[dir]
    ensures dir in DirsOf(fs) && DirsOf(fs)[dir] == EntriesOf(fs.data, fs.inodes[dir])
    ensures var r := Create(fs, dir, name, kind);
            var es := DirsOf(fs)[dir];
      match r.res
      case Ok(ino) =>
        && Fits(name)
        && DirsOf(r.fs) == Grafted(DirsOf(fs), dir, FirstDead(es), NewDentry(name, ino), kind == Dir)
      case Fail(_) =>
        || DirsOf(r.fs) == DirsOf(fs)
        || exists d: Dentry :: !d.Live() && DirsOf(r.fs) == DirsOf(fs)[dir := es + [d]]
  {
    hide Inv, Ownership, Links, IsTree, OnlyInode, EntriesOf, DirsOf, FreeDentry, NewInode, FillDentry, Blocks, Mapped,
      NameMap, NamesOk, Maps, NewDentry, SlotFound;
    InvOwnership(fs);
    DirsAt(fs, dir);
    if Fits(name) {
      FreeDentrySlot(fs, dir);
      FreeDentryExactly(fs, dir);
      var slot := FreeDentry(fs, dir);
      match slot.res {
        case Ok(k) =>
          SlotEntries(fs, slot.fs, dir, k);
          CreateEntriesAt(fs, slot.fs, dir, k, name, kind);
        case Fail(_) =>
          SameDirs(fs, slot.fs);
      }
    }
  }

  lemma SameDirs(fs: Fs, fs': Fs)
    requires fs' == fs.(dused := fs'.dused)
    ensures DirsOf(fs') == DirsOf(fs)
  {
  }

  /** The slot search keeps the entries, but for an unused one at the end. */
  lemma SlotEntries(fs: Fs, fs': Fs, dir: nat, k: nat)
    requires SlotFound(fs, fs', dir, k)
    ensures Inv(fs') && IsDir(fs', dir) && dir in DirsOf(fs) && dir in DirsOf(fs')
    ensures var es := DirsOf(fs)[dir];
            var es' := DirsOf(fs')[dir];
      && DirsOf(fs') == DirsOf(fs)[dir := es'] && k < |es'| && !es'[k].Live()
      && (es' == es || (k == |es| && es' == es + [es'[k]]))
  {
    hide Inv, OnlyInode, DirsOf, Filled, Blocks, HasEntry;
  }

  lemma CreateEntriesAt(fs: Fs, slot: Fs, dir: nat, k: nat, name: Name, kind: Kind)
    requires Inv(fs) && IsDir(fs, dir) && kind != Other && FreeDentry(fs, dir) == Step(slot, Ok(k))
    requires NulFree(name) && dir in Maps(fs) && name !in Maps(fs)[dir] && Fits(name)
    requires SlotFound(fs, slot, dir, k)
    ensures dir in DirsOf(fs)
    ensures var r := Create(fs, dir, name, kind);
            var es := DirsOf(fs)[dir];
      match r.res
      case Ok(ino) => k <= |es| && DirsOf(r.fs) == Grafted(DirsOf(fs), dir, k, NewDentry(name, ino), kind == Dir)
      case Fail(_) => r.fs == slot
  {
    hide Inv, Ownership, Links, IsTree, OnlyInode, EntriesOf, DirsOf, FreeDentry, NewInode, FillDentry, Blocks, Mapped,
      NameMap, NamesOk, Maps, NewDentry;
    SlotEntries(fs, slot, dir, k);
    SlotFoundSameTree(fs, slot, dir, k);
    InvShape(slot);
    NewInodeFresh(slot, kind);
    if NewInode(slot, kind).res.Ok? {
      SlotNames(fs, slot, dir, k, name);
      var ino := NewInode(slot, kind).res.value;
      CreateEffect(slot, dir, k, name, kind, ino);
      GraftAfterSlot(DirsOf(fs), dir, DirsOf(slot)[dir], k, NewDentry(name, ino), kind == Dir);
    }
  }

  lemma GraftAfterSlot(dirs: Dirs, dir: nat, es: Entries, k: nat, d: Dentry, isDir: bool)
    requires dir in dirs && k < |es| && (es == dirs[dir] || (k == |dirs[dir]| && es == dirs[dir] + [es[k]]))
    ensures Grafted(dirs[dir := es], dir, k, d, isDir) == Grafted(dirs, dir, k, d, isDir)
  {
    assert Put(es, k, d) == Put(dirs[dir], k, d);
  }

  lemma SlotNames(fs: Fs, slot: Fs, dir: nat, k: nat, name: Name)
    requires Inv(fs) && IsDir(fs, dir) && SlotFound(fs, slot, dir, k)
    requires dir in Maps(fs) && name !in Maps(fs)[dir]
    ensures HasEntry(slot, dir, k) && dir in DirsOf(slot) && NamesOk(DirsOf(slot)[dir])
    ensures name !in NameMap(DirsOf(slot)[dir])
  {
    hide Ownership, Links, IsTree, OnlyInode, EntriesOf, DirsOf, Blocks, Mapped, NameMap, Maps;
    SlotFoundSameTree(fs, slot, dir, k);
    InvGoodNames(slot);
  }

  /** A create writes one record of the directory, the one it finds unused or
      appends, and no other byte; a failing one at most its inode number. */
  lemma CreateWritesOnly(fs: Fs, dir: nat, name: Name, kind: Kind)
    requires Inv(fs) && IsDir(fs, dir)
    ensures |fs.inodes[dir].slots| == IBLOCKS
    ensures var k := FirstDead(EntriesOf(fs.data, fs.inodes[dir]));
            var slots := GrownDir(fs, dir).slots;
            var r := Create(fs, dir, name, kind);
            var writes := r.res.Ok? || (Fits(name) && Grows(fs, dir));
      && (!writes ==> r.fs.data == fs.data)
      && (writes ==>
            k < MAX_DENTRYS && OnlyBytes(fs.data, r.fs.data, slots[k / DENTRYS_PER_BLOCK],
                                         k % DENTRYS_PER_BLOCK * DENTRY_SIZE, if r.res.Ok? then DENTRY_SIZE else 4))
  {
    hide Inv, Ownership, EntriesOf, DirsOf, FreeDentry, NewInode, PutDentry, Strncpy, OnlyInode, GrownDir, Grows,
      FirstDead, OnlyBytes, LiveCount, FillDentry;
    InvOwnership(fs);
    FreeDentryExactly(fs, dir);
    FreeDentryWritesOnly(fs, dir);
    if Fits(name) {
      SlotThenInode(fs, dir, kind);
      var slot := FreeDentry(fs, dir);
      if slot.res.Ok? {
        FreeDentrySlot(fs, dir);
        SlotIndexSmall(fs, slot.fs, dir, slot.res.value);
        NewInodeFresh(slot.fs, kind);
        if NewInode(slot.fs, kind).res.Ok? {
          var node := NewInode(slot.fs, kind).fs;
          var d := NewDentry(name, NewInode(slot.fs, kind).res.value);
          FillWritesOnly(fs.data, node, dir, slot.res.value, d);
        }
      }
    }
  }

  lemma SlotIndexSmall(fs: Fs, fs': Fs, dir: nat, k: nat)
    requires SlotFound(fs, fs', dir, k)
    ensures Shape(fs') && dir in fs'.iused && dir < |fs'.inodes| && HasEntry(fs', dir, k) && k < MAX_DENTRYS
  {
    hide Links, DirsOf;
    DirSize(fs', dir);
  }

  /** Filling a record after no more than its inode number has been written. */
  lemma FillWritesOnly(data: seq<Block>, fs: Fs, dir: nat, k: nat, d: Dentry)
    requires HasEntry(fs, dir, k) && |d.name| == NAME_LEN
    requires fs.data == data
             || OnlyBytes(data, fs.data, BlockOf(fs.inodes[dir], k), k % DENTRYS_PER_BLOCK * DENTRY_SIZE, 4)
    ensures OnlyBytes(data, FillDentry(fs, dir, k, d).data, BlockOf(fs.inodes[dir], k),
                      k % DENTRYS_PER_BLOCK * DENTRY_SIZE, DENTRY_SIZE)
  {
    hide Encode;
  }

  /** A create stays on the device exactly when no block is due or the device has
      an unused one. */
  lemma CreateOnDevice(fs: Fs, dir: nat, name: Name, kind: Kind)
    requires Inv(fs) && IsDir(fs, dir) && OnDevice(fs)
    ensures DeviceRoom(fs) >= 0
    ensures OnDevice(Create(fs, dir, name, kind).fs) <==> !Fits(name) || !BlockDue(fs, dir) || DeviceRoom(fs) > 0
  {
    hide Inv, Create, BlockDue, OnDevice, DeviceRoom, Taken, Least;
    InvOwnership(fs);
    GetDblockOnDevice(fs);
    CreateGrowsAtMostOne(fs, dir, name, kind);
    var fs' := Create(fs, dir, name, kind).fs;
    if Fits(name) && BlockDue(fs, dir) {
      SameDevice(GetDblock(fs).fs, fs');
    } else {
      SameDevice(fs, fs');
    }
  }

  /** Which error a create returns, and exactly when; and exactly when it
      succeeds without leaving the device. */
  lemma CreateFailsExactly(fs: Fs, dir: nat, name: Name, kind: Kind)
    requires Inv(fs) && IsDir(fs, dir)
    ensures var r := Create(fs, dir, name, kind);
            var es := EntriesOf(fs.data, fs.inodes[dir]);
            var noSlot := LiveCount(es) == |es| && (|es| == MAX_DENTRYS
                            || (|es| % DENTRYS_PER_BLOCK == 0 && GetDblock(fs).res == RESERVED_DNO));
            var noInode := forall i: nat :: i < |fs.inodes| ==> i in fs.iused;
      && (r.res == Fail(ENAMETOOLONG) <==> !Fits(name))
      && (r.res == Fail(EIO) <==> Fits(name) && noSlot)
      && (r.res == Fail(ENOSPC) <==> Fits(name) && !noSlot && noInode && fs.sb.Inodes() == fs.sb.InodeBits())
      && (r.res == Fail(EINVAL) <==> Fits(name) && !noSlot && noInode && fs.sb.Inodes() < fs.sb.InodeBits())
      && (r.res.Ok? <==> Fits(name) && !noSlot && !noInode)
      && (OnDevice(fs) ==>
            (r.res.Ok? && OnDevice(r.fs) <==>
             && Fits(name) && !noInode
             && !(LiveCount(es) == |es|
                  && (|es| == MAX_DENTRYS || (|es| % DENTRYS_PER_BLOCK == 0 && DeviceRoom(fs) == 0)))))
  {
    hide Inv, Create, LiveCount, IsDir, OnDevice, DeviceRoom, EntriesOf, Taken, Least;
    CreateErrors(fs, dir, name, kind);
    if OnDevice(fs) {
      InvOwnership(fs);
      GetDblockOnDevice(fs);
      CreateOnDevice(fs, dir, name, kind);
    }
  }
}
