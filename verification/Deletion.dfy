/** Looking a name up, and deleting a file or an empty directory. */
module Deletion {
  import opened Layout
  import opened Dentries
  import opened Directory
  import opened Namespace
  import opened State
  import opened Alloc
  import opened Slots
  import opened Creation

  /** `yaf_lookup`: None for an absent name. */
  function Lookup(fs: Fs, dir: nat, name: Name): Result<Option<nat>>
    requires dir < |fs.inodes|
  {
    if !Fits(name) then Fail(ENAMETOOLONG)
    else
      var es := EntriesOf(fs.data, fs.inodes[dir]);
      var k := Find(es, name);
      if k == |es| then Ok(None)
      else if es[k].ino >= fs.sb.Inodes() then Fail(EINVAL)
      else Ok(Some(es[k].ino))
  }

  /** Entry k of dir marked unused, and the link count of dir lowered. */
  function KillDentry(fs: Fs, dir: nat, k: nat): Fs
    requires HasEntry(fs, dir, k)
  {
    var b := BlockOf(fs.inodes[dir], k);
    Rewrite(fs, fs.dused, dir, DropLink(fs.inodes[dir]), b, PutIno(fs.data[b], k % DENTRYS_PER_BLOCK, RESERVED_INO))
  }

  /** `drop_nlink`; it is only called on a positive count. */
  function DropLink(n: Inode): Inode {
    n.(nlink := if n.nlink > 0 then n.nlink - 1 else 0)
  }

  /** The blocks the freeing loop of `yaf_delete` visits, driven by i_size. */
  function SizedBlocks(n: Inode): set<nat> {
    ToSet(n.slots[..if BlockCount(n.size) <= |n.slots| then BlockCount(n.size) else |n.slots|])
  }

  function Release(fs: Fs, ino: nat): Fs
    requires ino < |fs.inodes|
  {
    fs.(dused := fs.dused - SizedBlocks(fs.inodes[ino]), iused := fs.iused - {ino})
  }

  /** The entry of dir called name is live and names ino. */
  ghost predicate IsNamed(fs: Fs, dir: nat, name: Name, ino: nat)
    requires Inv(fs)
  {
    && dir < |fs.inodes| && ino < |fs.inodes|
    && dir in Maps(fs) && NulFree(name) && name in Maps(fs)[dir] && Maps(fs)[dir][name] == ino
  }

  /** `yaf_delete`. */
  function Delete(fs: Fs, dir: nat, name: Name, ino: nat): Step<Result<()>>
    requires Inv(fs) && IsNamed(fs, dir, name, ino)
  {
    NamedEntry(fs, dir, name, ino);
    var k := Find(EntriesOf(fs.data, fs.inodes[dir]), name);
    var fs1 := KillDentry(fs, dir, k);
    var fs2 := fs1.(inodes := fs1.inodes[ino := DropLink(fs1.inodes[ino])]);
    if fs2.inodes[ino].nlink > 1 then Step(fs2, Ok(()))
    else Step(Release(fs2, ino), Ok(()))
  }

  function Unlink(fs: Fs, dir: nat, name: Name, ino: nat): Step<Result<()>>
    requires Inv(fs) && IsNamed(fs, dir, name, ino)
  {
    Delete(fs, dir, name, ino)
  }

  function Rmdir(fs: Fs, dir: nat, name: Name, ino: nat): Step<Result<()>>
    requires Inv(fs) && IsNamed(fs, dir, name, ino)
  {
    NamedEntry(fs, dir, name, ino);
    if fs.inodes[ino].nlink > 1 then Step(fs, Fail(ENOTEMPTY)) else Delete(fs, dir, name, ino)
  }

  /** The lookup inside `yaf_delete` succeeds and finds the entry naming ino. */
  lemma NamedEntry(fs: Fs, dir: nat, name: Name, ino: nat)
    requires Inv(fs) && IsNamed(fs, dir, name, ino)
    ensures IsDir(fs, dir) && Fits(name)
    ensures var es := EntriesOf(fs.data, fs.inodes[dir]);
            var k := Find(es, name);
      && k < |es| && es[k].Live() && es[k].ino == ino && HasName(es, k, name) && HasEntry(fs, dir, k)
    ensures ino in LiveInodes(fs) && ino < |fs.inodes| && ino != ROOT_INO
  {
    hide Ownership, Links, EntriesOf, DirsOf, NamesOk, NameMap;
    DirsAt(fs, dir);
    InvGoodNames(fs);
    var es := DirsOf(fs)[dir];
    NameFits(es, name);
    FindRefines(es, name);
    var k := Find(es, name);
    EntryInBlock(fs, dir, k);
    EntryNamesLive(fs, dir, k);
  }

  /** No live entry names an inode that is not allocated. */
  lemma EntryNamesLive(fs: Fs, dir: nat, k: nat)
    requires Inv(fs) && dir in DirsOf(fs) && k < |DirsOf(fs)[dir]| && DirsOf(fs)[dir][k].Live()
    ensures DirsOf(fs)[dir][k].ino in LiveInodes(fs) && ROOT_INO != DirsOf(fs)[dir][k].ino < |fs.inodes|
  {
    hide Ownership, Links, DirsOf, GoodNames, AllReachable, NamedAtMostOnce;
    assert Names(DirsOf(fs), dir, k, DirsOf(fs)[dir][k].ino);
  }

  lemma NameFits(es: Entries, name: Name)
    requires NamesOk(es) && name in NameMap(es)
    ensures Fits(name)
  {
  }

  /** Which error a lookup returns, and exactly when, in any directory at all: a
      name too long, or a matching entry with a number beyond the inode table. */
  lemma LookupFailsExactly(fs: Fs, dir: nat, name: Name)
    requires dir < |fs.inodes|
    ensures var r := Lookup(fs, dir, name);
            var es := EntriesOf(fs.data, fs.inodes[dir]);
            var corrupt := exists k :: FirstMatch(es, name, k) && es[k].ino >= fs.sb.Inodes();
      && (r == Fail(ENAMETOOLONG) <==> |name| > NAME_LEN)
      && (r == Fail(EINVAL) <==> |name| <= NAME_LEN && corrupt)
      && (r == Ok(None) <==> |name| <= NAME_LEN && forall k :: 0 <= k < |es| ==> !FirstMatch(es, name, k))
  {
    hide EntriesOf;
    var es := EntriesOf(fs.data, fs.inodes[dir]);
    var k := Find(es, name);
    assert forall j :: FirstMatch(es, name, j) ==> j == k;
    assert k < |es| ==> FirstMatch(es, name, k);
  }

  /** Entry k is the first live one whose field compares equal to the name. */
  ghost predicate FirstMatch(es: Entries, name: Name, k: int) {
    && 0 <= k < |es| && es[k].Live() && es[k].Matches(name)
    && forall j :: 0 <= j < k ==> !(es[j].Live() && es[j].Matches(name))
  }

  /** Lookup answers from the name map, for every name. */
  lemma LookupRefines(fs: Fs, dir: nat, name: Name)
    requires Inv(fs) && IsDir(fs, dir) && NulFree(name)
    ensures dir in Maps(fs)
    ensures Lookup(fs, dir, name) ==
            if !Fits(name) then Fail(ENAMETOOLONG)
            else if name in Maps(fs)[dir] then Ok(Some(Maps(fs)[dir][name]))
            else Ok(None)
  {
    hide Ownership, Links, EntriesOf, DirsOf, NamesOk, NameMap, IsTree, Find;
    DirsAt(fs, dir);
    InvGoodNames(fs);
    if Fits(name) {
      var es := DirsOf(fs)[dir];
      FindRefines(es, name);
      if Find(es, name) < |es| {
        EntryNamesLive(fs, dir, Find(es, name));
      }
    }
  }

  /** Freeing an entry clears it and drops the link it stood for. */
  lemma KillEffect(fs: Fs, dir: nat, k: nat)
    requires Shape(fs) && Ownership(fs) && Links(fs) && IsDir(fs, dir) && HasEntry(fs, dir, k)
    requires var es := EntriesOf(fs.data, fs.inodes[dir]); k < |es| && es[k].Live()
    ensures var fs' := KillDentry(fs, dir, k);
            var es := EntriesOf(fs.data, fs.inodes[dir]);
      && OnlyInode(fs, fs', dir) && Ownership(fs') && Links(fs') && LiveInodes(fs') == LiveInodes(fs)
      && DirsOf(fs') == DirsOf(fs)[dir := es[k := Kill(es[k])]]
  {
    hide OnlyInode, Ownership, Links, DirsOf, PutIno, InodeOk, Decode;
    var n := fs.inodes[dir];
    var es := EntriesOf(fs.data, n);
    var b := BlockOf(n, k);
    assert es[k] == DentryAt(fs.data[b], k % DENTRYS_PER_BLOCK);
    hide EntriesOf, DentryAt;
    var blk := PutIno(fs.data[b], k % DENTRYS_PER_BLOCK, RESERVED_INO);
    FillTouches(fs, dir, k, DropLink(n), blk);
    DeadRecord(fs.data[b], k % DENTRYS_PER_BLOCK);
    EntriesRewritten(fs, dir, k, blk, Kill(es[k]));
    var fs' := KillDentry(fs, dir, k);
    NlinkIrrelevant(fs'.data, fs'.inodes[dir], n);
    DirsStep(fs, fs', dir);
    CountUpdate(es, k, Kill(es[k]));
    LinksAt(fs, dir);
    LinksStep(fs, fs', dir);
  }

  /** The freeing loop frees blocks the inode owns, so no bit is cleared twice
      and no other inode loses a block: those of the slots that start below the
      size, all of them exactly when the size accounts for every mapped slot. */
  lemma SizedBlocksOwned(n: Inode)
    requires InodeOk(n)
    ensures SizedBlocks(n) <= Blocks(n.slots)
    ensures forall b :: b in SizedBlocks(n) <==> exists k :: HoldsBelowSize(n, k, b)
    ensures BlockCount(n.size) <= Mapped(n.slots)
    ensures SizedBlocks(n) == Blocks(n.slots) <==> BlockCount(n.size) == Mapped(n.slots)
  {
    SizedIsBelowSize(n);
    hide BlockCount, Mapped;
    if BlockCount(n.size) < Mapped(n.slots) {
      var b := n.slots[BlockCount(n.size)];
      assert b in Blocks(n.slots) && b !in SizedBlocks(n);
    }
  }

  /** Slot k starts below the size and holds block b. */
  ghost predicate HoldsBelowSize(n: Inode, k: nat, b: nat) {
    k < |n.slots| && k * BLOCK_SIZE < n.size && n.slots[k] == b
  }

  lemma SizedIsBelowSize(n: Inode)
    requires BlockCount(n.size) <= |n.slots|
    ensures forall b :: b in SizedBlocks(n) <==> exists k :: HoldsBelowSize(n, k, b)
  {
    var s := n.slots[..BlockCount(n.size)];
    forall b
      ensures b in SizedBlocks(n) <==> exists k :: HoldsBelowSize(n, k, b)
    {
      if b in SizedBlocks(n) {
        var k :| 0 <= k < |s| && s[k] == b;
        assert HoldsBelowSize(n, k, b);
      }
      if exists k :: HoldsBelowSize(n, k, b) {
        var k: nat :| HoldsBelowSize(n, k, b);
        assert k < BlockCount(n.size);
        assert s[k] == b;
      }
    }
  }

  lemma ReleaseEffect(fs: Fs, ino: nat, n: Inode)
    requires Shape(fs) && Ownership(fs) && Links(fs) && ino in LiveInodes(fs) && ino != ROOT_INO
    requires n == fs.inodes[ino].(nlink := n.nlink)
    ensures var fs' := Release(fs.(inodes := fs.inodes[ino := n]), ino);
      && Shape(fs') && Ownership(fs') && Links(fs') && LiveInodes(fs') == LiveInodes(fs) - {ino}
      && DirsOf(fs') == DirsOf(fs) - {ino}
  {
    hide EntriesOf, Mapped, Blocks, SlotsOk, DirsOf;
    var fs' := Release(fs.(inodes := fs.inodes[ino := n]), ino);
    assert SizedBlocks(n) <= Blocks(fs.inodes[ino].slots) by {
      assert InodeOk(fs.inodes[ino]);
      SizedBlocksOwned(fs.inodes[ino]);
    }
    hide InodeOk, SizedBlocks;
    assert Shape(fs');
    forall i | i in LiveInodes(fs')
      ensures Blocks(fs'.inodes[i].slots) <= fs'.dused
    {
      assert Blocks(fs.inodes[i].slots) !! Blocks(fs.inodes[ino].slots);
    }
    assert forall i :: i in LiveInodes(fs') && LinkOk(fs, i) ==> LinkOk(fs', i);
    ReleaseDirs(fs, fs', ino);
  }

  lemma ReleaseDirs(fs: Fs, fs': Fs, ino: nat)
    requires LiveInodes(fs') == LiveInodes(fs) - {ino} && fs'.data == fs.data && |fs'.inodes| == |fs.inodes|
    requires forall i :: 0 <= i < |fs.inodes| && i != ino ==> fs'.inodes[i] == fs.inodes[i]
    ensures DirsOf(fs') == DirsOf(fs) - {ino}
  {
    hide EntriesOf;
    MapsEqual(DirsOf(fs'), DirsOf(fs) - {ino});
  }

  /** The state `yaf_delete` leaves for an inode whose only link goes away. */
  lemma DeleteEffect(fs: Fs, dir: nat, name: Name, ino: nat) returns (k: nat)
    requires Inv(fs) && IsNamed(fs, dir, name, ino) && fs.inodes[ino].nlink <= 1
    ensures dir in DirsOf(fs) && ino != dir && k < |DirsOf(fs)[dir]|
    ensures HasName(DirsOf(fs)[dir], k, name) && DirsOf(fs)[dir][k].ino == ino && k == Find(DirsOf(fs)[dir], name)
    ensures Delete(fs, dir, name, ino).res.Ok?
    ensures var fs' := Delete(fs, dir, name, ino).fs;
      && Inv(fs') && fs'.sb == fs.sb
      && fs'.iused == fs.iused - {ino}
      && fs'.dused == fs.dused - SizedBlocks(fs.inodes[ino])
      && DirsOf(fs') == Pruned(DirsOf(fs), dir, k)
  {
    hide Ownership, Links, IsTree, EntriesOf, DirsOf, InodeOk, KillDentry, OnlyInode, Maps, Shape, Pruned;
    NamedEntry(fs, dir, name, ino);
    k := Find(EntriesOf(fs.data, fs.inodes[dir]), name);
    DirsAt(fs, dir);
    DirsAt(fs, ino);
    LastLink(fs, ino);
    PruneKeepsTree(DirsOf(fs), LiveInodes(fs), dir, k);
    KillEffect(fs, dir, k);
    var fs1 := KillDentry(fs, dir, k);
    KillOthers(fs, dir, k, ino);
    ReleaseEffect(fs1, ino, DropLink(fs.inodes[ino]));
    assert DirsOf(fs1) - {ino} == Pruned(DirsOf(fs), dir, k) by {
      PrunedIs(DirsOf(fs), dir, k);
    }
  }

  lemma PrunedIs(dirs: Dirs, dir: nat, k: nat)
    requires dir in dirs && k < |dirs[dir]| && dirs[dir][k].ino != dir
    ensures dirs[dir := dirs[dir][k := Kill(dirs[dir][k])]] - {dirs[dir][k].ino} == Pruned(dirs, dir, k)
  {
  }

  lemma KillOthers(fs: Fs, dir: nat, k: nat, i: nat)
    requires Shape(fs) && HasEntry(fs, dir, k) && i != dir && i < |fs.inodes|
    ensures var fs' := KillDentry(fs, dir, k);
      && |fs'.inodes| == |fs.inodes| && fs'.inodes[i] == fs.inodes[i]
      && fs' == fs.(inodes := fs'.inodes, data := fs'.data) && Shape(fs')
  {
  }

  lemma LastLink(fs: Fs, ino: nat)
    requires Inv(fs) && ino in LiveInodes(fs) && fs.inodes[ino].nlink <= 1
    ensures fs.inodes[ino].nlink == 1
    ensures IsDir(fs, ino) ==> LiveCount(EntriesOf(fs.data, fs.inodes[ino])) == 0
  {
    assert LinkOk(fs, ino);
  }

  /** Deleting removes one name and its inode, frees the inode's blocks and
      nothing else, and keeps everything that held; every other entry of every
      directory stays where it was. */
  lemma DeleteRemoves(fs: Fs, dir: nat, name: Name, ino: nat)
    requires Inv(fs) && IsNamed(fs, dir, name, ino) && fs.inodes[ino].nlink <= 1
    ensures var r := Delete(fs, dir, name, ino);
      && r.res.Ok? && Inv(r.fs) && r.fs.sb == fs.sb
      && r.fs.iused == fs.iused - {ino}
      && r.fs.dused == fs.dused - SizedBlocks(fs.inodes[ino])
      && ino != dir && dir in Maps(fs)
      && Maps(r.fs) == (Maps(fs) - {ino})[dir := Maps(fs)[dir] - {name}]
    ensures dir in DirsOf(fs)
    ensures var es := DirsOf(fs)[dir];
            var k := Find(es, name);
            k < |es| && DirsOf(Delete(fs, dir, name, ino).fs) ==
              (DirsOf(fs) - {ino})[dir := es[k := es[k].(ino := RESERVED_INO)]]
  {
    hide Ownership, Links, IsTree, EntriesOf, InodeOk, DirsOf, NamesOk, NameMap, Delete, SizedBlocks, Shape;
    var k := DeleteEffect(fs, dir, name, ino);
    var r := Delete(fs, dir, name, ino);
    InvGoodNames(fs);
    InvGoodNames(r.fs);
    KillRemoves(DirsOf(fs)[dir], k, name);
    MapsEqual(Maps(r.fs), (Maps(fs) - {ino})[dir := Maps(fs)[dir] - {name}]);
    PrunedIs(DirsOf(fs), dir, k);
    assert DirsOf(fs)[dir := DirsOf(fs)[dir][k := Kill(DirsOf(fs)[dir][k])]] - {ino} ==
           (DirsOf(fs) - {ino})[dir := DirsOf(fs)[dir][k := Kill(DirsOf(fs)[dir][k])]];
  }

  /** rmdir succeeds exactly on empty directories. */
  lemma RmdirRemovesEmpty(fs: Fs, dir: nat, name: Name, ino: nat)
    requires Inv(fs) && IsNamed(fs, dir, name, ino) && IsDir(fs, ino)
    ensures ino in Maps(fs)
    ensures var r := Rmdir(fs, dir, name, ino);
      && Inv(r.fs)
      && (r.res.Ok? <==> Maps(fs)[ino] == map[])
      && (r.res.Ok? ==> r == Delete(fs, dir, name, ino) && fs.inodes[ino].nlink <= 1)
      && (r.res.Fail? ==> r == Step(fs, Fail(ENOTEMPTY)))
  {
    hide Ownership, Links, IsTree, EntriesOf, InodeOk, DirsOf, NamesOk, NameMap, Delete, Shape;
    NamedEntry(fs, dir, name, ino);
    DirsAt(fs, ino);
    LinksAt(fs, ino);
    InvGoodNames(fs);
    CountZeroIsEmptyMap(DirsOf(fs)[ino]);
    if fs.inodes[ino].nlink <= 1 {
      DeleteRemoves(fs, dir, name, ino);
    }
  }

  /** A regular file has one link, so unlink always frees it: the name and the
      inode go, and so do the blocks its size needs and no other. */
  lemma UnlinkRemoves(fs: Fs, dir: nat, name: Name, ino: nat)
    requires Inv(fs) && IsNamed(fs, dir, name, ino) && fs.inodes[ino].kind == Reg
    ensures fs.inodes[ino].nlink == 1
    ensures var r := Unlink(fs, dir, name, ino);
      && r.res.Ok? && Inv(r.fs)
      && r.fs.iused == fs.iused - {ino} && r.fs.dused == fs.dused - SizedBlocks(fs.inodes[ino])
      && dir in Maps(fs) && Maps(r.fs) == Maps(fs)[dir := Maps(fs)[dir] - {name}]
  {
    hide Inv, Maps, DirsOf, EntriesOf, Delete, SizedBlocks;
    NamedEntry(fs, dir, name, ino);
    FileLink(fs, ino);
    DeleteRemoves(fs, dir, name, ino);
    MapsAt(fs, ino);
    assert Maps(fs) - {ino} == Maps(fs);
  }

  lemma FileLink(fs: Fs, ino: nat)
    requires Inv(fs) && ino in LiveInodes(fs) && ino < |fs.inodes| && fs.inodes[ino].kind == Reg
    ensures fs.inodes[ino].nlink == 1
  {
    assert LinkOk(fs, ino);
  }

  /** Deleting lowers two link counts, of the directory and of the inode, and
      changes nothing else in any inode. */
  lemma DeleteKeepsInodes(fs: Fs, dir: nat, name: Name, ino: nat, i: nat)
    requires Inv(fs) && IsNamed(fs, dir, name, ino) && i < |fs.inodes|
    ensures dir != ino && (i == dir || i == ino ==> fs.inodes[i].nlink > 0)
    ensures var fs' := Delete(fs, dir, name, ino).fs;
            i < |fs'.inodes| && fs'.inodes[i] ==
              if i == dir || i == ino then fs.inodes[i].(nlink := fs.inodes[i].nlink - 1) else fs.inodes[i]
  {
    hide Inv, Maps, Find, PutIno;
    NamedEntry(fs, dir, name, ino);
    NotItsOwn(fs, dir, name, ino);
    LinksPositive(fs, dir);
    LinksPositive(fs, ino);
  }

  lemma LinksPositive(fs: Fs, i: nat)
    requires Inv(fs) && i in LiveInodes(fs) && i < |fs.inodes|
    ensures fs.inodes[i].nlink > 0
  {
    assert LinkOk(fs, i);
  }

  lemma NotItsOwn(fs: Fs, dir: nat, name: Name, ino: nat)
    requires Inv(fs) && IsNamed(fs, dir, name, ino)
    ensures dir != ino
  {
    hide Ownership, Links, EntriesOf, NamesOk, NameMap, Maps, IsTree;
    NamedEntry(fs, dir, name, ino);
    DirsAt(fs, dir);
    var k := Find(EntriesOf(fs.data, fs.inodes[dir]), name);
    assert Names(DirsOf(fs), dir, k, ino);
    NotOwnParent(DirsOf(fs), LiveInodes(fs), dir, k);
  }

  /** Deleting writes the inode number of one record, and no other byte. */
  lemma DeleteWritesOnly(fs: Fs, dir: nat, name: Name, ino: nat)
    requires Inv(fs) && IsNamed(fs, dir, name, ino)
    ensures var k := Find(EntriesOf(fs.data, fs.inodes[dir]), name);
      && HasEntry(fs, dir, k)
      && OnlyBytes(fs.data, Delete(fs, dir, name, ino).fs.data, BlockOf(fs.inodes[dir], k),
                   k % DENTRYS_PER_BLOCK * DENTRY_SIZE, 4)
  {
    hide Inv, Maps, Find;
    NamedEntry(fs, dir, name, ino);
  }

  /** Deleting always succeeds, and frees the inode exactly when no more than one
      link is left to it. */
  lemma DeleteFreesExactly(fs: Fs, dir: nat, name: Name, ino: nat)
    requires Inv(fs) && IsNamed(fs, dir, name, ino)
    ensures var r := Delete(fs, dir, name, ino);
            var frees := fs.inodes[ino].nlink <= 2;
      && r.res.Ok? && r.fs.sb == fs.sb
      && r.fs.iused == (if frees then fs.iused - {ino} else fs.iused)
      && r.fs.dused == if frees then fs.dused - SizedBlocks(fs.inodes[ino]) else fs.dused
  {
    hide Inv, Maps, Find, PutIno;
    NamedEntry(fs, dir, name, ino);
    NotItsOwn(fs, dir, name, ino);
  }
}
