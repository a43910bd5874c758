/** Finding or making an unused entry in a directory. */
module Slots {
  import opened Layout
  import opened Bytes
  import opened FirstFit
  import opened Dentries
  import opened Directory
  import opened Namespace
  import opened State
  import opened Alloc

  /** A directory grown by one unused entry at its end, in a block of `slots`. */
  function AddDentry(fs: Fs, dir: nat, slots: seq<nat>): Fs
    requires dir < |fs.inodes| && fs.inodes[dir].size / BLOCK_SIZE < |slots|
    requires var b := slots[fs.inodes[dir].size / BLOCK_SIZE]; b < |fs.data| && |fs.data[b]| == BLOCK_SIZE
  {
    var n := fs.inodes[dir];
    var b := slots[n.size / BLOCK_SIZE];
    Rewrite(fs, fs.dused, dir, n.(slots := slots, size := n.size + DENTRY_SIZE),
            b, PutIno(fs.data[b], n.size % BLOCK_SIZE / DENTRY_SIZE, RESERVED_INO))
  }

  /** `yaf_get_free_dentry`: the index of an unused entry. */
  function FreeDentry(fs: Fs, dir: nat): Step<Result<nat>>
    requires Shape(fs) && Ownership(fs) && IsDir(fs, dir)
  {
    var n := fs.inodes[dir];
    var k := FirstDead(EntriesOf(fs.data, n));
    if k < n.size / DENTRY_SIZE then Step(fs, Ok(k))
    else if n.size / DENTRY_SIZE == MAX_DENTRYS then Step(fs, Fail(ENOSPC))
    else
      RoomForDentry(fs, dir);
      if n.size % BLOCK_SIZE == 0 then
        var got := GetDblock(fs);
        if got.res == RESERVED_DNO then Step(got.fs, Fail(ENOSPC))
        else Step(AddDentry(got.fs, dir, GrownSlots(n, got.res)), Ok(k))
      else Step(AddDentry(fs, dir, n.slots), Ok(k))
  }

  /** A directory that is not full has a slot for its next entry: reserved when
      a block is due, which is the source's assertion, and owned otherwise. */
  lemma RoomForDentry(fs: Fs, dir: nat)
    requires Shape(fs) && Ownership(fs) && IsDir(fs, dir)
    requires fs.inodes[dir].size / DENTRY_SIZE != MAX_DENTRYS
    ensures fs.inodes[dir].size / BLOCK_SIZE < IBLOCKS == |fs.inodes[dir].slots|
    ensures fs.inodes[dir].size / DENTRY_SIZE < MAX_DENTRYS
    ensures var n := fs.inodes[dir];
            if n.size % BLOCK_SIZE == 0
            then n.size / BLOCK_SIZE == Mapped(n.slots) && n.slots[n.size / BLOCK_SIZE] == RESERVED_DNO
            else n.size / BLOCK_SIZE == Mapped(n.slots) - 1
                 && n.slots[n.size / BLOCK_SIZE] in Blocks(n.slots) && n.slots[n.size / BLOCK_SIZE] < |fs.data|
  {
  }

  /** Filling the first reserved slot. */
  lemma AppendSlot(slots: seq<nat>, b: nat)
    requires |slots| == IBLOCKS && Mapped(slots) < IBLOCKS && b != RESERVED_DNO && b !in Blocks(slots)
    requires SlotsOk(slots)
    ensures Mapped(slots[Mapped(slots) := b]) == Mapped(slots) + 1
    ensures Blocks(slots[Mapped(slots) := b]) == Blocks(slots) + {b}
    ensures SlotsOk(slots[Mapped(slots) := b])
  {
    var m := Mapped(slots);
    MappedIs(slots[m := b], m + 1);
    assert slots[m := b][..m + 1] == slots[..m] + [b];
  }

  /** Rewriting record k of an owned block changes entry k and no other. */
  lemma EntryAfter(data: seq<Block>, slots: seq<nat>, k: nat, blk: Block, d: Dentry, j: nat)
    requires |slots| == IBLOCKS && k / DENTRYS_PER_BLOCK < IBLOCKS && j / DENTRYS_PER_BLOCK < IBLOCKS
    requires slots[k / DENTRYS_PER_BLOCK] < |data|
    requires |data[slots[k / DENTRYS_PER_BLOCK]]| == BLOCK_SIZE == |blk|
    requires forall r :: 0 <= r < DENTRYS_PER_BLOCK ==>
      DentryAt(blk, r) == if r == k % DENTRYS_PER_BLOCK then d else DentryAt(data[slots[k / DENTRYS_PER_BLOCK]], r)
    requires j / DENTRYS_PER_BLOCK != k / DENTRYS_PER_BLOCK ==>
      slots[j / DENTRYS_PER_BLOCK] != slots[k / DENTRYS_PER_BLOCK]
    ensures EntryOf(data[slots[k / DENTRYS_PER_BLOCK] := blk], slots, j) ==
            if j == k then d else EntryOf(data, slots, j)
  {
  }

  /** The entries after record k of directory dir has been rewritten in place. */
  lemma EntriesRewritten(fs: Fs, dir: nat, k: nat, blk: Block, d: Dentry)
    requires Shape(fs) && Ownership(fs) && IsDir(fs, dir) && k < fs.inodes[dir].size / DENTRY_SIZE
    requires HasEntry(fs, dir, k) && |blk| == BLOCK_SIZE
    requires forall r :: 0 <= r < DENTRYS_PER_BLOCK ==>
      DentryAt(blk, r) == if r == k % DENTRYS_PER_BLOCK then d else DentryAt(fs.data[BlockOf(fs.inodes[dir], k)], r)
    ensures EntriesOf(fs.data[BlockOf(fs.inodes[dir], k) := blk], fs.inodes[dir]) ==
            EntriesOf(fs.data, fs.inodes[dir])[k := d]
  {
  }

  /** The block of entry k. */
  function BlockOf(n: Inode, k: nat): nat
    requires k / DENTRYS_PER_BLOCK < |n.slots|
  {
    n.slots[k / DENTRYS_PER_BLOCK]
  }

  predicate HasEntry(fs: Fs, dir: nat, k: nat) {
    && dir < |fs.inodes| && k / DENTRYS_PER_BLOCK < |fs.inodes[dir].slots|
    && BlockOf(fs.inodes[dir], k) < |fs.data| && |fs.data[BlockOf(fs.inodes[dir], k)]| == BLOCK_SIZE
  }

  lemma GrownCount(size: nat)
    requires size % DENTRY_SIZE == 0
    ensures BlockCount(size + DENTRY_SIZE) == size / BLOCK_SIZE + 1
    ensures BlockCount(size) == if size % BLOCK_SIZE == 0 then size / BLOCK_SIZE else size / BLOCK_SIZE + 1
    ensures size / DENTRY_SIZE / DENTRYS_PER_BLOCK == size / BLOCK_SIZE
    ensures size / DENTRY_SIZE % DENTRYS_PER_BLOCK == size % BLOCK_SIZE / DENTRY_SIZE
    ensures (size + DENTRY_SIZE) / DENTRY_SIZE == size / DENTRY_SIZE + 1
    ensures (size + DENTRY_SIZE) % DENTRY_SIZE == 0
  {
  }

  /** The slots of a directory after growing: one more when a block is due. */
  function GrownSlots(n: Inode, b: nat): seq<nat>
    requires |n.slots| == IBLOCKS && n.size / BLOCK_SIZE < IBLOCKS
  {
    if n.size % BLOCK_SIZE == 0 then n.slots[n.size / BLOCK_SIZE := b] else n.slots
  }

  lemma GrownInode(n: Inode, b: nat)
    requires InodeOk(n) && n.kind == Dir && n.size / BLOCK_SIZE < IBLOCKS
    requires n.size % BLOCK_SIZE == 0 ==> b != RESERVED_DNO && b !in Blocks(n.slots)
    ensures InodeOk(n.(slots := GrownSlots(n, b), size := n.size + DENTRY_SIZE))
    ensures Mapped(GrownSlots(n, b)) == n.size / BLOCK_SIZE + 1
    ensures forall i :: 0 <= i < Mapped(n.slots) ==> GrownSlots(n, b)[i] == n.slots[i]
    ensures Blocks(GrownSlots(n, b)) == if n.size % BLOCK_SIZE == 0 then Blocks(n.slots) + {b} else Blocks(n.slots)
  {
    GrownCount(n.size);
    hide BlockCount, SlotsOk, Mapped, Blocks;
    if n.size % BLOCK_SIZE == 0 {
      AppendSlot(n.slots, b);
    }
  }

  lemma DeadRecord(blk: Block, i: nat)
    requires |blk| == BLOCK_SIZE && i < DENTRYS_PER_BLOCK
    ensures forall r :: 0 <= r < DENTRYS_PER_BLOCK ==>
      DentryAt(PutIno(blk, i, RESERVED_INO), r) == if r == i then Kill(DentryAt(blk, i)) else DentryAt(blk, r)
  {
    forall r | 0 <= r < DENTRYS_PER_BLOCK
      ensures DentryAt(PutIno(blk, i, RESERVED_INO), r) == if r == i then Kill(DentryAt(blk, i)) else DentryAt(blk, r)
    {
      PutInoAt(blk, i, RESERVED_INO, r);
    }
  }

  lemma DirSize(fs: Fs, dir: nat)
    requires Shape(fs) && Ownership(fs) && IsDir(fs, dir)
    ensures fs.inodes[dir].size % DENTRY_SIZE == 0 && |fs.inodes[dir].slots| == IBLOCKS
  {
  }

  /** Slots that extend those of a directory far enough for one more entry. */
  ghost predicate Extends(n: Inode, slots: seq<nat>) {
    && |slots| == IBLOCKS == |n.slots|
    && (forall i, j :: 0 <= i < j < Mapped(slots) ==> slots[i] != slots[j])
    && Mapped(slots) == n.size / BLOCK_SIZE + 1
    && (forall i :: 0 <= i < Mapped(n.slots) ==> slots[i] == n.slots[i])
  }

  lemma GrownEntry(fs: Fs, dir: nat, slots: seq<nat>, blk: Block, d: Dentry, j: nat)
    requires Shape(fs) && Ownership(fs) && IsDir(fs, dir) && Extends(fs.inodes[dir], slots)
    requires j <= fs.inodes[dir].size / DENTRY_SIZE
    requires var b := slots[fs.inodes[dir].size / BLOCK_SIZE];
      && b < |fs.data| && |blk| == BLOCK_SIZE
      && forall r :: 0 <= r < DENTRYS_PER_BLOCK ==>
           DentryAt(blk, r) ==
           if r == fs.inodes[dir].size % BLOCK_SIZE / DENTRY_SIZE then d else DentryAt(fs.data[b], r)
    ensures EntryOf(fs.data[slots[fs.inodes[dir].size / BLOCK_SIZE] := blk], slots, j) ==
            if j == fs.inodes[dir].size / DENTRY_SIZE then d else EntryOf(fs.data, fs.inodes[dir].slots, j)
  {
    var n := fs.inodes[dir];
    var k := n.size / DENTRY_SIZE;
    assert n.size % DENTRY_SIZE == 0 by {
      assert InodeOk(n);
    }
    GrownCount(n.size);
    if j < k {
      EntryInBlock(fs, dir, j);
    }
    EntryAfter(fs.data, slots, k, blk, d, j);
  }

  /** The entries after growing: one more, unused. */
  lemma EntriesGrown(fs: Fs, dir: nat, slots: seq<nat>) returns (d: Dentry)
    requires Shape(fs) && Ownership(fs) && IsDir(fs, dir) && Extends(fs.inodes[dir], slots)
    requires slots[fs.inodes[dir].size / BLOCK_SIZE] < |fs.data|
    ensures !d.Live()
    ensures var fs' := AddDentry(fs, dir, slots);
            EntriesOf(fs'.data, fs'.inodes[dir]) == EntriesOf(fs.data, fs.inodes[dir]) + [d]
  {
    hide Decode, PutIno, Mapped, InodeOk, Splice, EntryOf, DentryAt, Ownership;
    var n := fs.inodes[dir];
    var k := n.size / DENTRY_SIZE;
    assert n.size % DENTRY_SIZE == 0 by {
      DirSize(fs, dir);
    }
    GrownCount(n.size);
    var i := n.size % BLOCK_SIZE / DENTRY_SIZE;
    var b := slots[n.size / BLOCK_SIZE];
    var blk := PutIno(fs.data[b], i, RESERVED_INO);
    d := Kill(DentryAt(fs.data[b], i));
    DeadRecord(fs.data[b], i);
    forall j: nat | j <= k
      ensures EntryOf(fs.data[b := blk], slots, j) == if j == k then d else EntryOf(fs.data, n.slots, j)
    {
      GrownEntry(fs, dir, slots, blk, d, j);
    }
    GrownEntry(fs, dir, slots, blk, d, k);
    var fs' := AddDentry(fs, dir, slots);
    assert fs'.data == fs.data[b := blk] && fs'.inodes[dir].slots == slots;
    assert fs'.inodes[dir].size / DENTRY_SIZE == k + 1;
    var es, es' := EntriesOf(fs.data, n), EntriesOf(fs'.data, fs'.inodes[dir]);
    assert forall j: nat :: j < k ==> es[j] == EntryOf(fs.data, n.slots, j);
    assert forall j: nat :: j <= k ==> es'[j] == EntryOf(fs.data[b := blk], slots, j);
    assert es'[k] == d && forall j: nat :: j < k ==> es'[j] == es[j];
    assert es' == es + [d];
  }

  /** fs1 is fs after a new block has been taken, if the directory needs one. */
  ghost predicate GrowBlock(fs: Fs, fs1: Fs, dir: nat, b: nat)
    requires dir < |fs.inodes|
  {
    if fs.inodes[dir].size % BLOCK_SIZE == 0
    then b != RESERVED_DNO && b !in fs.dused && b < |fs.data| && fs1 == fs.(dused := fs.dused + {b})
    else fs1 == fs
  }

  ghost predicate GrowReady(fs: Fs, fs1: Fs, dir: nat, b: nat)
    requires dir < |fs.inodes| == |fs1.inodes|
  {
    var n := fs.inodes[dir];
    && fs1.inodes[dir] == n
    && n.size / BLOCK_SIZE < IBLOCKS == |n.slots|
    && GrownSlots(n, b)[n.size / BLOCK_SIZE] < |fs1.data|
    && |fs1.data[GrownSlots(n, b)[n.size / BLOCK_SIZE]]| == BLOCK_SIZE
  }

  lemma GrowTouches(fs: Fs, fs1: Fs, dir: nat, b: nat, blk: Block)
    requires Shape(fs) && Ownership(fs) && IsDir(fs, dir) && fs.inodes[dir].size / DENTRY_SIZE != MAX_DENTRYS
    requires GrowBlock(fs, fs1, dir, b) && |blk| == BLOCK_SIZE
    ensures GrowReady(fs, fs1, dir, b) && Extends(fs.inodes[dir], GrownSlots(fs.inodes[dir], b))
    ensures var n := fs.inodes[dir];
            var slots := GrownSlots(n, b);
            var fs' := Rewrite(fs1, fs1.dused, dir, n.(slots := slots, size := n.size + DENTRY_SIZE),
                               slots[n.size / BLOCK_SIZE], blk);
            OnlyInode(fs, fs', dir) && Ownership(fs') && IsDir(fs', dir) && fs1.dused == fs.dused + Blocks(slots)
            && Blocks(n.slots) <= Blocks(slots)
  {
    hide OnlyInode, EntriesOf, Mapped;
    var n := fs.inodes[dir];
    assert InodeOk(n);
    RoomForDentry(fs, dir);
    GrownInode(n, b);
    var slots := GrownSlots(n, b);
    assert slots[n.size / BLOCK_SIZE] in Blocks(slots);
    var n' := n.(slots := slots, size := n.size + DENTRY_SIZE);
    RewriteTouches(fs, fs1.dused, dir, n', slots[n.size / BLOCK_SIZE], blk);
  }

  /** Growing a directory keeps everything; its entries gain an unused one. */
  lemma GrowKeeps(fs: Fs, fs1: Fs, dir: nat, b: nat) returns (d: Dentry)
    requires Inv(fs) && IsDir(fs, dir) && fs.inodes[dir].size / DENTRY_SIZE != MAX_DENTRYS
    requires GrowBlock(fs, fs1, dir, b)
    ensures GrowReady(fs, fs1, dir, b) && !d.Live()
    ensures var fs' := AddDentry(fs1, dir, GrownSlots(fs.inodes[dir], b));
      && Inv(fs') && OnlyInode(fs, fs', dir) && IsDir(fs', dir)
      && fs'.dused == fs.dused + Blocks(fs'.inodes[dir].slots)
      && Blocks(fs.inodes[dir].slots) <= Blocks(fs'.inodes[dir].slots)
      && DirsOf(fs') == DirsOf(fs)[dir := DirsOf(fs)[dir] + [d]]
  {
    hide Blocks;
    hide OnlyInode, Ownership, Links, IsTree, InodeOk, EntriesOf, DirsOf, PutIno, Mapped, Extends;
    var n := fs.inodes[dir];
    var i := n.size % BLOCK_SIZE / DENTRY_SIZE;
    GrowTouches(fs, fs1, dir, b, fs.data[0]);
    var slots := GrownSlots(n, b);
    GrowTouches(fs, fs1, dir, b, PutIno(fs.data[slots[n.size / BLOCK_SIZE]], i, RESERVED_INO));
    d := EntriesGrown(fs, dir, slots);
    DirsAt(fs, dir);
    GrowFinish(fs, AddDentry(fs1, dir, slots), dir, d);
  }

  lemma GrowFinish(fs: Fs, fs': Fs, dir: nat, d: Dentry)
    requires Inv(fs) && IsDir(fs, dir) && !d.Live()
    requires OnlyInode(fs, fs', dir) && Ownership(fs') && IsDir(fs', dir)
    requires fs'.inodes[dir].nlink == fs.inodes[dir].nlink
    requires EntriesOf(fs'.data, fs'.inodes[dir]) == DirsOf(fs)[dir] + [d]
    ensures Inv(fs') && DirsOf(fs') == DirsOf(fs)[dir := DirsOf(fs)[dir] + [d]]
  {
    hide Ownership, Links, IsTree, EntriesOf, DirsOf;
    DirsAt(fs, dir);
    var es := DirsOf(fs)[dir];
    assert DirsOf(fs') == DirsOf(fs)[dir := es + [d]] by {
      DirsStep(fs, fs', dir);
    }
    assert LiveCount(es + [d]) == LiveCount(es) by {
      CountPut(es, |es|, d);
    }
    LinksAt(fs, dir);
    assert LiveInodes(fs') == LiveInodes(fs);
    assert Links(fs') by {
      LinksStep(fs, fs', dir);
    }
    DeadKeepsTree(DirsOf(fs), LiveInodes(fs), dir, d);
  }

  /** The directory ends up with an unused entry k: an old one, or one just
      appended to it. */
  ghost predicate SlotFound(fs: Fs, fs': Fs, dir: nat, k: nat) {
    && Inv(fs') && OnlyInode(fs, fs', dir) && IsDir(fs', dir) && fs'.iused == fs.iused && fs'.sb == fs.sb
    && fs'.dused == fs.dused + Blocks(fs'.inodes[dir].slots) && Filled(fs.dused, fs'.dused)
    && dir < |fs.inodes| && Blocks(fs.inodes[dir].slots) <= Blocks(fs'.inodes[dir].slots)
    && dir in DirsOf(fs) && dir in DirsOf(fs') && HasEntry(fs', dir, k)
    && k < |DirsOf(fs')[dir]| && !DirsOf(fs')[dir][k].Live()
    && DirsOf(fs') == DirsOf(fs)[dir := DirsOf(fs')[dir]]
    && (DirsOf(fs')[dir] == DirsOf(fs)[dir]
        || (k == |DirsOf(fs)[dir]| && DirsOf(fs')[dir] == DirsOf(fs)[dir] + [DirsOf(fs')[dir][k]]))
  }

  /** An unused entry is reused: the search leaves everything as it was and
      returns the first one. */
  lemma FreeDentryReuses(fs: Fs, dir: nat, j: nat)
    requires Shape(fs) && Ownership(fs) && IsDir(fs, dir)
    requires var es := EntriesOf(fs.data, fs.inodes[dir]); j < |es| && !es[j].Live()
    ensures var r := FreeDentry(fs, dir);
            var es := EntriesOf(fs.data, fs.inodes[dir]);
      && r.fs == fs && r.res.Ok? && r.res.value <= j
      && !es[r.res.value].Live() && forall i :: 0 <= i < r.res.value ==> es[i].Live()
  {
    hide EntriesOf, Ownership;
  }

  /** The directory has no unused entry, and room for one more. */
  predicate Grows(fs: Fs, dir: nat)
    requires dir < |fs.inodes|
  {
    var es := EntriesOf(fs.data, fs.inodes[dir]);
    && LiveCount(es) == |es| && |es| != MAX_DENTRYS
    && (|es| % DENTRYS_PER_BLOCK == 0 ==> GetDblock(fs).res != RESERVED_DNO)
  }

  /** The inode of a directory after an entry has been looked for: it grows by one
      entry exactly when none is unused, and then by a block when one is due. */
  function GrownDir(fs: Fs, dir: nat): Inode
    requires dir < |fs.inodes| && |fs.inodes[dir].slots| == IBLOCKS
  {
    var n := fs.inodes[dir];
    var blk := n.size / BLOCK_SIZE;
    if !Grows(fs, dir) then n
    else n.(size := n.size + DENTRY_SIZE,
            slots := if n.size % BLOCK_SIZE == 0 && blk < IBLOCKS
                     then n.slots[blk := Least(fs.dused, fs.sb.DataBits())] else n.slots)
  }

  /** The search returns the first unused entry, or else the one past the end. */
  lemma FreeDentryExactly(fs: Fs, dir: nat)
    requires Shape(fs) && Ownership(fs) && IsDir(fs, dir)
    ensures |fs.inodes[dir].slots| == IBLOCKS
    ensures var r := FreeDentry(fs, dir);
            var es := EntriesOf(fs.data, fs.inodes[dir]);
      && (r.res.Ok? ==> r.res.value == FirstDead(es))
      && (r.res.Ok? <==> LiveCount(es) < |es| || Grows(fs, dir))
      && (LiveCount(es) < |es| ==> r.fs == fs)
      && r.fs.iused == fs.iused && r.fs.sb == fs.sb
      && r.fs.inodes == fs.inodes[dir := GrownDir(fs, dir)]
  {
    hide EntriesOf, Ownership, Least, Taken, PutIno, LiveCount, FirstDead;
    FullMeansAllLive(EntriesOf(fs.data, fs.inodes[dir]));
    DirSize(fs, dir);
    GrownCount(fs.inodes[dir].size);
    if fs.inodes[dir].size / DENTRY_SIZE != MAX_DENTRYS {
      RoomForDentry(fs, dir);
    }
  }

  /** Appending an entry writes its inode number, and no other byte. */
  lemma FreeDentryWritesOnly(fs: Fs, dir: nat)
    requires Shape(fs) && Ownership(fs) && IsDir(fs, dir)
    ensures |fs.inodes[dir].slots| == IBLOCKS
    ensures var r := FreeDentry(fs, dir);
            var k := FirstDead(EntriesOf(fs.data, fs.inodes[dir]));
      && (!Grows(fs, dir) ==> r.fs.data == fs.data)
      && (Grows(fs, dir) ==>
            && k < MAX_DENTRYS
            && OnlyBytes(fs.data, r.fs.data, GrownDir(fs, dir).slots[k / DENTRYS_PER_BLOCK],
                         k % DENTRYS_PER_BLOCK * DENTRY_SIZE, 4))
  {
    hide EntriesOf, Ownership, Least, Taken, LiveCount, FirstDead;
    FullMeansAllLive(EntriesOf(fs.data, fs.inodes[dir]));
    DirSize(fs, dir);
    GrownCount(fs.inodes[dir].size);
    if fs.inodes[dir].size / DENTRY_SIZE != MAX_DENTRYS {
      RoomForDentry(fs, dir);
    }
  }

  /** Finding a slot keeps everything and yields an unused entry. */
  lemma FreeDentrySlot(fs: Fs, dir: nat)
    requires Inv(fs) && IsDir(fs, dir)
    ensures var r := FreeDentry(fs, dir);
      match r.res
      case Ok(k) => SlotFound(fs, r.fs, dir, k)
      case Fail(_) => r.fs == fs.(dused := r.fs.dused) && Inv(r.fs)
                      && Filled(fs.dused, r.fs.dused) && r.fs.dused <= fs.dused + {RESERVED_DNO}
  {
    hide OnlyInode, InodeOk, PutIno, Mapped, IsTree, Links, Ownership, EntriesOf, DirsOf, Blocks;
    var n := fs.inodes[dir];
    DirsAt(fs, dir);
    var es := DirsOf(fs)[dir];
    var k := FirstDead(es);
    if k < |es| {
      FoundInPlace(fs, dir, k);
    } else if n.size / DENTRY_SIZE != MAX_DENTRYS {
      DirSize(fs, dir);
      GrownCount(n.size);
      if n.size % BLOCK_SIZE == 0 {
        GetDblockFresh(fs);
        var got := GetDblock(fs);
        if got.res == RESERVED_DNO {
          DusedIrrelevant(fs, got.fs);
        } else {
          var d := GrowKeeps(fs, got.fs, dir, got.res);
        }
      } else {
        var d := GrowKeeps(fs, fs, dir, 0);
      }
    }
  }

  lemma FoundInPlace(fs: Fs, dir: nat, k: nat)
    requires Inv(fs) && IsDir(fs, dir)
    requires k < |EntriesOf(fs.data, fs.inodes[dir])| && !EntriesOf(fs.data, fs.inodes[dir])[k].Live()
    ensures SlotFound(fs, fs, dir, k)
  {
    hide IsTree, Links, InodeOk, EntriesOf, DirsOf, Mapped;
    DirsAt(fs, dir);
    EntryInBlock(fs, dir, k);
    assert Blocks(fs.inodes[dir].slots) <= fs.dused;
    assert OnlyInode(fs, fs, dir);
  }

  /** More used blocks change nothing else. */
  lemma DusedIrrelevant(fs: Fs, fs': Fs)
    requires Inv(fs) && fs' == fs.(dused := fs'.dused) && fs.dused <= fs'.dused && Shape(fs')
    ensures Inv(fs')
  {
    assert DirsOf(fs') == DirsOf(fs);
    assert forall i: nat :: LinkOk(fs', i) <==> LinkOk(fs, i);
  }

  /** Finding a slot keeps everything and yields the first unused entry, with the
      state as it was, or one appended to the directory when there is none. */
  lemma FreeDentryFinds(fs: Fs, dir: nat)
    requires Inv(fs) && IsDir(fs, dir)
    ensures var r := FreeDentry(fs, dir);
            var es := EntriesOf(fs.data, fs.inodes[dir]);
      match r.res
      case Ok(k) => SlotFound(fs, r.fs, dir, k) && k == FirstDead(es) && (k < |es| ==> r.fs == fs)
      case Fail(_) => r.fs == fs.(dused := r.fs.dused) && Inv(r.fs)
                      && Filled(fs.dused, r.fs.dused) && r.fs.dused <= fs.dused + {RESERVED_DNO}
  {
    hide Inv, EntriesOf, SlotFound, FreeDentry, LiveCount, FirstDead, Filled, GrownDir, Grows;
    InvOwnership(fs);
    FreeDentrySlot(fs, dir);
    FreeDentryExactly(fs, dir);
    FullMeansAllLive(EntriesOf(fs.data, fs.inodes[dir]));
  }

  /** No slot is found exactly when every entry is live and the directory has
      1024 of them, or needs a block and none is left. */
  lemma FreeDentryFailsExactly(fs: Fs, dir: nat)
    requires Shape(fs) && Ownership(fs) && IsDir(fs, dir)
    ensures var es := EntriesOf(fs.data, fs.inodes[dir]);
            FreeDentry(fs, dir).res.Fail? <==>
            LiveCount(es) == |es| && (|es| == MAX_DENTRYS
                                      || (|es| % DENTRYS_PER_BLOCK == 0 && GetDblock(fs).res == RESERVED_DNO))
  {
    hide EntriesOf, Ownership, Least, Taken;
    FullMeansAllLive(EntriesOf(fs.data, fs.inodes[dir]));
    DirSize(fs, dir);
    GrownCount(fs.inodes[dir].size);
  }
}
