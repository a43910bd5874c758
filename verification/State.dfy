/** The state of a mounted file system and what holds of it between operations. */
module State {
  import opened Layout
  import opened Bytes
  import opened Dentries
  import opened Directory
  import opened Namespace

  datatype Kind = Dir | Reg | Other

  /** The parts of an inode the driver acts on. */
  datatype Inode = Inode(kind: Kind, nlink: nat, size: nat, slots: seq<nat>)

  /** The inode table is indexed by inode number, the data section by data block
      number; a bitmap is the set of its used indices. */
  datatype Fs = Fs(sb: Super, iused: set<nat>, dused: set<nat>, inodes: seq<Inode>, data: seq<Block>)

  /** Number of slots before the first reserved one. */
  function Mapped(slots: seq<nat>): (m: nat)
    ensures m <= |slots|
    ensures m < |slots| ==> slots[m] == RESERVED_DNO
    ensures forall j :: 0 <= j < m ==> slots[j] != RESERVED_DNO
  {
    if slots == [] || slots[0] == RESERVED_DNO then 0 else 1 + Mapped(slots[1..])
  }

  lemma MappedIs(slots: seq<nat>, m: nat)
    requires m <= |slots| && (m < |slots| ==> slots[m] == RESERVED_DNO)
    requires forall j :: 0 <= j < m ==> slots[j] != RESERVED_DNO
    ensures Mapped(slots) == m
  {
  }

  /** The data blocks an inode owns. */
  function Blocks(slots: seq<nat>): (s: set<nat>)
    ensures forall j :: 0 <= j < Mapped(slots) ==> slots[j] in s
    ensures forall b :: b in s ==> b in slots && b != RESERVED_DNO
  {
    ToSet(slots[..Mapped(slots)])
  }

  function ToSet(s: seq<nat>): (r: set<nat>)
    ensures forall b :: b in r <==> b in s
  {
    set b | b in s
  }

  /** Mapped slots come first and are distinct. */
  ghost predicate SlotsOk(slots: seq<nat>) {
    && (forall j :: Mapped(slots) <= j < |slots| ==> slots[j] == RESERVED_DNO)
    && (forall i, j :: 0 <= i < j < Mapped(slots) ==> slots[i] != slots[j])
  }

  function BlockCount(size: nat): nat {
    (size + BLOCK_SIZE - 1) / BLOCK_SIZE
  }

  /** Owned blocks come first and are distinct; a directory owns exactly the
      blocks its size needs, a file at least those. */
  ghost predicate InodeOk(n: Inode) {
    && |n.slots| == IBLOCKS && SlotsOk(n.slots)
    && match n.kind
       case Dir => n.size % DENTRY_SIZE == 0 && BlockCount(n.size) == Mapped(n.slots)
       case Reg => BlockCount(n.size) <= Mapped(n.slots)
       case Other => false
  }

  function LiveInodes(fs: Fs): set<nat> {
    fs.iused - {RESERVED_INO}
  }

  function EntryOf(data: seq<Block>, slots: seq<nat>, k: nat): Dentry {
    var i := k / DENTRYS_PER_BLOCK;
    if i < |slots| && slots[i] < |data| && |data[slots[i]]| == BLOCK_SIZE
    then DentryAt(data[slots[i]], k % DENTRYS_PER_BLOCK)
    else Dentry(0, 0, [])
  }

  /** Everything below i_size, as entries. */
  function EntriesOf(data: seq<Block>, n: Inode): (es: Entries)
    ensures |es| == n.size / DENTRY_SIZE
    ensures forall k :: 0 <= k < |es| ==> es[k] == EntryOf(data, n.slots, k)
  {
    seq(n.size / DENTRY_SIZE, k requires 0 <= k => EntryOf(data, n.slots, k))
  }

  predicate IsDir(fs: Fs, d: nat) {
    d in LiveInodes(fs) && d < |fs.inodes| && fs.inodes[d].kind == Dir
  }

  function DirsOf(fs: Fs): Dirs {
    map d | d in LiveInodes(fs) && IsDir(fs, d) :: EntriesOf(fs.data, fs.inodes[d])
  }

  ghost predicate Shape(fs: Fs) {
    && fs.sb.Ok()
    && |fs.inodes| == fs.sb.Inodes()
    && |fs.data| == fs.sb.DataBits()
    && (forall b :: 0 <= b < |fs.data| ==> |fs.data[b]| == BLOCK_SIZE)
    && {RESERVED_INO, ROOT_INO} <= fs.iused
    && (forall i :: i in fs.iused ==> i < |fs.inodes|)
    && (forall b :: b in fs.dused ==> b < |fs.data|)
  }

  /** Every live inode is well shaped, owns only used blocks, and shares none. */
  ghost predicate Ownership(fs: Fs)
    requires Shape(fs)
  {
    && (forall i :: i in LiveInodes(fs) ==> InodeOk(fs.inodes[i]) && Blocks(fs.inodes[i].slots) <= fs.dused)
    && (forall i, j :: i in LiveInodes(fs) && j in LiveInodes(fs) && i != j ==>
          Blocks(fs.inodes[i].slots) !! Blocks(fs.inodes[j].slots))
  }

  /** The link count inode i must have. */
  ghost predicate LinkOk(fs: Fs, i: nat) {
    i < |fs.inodes| &&
    fs.inodes[i].nlink == if fs.inodes[i].kind == Dir then 1 + LiveCount(EntriesOf(fs.data, fs.inodes[i])) else 1
  }

  /** A directory's link count is one more than its live entries; a file's is 1. */
  ghost predicate Links(fs: Fs) {
    forall i {:trigger LinkOk(fs, i)} :: i in LiveInodes(fs) ==> LinkOk(fs, i)
  }

  /** What every operation keeps. */
  ghost predicate Inv(fs: Fs) {
    && Shape(fs)
    && Ownership(fs)
    && Links(fs)
    && IsTree(DirsOf(fs), LiveInodes(fs))
  }

  lemma InvShape(fs: Fs)
    requires Inv(fs)
    ensures Shape(fs)
  {
  }

  lemma InvOwnership(fs: Fs)
    requires Inv(fs)
    ensures Shape(fs) && Ownership(fs)
  {
  }

  /** The tree of name maps: what a user of the file system sees. */
  ghost function Maps(fs: Fs): map<nat, map<Name, nat>>
    requires Inv(fs)
  {
    map d | d in DirsOf(fs) :: NameMap(DirsOf(fs)[d])
  }

  /** No two (inode, slot index) pairs hold the same data block. */
  lemma SlotsInjective(fs: Fs, i: nat, a: nat, j: nat, b: nat)
    requires Inv(fs) && i in LiveInodes(fs) && j in LiveInodes(fs)
    requires a < Mapped(fs.inodes[i].slots) && b < Mapped(fs.inodes[j].slots)
    requires fs.inodes[i].slots[a] == fs.inodes[j].slots[b]
    ensures i == j && a == b
    ensures fs.inodes[i].slots[a] in fs.dused
  {
  }

  /** Entry k of a directory lies in an owned block, inside the data section. */
  lemma EntryInBlock(fs: Fs, d: nat, k: nat)
    requires Shape(fs) && Ownership(fs) && IsDir(fs, d) && k < fs.inodes[d].size / DENTRY_SIZE
    ensures k / DENTRYS_PER_BLOCK < Mapped(fs.inodes[d].slots) <= IBLOCKS == |fs.inodes[d].slots|
    ensures fs.inodes[d].slots[k / DENTRYS_PER_BLOCK] in Blocks(fs.inodes[d].slots)
    ensures fs.inodes[d].slots[k / DENTRYS_PER_BLOCK] < |fs.data|
  {
  }

  /** Only inode i and its blocks change, and i acquires only unused blocks. */
  ghost predicate OnlyInode(fs: Fs, fs': Fs, i: nat) {
    && Shape(fs) && Shape(fs') && fs'.sb == fs.sb
    && LiveInodes(fs') == LiveInodes(fs) + {i}
    && fs.dused <= fs'.dused
    && (forall j :: 0 <= j < |fs.inodes| && j != i ==> fs'.inodes[j] == fs.inodes[j])
    && Blocks(fs'.inodes[i].slots) <= fs'.dused
    && (forall b :: b in Blocks(fs'.inodes[i].slots) ==>
          b !in fs.dused || (i in LiveInodes(fs) && b in Blocks(fs.inodes[i].slots)))
    && (forall b :: 0 <= b < |fs.data| && b !in Blocks(fs'.inodes[i].slots) ==> fs'.data[b] == fs.data[b])
  }

  lemma OwnershipStep(fs: Fs, fs': Fs, i: nat)
    requires OnlyInode(fs, fs', i) && Ownership(fs) && InodeOk(fs'.inodes[i])
    ensures Ownership(fs')
  {
  }

  lemma OthersKept(fs: Fs, fs': Fs, i: nat)
    requires OnlyInode(fs, fs', i) && Ownership(fs) && Ownership(fs')
    ensures forall d: nat :: d != i ==> (IsDir(fs', d) <==> IsDir(fs, d))
    ensures forall d: nat :: d != i && IsDir(fs, d) ==>
      EntriesOf(fs'.data, fs'.inodes[d]) == EntriesOf(fs.data, fs.inodes[d])
  {
  }

  lemma DirsAt(fs: Fs, d: nat)
    ensures d in DirsOf(fs) <==> IsDir(fs, d)
    ensures IsDir(fs, d) ==> DirsOf(fs)[d] == EntriesOf(fs.data, fs.inodes[d])
  {
  }

  lemma LinksAt(fs: Fs, d: nat)
    requires Shape(fs) && Links(fs) && IsDir(fs, d)
    ensures fs.inodes[d].nlink == 1 + LiveCount(EntriesOf(fs.data, fs.inodes[d]))
  {
    assert LinkOk(fs, d);
  }

  /** The directories afterwards: only i's entry list can differ. */
  lemma DirsStep(fs: Fs, fs': Fs, i: nat)
    requires OnlyInode(fs, fs', i) && Ownership(fs) && Ownership(fs')
    requires IsDir(fs, i) ==> IsDir(fs', i)
    ensures DirsOf(fs') == if IsDir(fs', i) then DirsOf(fs)[i := EntriesOf(fs'.data, fs'.inodes[i])] else DirsOf(fs)
  {
    OthersKept(fs, fs', i);
    MapsEqual(DirsOf(fs'), if IsDir(fs', i) then DirsOf(fs)[i := EntriesOf(fs'.data, fs'.inodes[i])] else DirsOf(fs));
  }

  lemma MapsEqual<K, V>(a: map<K, V>, b: map<K, V>)
    requires a.Keys == b.Keys && forall k :: k in a ==> a[k] == b[k]
    ensures a == b
  {
  }

  lemma LinksStep(fs: Fs, fs': Fs, i: nat)
    requires OnlyInode(fs, fs', i) && Ownership(fs) && Ownership(fs') && Links(fs)
    requires fs'.inodes[i].nlink ==
             if fs'.inodes[i].kind == Dir then 1 + LiveCount(EntriesOf(fs'.data, fs'.inodes[i])) else 1
    ensures Links(fs')
  {
    OthersKept(fs, fs', i);
    forall d | d in LiveInodes(fs')
      ensures LinkOk(fs', d)
    {
      assert d != i ==> LinkOk(fs, d);
    }
  }

  /** Inode i replaced by n and block b by blk, with `dused` the used blocks. */
  function Rewrite(fs: Fs, dused: set<nat>, i: nat, n: Inode, b: nat, blk: Block): Fs
    requires i < |fs.inodes| && b < |fs.data|
  {
    fs.(dused := dused, inodes := fs.inodes[i := n], data := fs.data[b := blk])
  }

  ghost predicate SameOutside(a: Block, b: Block, off: nat, n: nat)
    requires |b| == |a|
  {
    forall o :: 0 <= o < |a| && !(off <= o < off + n) ==> b[o] == a[o]
  }

  /** The data section has changed at most in n bytes of block b, from byte off on. */
  ghost predicate OnlyBytes(data: seq<Block>, data': seq<Block>, b: nat, off: nat, n: nat) {
    && |data'| == |data|
    && (forall x :: 0 <= x < |data| && x != b ==> data'[x] == data[x])
    && (b < |data| ==> |data'[b]| == |data[b]| && SameOutside(data[b], data'[b], off, n))
  }

  /** Writing an own block, with no slot given up and none taken from others. */
  lemma RewriteTouches(fs: Fs, dused: set<nat>, i: nat, n: Inode, b: nat, blk: Block)
    requires Shape(fs) && Ownership(fs) && i in LiveInodes(fs)
    requires InodeOk(n) && b in Blocks(n.slots) && b < |fs.data| && |blk| == BLOCK_SIZE
    requires fs.dused <= dused && Blocks(n.slots) <= dused && forall x :: x in dused ==> x < |fs.data|
    requires forall x :: x in Blocks(n.slots) ==> x !in fs.dused || x in Blocks(fs.inodes[i].slots)
    ensures OnlyInode(fs, Rewrite(fs, dused, i, n, b, blk), i)
    ensures Ownership(Rewrite(fs, dused, i, n, b, blk))
  {
    OwnershipStep(fs, Rewrite(fs, dused, i, n, b, blk), i);
  }

  /** The maps after one directory's entries have changed. */
  lemma MapsStep(fs: Fs, fs': Fs, dir: nat, es: Entries)
    requires Inv(fs) && Inv(fs') && DirsOf(fs') == DirsOf(fs)[dir := es]
    ensures NamesOk(es) && Maps(fs') == Maps(fs)[dir := NameMap(es)]
  {
    hide Inv, DirsOf, NameMap, NamesOk;
    assert GoodNames(DirsOf(fs)) && GoodNames(DirsOf(fs')) && dir in DirsOf(fs') by {
      InvGoodNames(fs);
      InvGoodNames(fs');
    }
    MapsEqual(Maps(fs'), Maps(fs)[dir := NameMap(es)]);
  }

  lemma MapsAt(fs: Fs, dir: nat)
    requires Inv(fs)
    ensures dir in Maps(fs) <==> IsDir(fs, dir)
    ensures dir in Maps(fs) ==>
      dir in DirsOf(fs) && NamesOk(DirsOf(fs)[dir]) && Maps(fs)[dir] == NameMap(DirsOf(fs)[dir])
  {
  }

  lemma InvGoodNames(fs: Fs)
    requires Inv(fs)
    ensures GoodNames(DirsOf(fs))
  {
  }
}
