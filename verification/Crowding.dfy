/** Runs that fill the root directory: a full one makes a create derail, and one
    that ends inside a block makes a resumed listing wrong. */
module Crowding {
  import opened Layout
  import opened Bytes
  import opened FirstFit
  import opened Dentries
  import opened Directory
  import opened State
  import opened Alloc
  import opened Slots
  import opened Creation
  import opened Readdir
  import opened Runs
  import opened Compiled
  import opened CompiledRuns
  import opened Witnesses
  import opened Image

  /** A name for each index of a directory entry. */
  function NumberedName(i: nat): (n: Name)
    requires i <= MAX_DENTRYS
    ensures NulFree(n) && Fits(n)
  {
    [(1 + i % 128) as byte, (1 + i / 128) as byte]
  }

  lemma NumberedNameDistinct(i: nat, j: nat)
    requires i < j <= MAX_DENTRYS
    ensures NumberedName(i) != NumberedName(j)
  {
  }

  /** The root has k entries, all live, under the first k numbered names; at
      most k + 2 inodes and k blocks are used. */
  ghost predicate Crowded(fs: Fs, k: nat) {
    && Inv(fs) && |fs.iused| <= k + 2 && |fs.dused| <= k && ROOT_INO in Maps(fs)
    && |Maps(fs)[ROOT_INO]| == k && RootSize(fs) == DENTRY_SIZE * k
    && NumberedOnly(Maps(fs)[ROOT_INO], k)
  }

  ghost predicate NumberedOnly(m: map<Name, nat>, k: nat) {
    forall n :: n in m ==> NumberedBelow(n, k)
  }

  ghost predicate NumberedBelow(n: Name, k: nat) {
    exists i: nat :: i < k && i <= MAX_DENTRYS && n == NumberedName(i)
  }

  lemma FreshNumber(m: map<Name, nat>, k: nat)
    requires NumberedOnly(m, k) && k <= MAX_DENTRYS
    ensures NumberedName(k) !in m
  {
    hide NumberedName;
    forall i: nat | i < k
      ensures NumberedName(i) != NumberedName(k)
    {
      NumberedNameDistinct(i, k);
    }
  }

  lemma NumberAdded(m: map<Name, nat>, k: nat, x: nat)
    requires NumberedOnly(m, k) && k <= MAX_DENTRYS
    ensures NumberedOnly(m[NumberedName(k) := x], k + 1)
  {
    hide NumberedName;
    assert forall n :: NumberedBelow(n, k) ==> NumberedBelow(n, k + 1);
    assert NumberedBelow(NumberedName(k), k + 1);
  }

  lemma FormattedIsCrowded(fs: Fs)
    requires Formatted(fs)
    ensures Crowded(fs, 0)
  {
    hide Inv, Maps;
    FormattedIsGood(fs);
  }

  /** What the VFS lets through for a crowded root. */
  lemma CrowdedMayCreate(fs: Fs, k: nat)
    requires Crowded(fs, k) && k <= MAX_DENTRYS
    ensures Allowed(fs, CreateOp(ROOT_INO, NumberedName(k))) && IsDir(fs, ROOT_INO)
    ensures var es := EntriesOf(fs.data, fs.inodes[ROOT_INO]);
      |es| == k == LiveCount(es) && FirstDead(es) == k
  {
    hide Inv, Maps, NumberedName, EntriesOf, LiveCount, FirstDead;
    DirectoryCounts(fs, ROOT_INO);
    FreshNumber(Maps(fs)[ROOT_INO], k);
    FullMeansAllLive(EntriesOf(fs.data, fs.inodes[ROOT_INO]));
  }

  /** While there is an inode left, the next name can be created, by the compiled
      driver too. */
  lemma CrowdedCreate(fs: Fs, k: nat)
    requires Crowded(fs, k) && k < MAX_DENTRYS && k + 2 < fs.sb.Inodes()
    ensures Allowed(fs, CreateOp(ROOT_INO, NumberedName(k))) && IsDir(fs, ROOT_INO)
    ensures CompiledGuard(fs, CreateOp(ROOT_INO, NumberedName(k)))
    ensures Create(fs, ROOT_INO, NumberedName(k), Reg).res.Ok?
  {
    hide Inv, Maps, NumberedName, EntriesOf, Create, LiveCount, FirstDead, Least, Taken, NumberedOnly, Allowed;
    CrowdedMayCreate(fs, k);
    InvShape(fs);
    LeastAtMostUsed(fs.iused, BITS_PER_BLOCK);
    LeastAtMostUsed(fs.dused, BITS_PER_BLOCK);
    FirstBlockDecides(fs);
    CreateFailsExactly(fs, ROOT_INO, NumberedName(k), Reg);
    if forall i: nat :: i < |fs.inodes| ==> i in fs.iused {
      SubsetSize(Segment(|fs.inodes|), fs.iused);
      assert false;
    }
  }

  lemma CrowdedCreated(fs: Fs, k: nat)
    requires Crowded(fs, k) && k < MAX_DENTRYS && IsDir(fs, ROOT_INO)
    requires Create(fs, ROOT_INO, NumberedName(k), Reg).res.Ok?
    ensures Crowded(Create(fs, ROOT_INO, NumberedName(k), Reg).fs, k + 1)
  {
    hide Inv, NumberedName, EntriesOf, Create, Taken, NumberedOnly, OnlyInode, Filled, Maps, Grows, BlockDue;
    var r := Create(fs, ROOT_INO, NumberedName(k), Reg);
    CrowdedMayCreate(fs, k);
    CreateInserts(fs, ROOT_INO, NumberedName(k), Reg);
    InvShape(fs);
    InvShape(r.fs);
    assert r.fs.iused == fs.iused + {r.res.value};
    NumberAdded(Maps(fs)[ROOT_INO], k, r.res.value);
    FreshNumber(Maps(fs)[ROOT_INO], k);
    InsertedSize(Maps(fs)[ROOT_INO], NumberedName(k), r.res.value);
    assert ROOT_INO in Maps(r.fs) && |Maps(r.fs)[ROOT_INO]| == k + 1;
    CrowdedSize(fs, k, r.fs);
    CrowdedTakes(fs, k, r.fs);
  }

  /** The root has grown by the one entry there was no room for. */
  lemma CrowdedSize(fs: Fs, k: nat, fs': Fs)
    requires Crowded(fs, k) && k < MAX_DENTRYS && IsDir(fs, ROOT_INO)
    requires fs' == Create(fs, ROOT_INO, NumberedName(k), Reg).fs
    requires Inv(fs') && ROOT_INO in Maps(fs') && |Maps(fs')[ROOT_INO]| == k + 1
    ensures ROOT_INO < |fs'.inodes| && RootSize(fs') == DENTRY_SIZE * (k + 1)
  {
    hide Inv, NumberedName, EntriesOf, Create, LiveCount, Taken, NumberedOnly, Maps, Grows, BlockDue;
    CreateGrowsAtMostOne(fs, ROOT_INO, NumberedName(k), Reg);
    DirectoryCounts(fs', ROOT_INO);
  }

  lemma CrowdedTakes(fs: Fs, k: nat, fs': Fs)
    requires Crowded(fs, k) && k < MAX_DENTRYS && IsDir(fs, ROOT_INO)
    requires fs' == Create(fs, ROOT_INO, NumberedName(k), Reg).fs
    ensures |fs'.dused| <= k + 1
  {
    hide Inv, NumberedName, Create, Taken, NumberedOnly, Maps, Grows, BlockDue;
    CreateGrowsAtMostOne(fs, ROOT_INO, NumberedName(k), Reg);
    TakenAtMost(fs.dused, fs.sb.DataBits());
  }

  lemma TakenAtMost(s: set<nat>, n: nat)
    ensures |Taken(s, n)| <= |s| + 1
  {
  }

  /** On a device with enough inodes, k creates give a crowded root. */
  lemma {:induction false} Crowd(fs0: Fs, k: nat) returns (ops: seq<Op>, fs: Fs)
    requires Formatted(fs0) && k <= MAX_DENTRYS && k + 1 < fs0.sb.Inodes()
    ensures ReachedByBoth(fs0, ops, fs) && Crowded(fs, k) && fs.sb == fs0.sb
    decreases k
  {
    hide Inv, Crowded, Allowed, CompiledGuard, Create, ReachesCompiled, NumberedName, Formatted, IsDir;
    FormattedIsGood(fs0);
    if k == 0 {
      ReachesNothing(fs0);
      FormattedIsCrowded(fs0);
      ops, fs := [], fs0;
    } else {
      ops, fs := Crowd(fs0, k - 1);
      CrowdedCreate(fs, k - 1);
      CrowdedCreated(fs, k - 1);
      var op := CreateOp(ROOT_INO, NumberedName(k - 1));
      CrowdedInv(fs, k - 1);
      ReachesCompiledThen(fs0, ops, fs, op);
      ops, fs := ops + [op], Create(fs, ROOT_INO, NumberedName(k - 1), Reg).fs;
      CrowdedInv(fs, k);
      CompiledRunKeeps(fs0, ops, fs);
    }
  }

  lemma CrowdedInv(fs: Fs, k: nat)
    requires Crowded(fs, k)
    ensures Inv(fs)
  {
  }

  /** On every formatted device with 1026 inodes a run of the compiled driver
      without a fault ends in a full root. There a create is documented to fail
      with EIO, and the compiled driver derails. */
  lemma CompiledCreateDerails(fs0: Fs) returns (ops: seq<Op>, fs: Fs, name: Name)
    requires Formatted(fs0) && MAX_DENTRYS + 1 < fs0.sb.Inodes()
    ensures Inv(fs0) && ReachesCompiled(fs0, ops, fs) && Inv(fs)
    ensures Allowed(fs, CreateOp(ROOT_INO, name)) && IsDir(fs, ROOT_INO)
    ensures ApplyCompiled(fs, CreateOp(ROOT_INO, name)) == None
    ensures Create(fs, ROOT_INO, name, Reg).res == Fail(EIO)
  {
    hide Inv, Maps, Allowed, Create, ApplyCompiled, EntriesOf, LiveCount, FirstDead, NumberedName, ReachesCompiled,
      NumberedOnly;
    ops, fs := Crowd(fs0, MAX_DENTRYS);
    name := NumberedName(MAX_DENTRYS);
    CrowdedMayCreate(fs, MAX_DENTRYS);
    CreateFailsExactly(fs, ROOT_INO, name, Reg);
    ApplyCompiledAgrees(fs, CreateOp(ROOT_INO, name));
  }

  /** The position of entry k in a listing. */
  function PosOf(k: nat): nat {
    DENTRY_SIZE * k + 2
  }

  /** A listing from the position of entry k is a scan from entry k. */
  lemma ListFromEntry(fs: Fs, dir: nat, k: nat)
    requires IsDir(fs, dir) && k <= |EntriesOf(fs.data, fs.inodes[dir])|
    ensures var es := EntriesOf(fs.data, fs.inodes[dir]);
      ListFrom(fs, dir, PosOf(k)).Ok? && ListFrom(fs, dir, PosOf(k)).value.emitted == Scanned(es, k, |es|)
  {
    hide EntriesOf, Scanned;
    PosIsEntry(k);
    hide PosOf;
  }

  lemma PosIsEntry(k: nat)
    ensures PosOf(k) >= 2 && (PosOf(k) - 2) % DENTRY_SIZE == 0 && (PosOf(k) - 2) / DENTRY_SIZE == k
  {
  }

  /** Scanning from the last entry emits the first one of its block instead. */
  lemma LastEntryScanned(es: Entries, k: nat)
    requires |es| == k + 1
    ensures Scanned(es, k, |es|) == EmitOf(es[k - k % DENTRYS_PER_BLOCK]) && Listed(es[k..]) == EmitOf(es[k])
  {
    hide EmitOf;
    assert ReadIndex(k, k) == k - k % DENTRYS_PER_BLOCK;
    hide ReadIndex;
    assert Scanned(es, k, k) == [];
    var d := es[k];
    assert es[k..] == [d] && [d][..0] == [];
    assert Listed([]) == [];
  }

  lemma EmitDiffers(d: Dentry, e: Dentry)
    requires d.Live() && e.Live() && d.Emitted() != e.Emitted()
    ensures EmitOf(d) != EmitOf(e)
  {
    assert EmitOf(d)[0].name != EmitOf(e)[0].name;
  }

  /** Resumed at its last entry, the listing of a crowded root shows the wrong
      entry when that entry is not the first of its block. */
  lemma CrowdedResumesWrong(fs: Fs, k: nat)
    requires Crowded(fs, k + 1) && k < MAX_DENTRYS && k % DENTRYS_PER_BLOCK != 0
    ensures IsDir(fs, ROOT_INO) && !ResumesRight(fs, ROOT_INO, k)
  {
    hide Inv, Maps, NumberedName, EntriesOf, LiveCount, NumberedOnly, Scanned, Listed, ListFrom, EmitOf;
    CrowdedMayCreate(fs, k + 1);
    ListFromEntry(fs, ROOT_INO, k);
    var es := EntriesOf(fs.data, fs.inodes[ROOT_INO]);
    RootNames(fs, k - k % DENTRYS_PER_BLOCK, k);
    LastEntryScanned(es, k);
    EmitDiffers(es[k - k % DENTRYS_PER_BLOCK], es[k]);
  }

  lemma RootNames(fs: Fs, j: nat, k: nat)
    requires Inv(fs) && IsDir(fs, ROOT_INO)
    requires var es := EntriesOf(fs.data, fs.inodes[ROOT_INO]);
      j < k < |es| && es[j].Live() && es[k].Live()
    ensures var es := EntriesOf(fs.data, fs.inodes[ROOT_INO]);
      es[j].Emitted() != es[k].Emitted()
  {
    hide Inv, EntriesOf, DirsOf;
    DirsAt(fs, ROOT_INO);
    InvGoodNames(fs);
    var es := DirsOf(fs)[ROOT_INO];
    assert HasName(es, j, es[j].Emitted()) && HasName(es, k, es[k].Emitted());
  }

  /** Listing directory dir from the position of entry k shows entries k and on. */
  ghost predicate ResumesRight(fs: Fs, dir: nat, k: nat)
    requires IsDir(fs, dir)
  {
    var es := EntriesOf(fs.data, fs.inodes[dir]);
    k <= |es| ==>
      ListFrom(fs, dir, PosOf(k)).Ok? && ListFrom(fs, dir, PosOf(k)).value.emitted == Listed(es[k..])
  }

  /** In every state and directory an aligned listing is right. */
  lemma AlignedResumesRight(fs: Fs, dir: nat, k: nat)
    requires IsDir(fs, dir) && k % DENTRYS_PER_BLOCK == 0
    ensures ResumesRight(fs, dir, k)
  {
    hide EntriesOf, Scanned, Listed, ListFrom;
    var es := EntriesOf(fs.data, fs.inodes[dir]);
    if k <= |es| {
      ListFromEntry(fs, dir, k);
      AlignedScan(es, k, |es|);
      assert es[k..|es|] == es[k..];
    }
  }

  /** On every formatted device with inodes for them, k + 1 creates make a root
      whose listing from entry k is wrong. */
  lemma MisalignedResumesWrong(fs0: Fs, k: nat) returns (ops: seq<Op>, fs: Fs)
    requires Formatted(fs0) && k < MAX_DENTRYS && k % DENTRYS_PER_BLOCK != 0 && k + 2 < fs0.sb.Inodes()
    ensures Inv(fs0) && ReachesCompiled(fs0, ops, fs)
    ensures IsDir(fs, ROOT_INO) && !ResumesRight(fs, ROOT_INO, k)
  {
    hide Inv, Crowded, Formatted, ReachesCompiled, ResumesRight;
    ops, fs := Crowd(fs0, k + 1);
    CrowdedResumesWrong(fs, k);
  }

  lemma SomeFormatted(bnr: nat) returns (fs: Fs)
    requires 64 <= bnr < TWO32
    ensures Formatted(fs) && fs.sb.Inodes() == AlignDown(bnr, INODES_PER_BLOCK)
  {
    hide Mount, Format, Geometry, Formatted;
    var img := Zeros(bnr * BLOCK_SIZE);
    FormatThenMount(img, bnr, 0, 0);
    FormatGeometry(bnr);
    fs := Mount(Format(img, Geometry(bnr), 0, 0)).value;
  }

  lemma RunIsReached(fs0: Fs, ops: seq<Op>, fs: Fs)
    requires Formatted(fs0) && Inv(fs0) && ReachesCompiled(fs0, ops, fs)
    ensures Reached(fs)
  {
    hide Inv, Formatted, ReachesCompiled, Reaches;
    CompiledRunAgrees(fs0, ops, fs);
    FormattedIsGood(fs0);
    assert ReachedBy(fs0, ops, fs);
  }

  ghost predicate AlwaysResumesRight(k: nat) {
    forall fs, dir :: Reached(fs) && IsDir(fs, dir) ==> ResumesRight(fs, dir, k)
  }

  /** A listing resumed at entry k is right in every reachable state exactly when
      the entry is the first of its block. */
  lemma ListingRightIffAligned(k: nat)
    requires k < MAX_DENTRYS
    ensures AlwaysResumesRight(k) <==> k % DENTRYS_PER_BLOCK == 0
  {
    hide Reached, ResumesRight, IsDir, Formatted, ReachesCompiled;
    if k % DENTRYS_PER_BLOCK == 0 {
      forall fs, dir | Reached(fs) && IsDir(fs, dir)
        ensures ResumesRight(fs, dir, k)
      {
        AlignedResumesRight(fs, dir, k);
      }
    } else {
      var fs0 := SomeFormatted(2048);
      var ops, fs := MisalignedResumesWrong(fs0, k);
      RunIsReached(fs0, ops, fs);
    }
  }
}
