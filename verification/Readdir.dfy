/** Listing a directory. */
module Readdir {
  import opened Layout
  import opened Dentries
  import opened Directory
  import opened State
  import opened Alloc

  datatype Emit = Emit(name: Name, ino: nat)

  function EmitOf(d: Dentry): seq<Emit> {
    if d.Live() then [Emit(d.Emitted(), d.ino)] else []
  }

  /** Each live entry once, in offset order. */
  function Listed(es: Entries): seq<Emit> {
    if es == [] then [] else Listed(es[..|es| - 1]) + EmitOf(es[|es| - 1])
  }

  /** The entry the scan reads for slot k when it starts at slot k0: the record
      pointer starts at the base of the block, the slot counter at k0. */
  function ReadIndex(k0: nat, k: nat): int {
    if k / DENTRYS_PER_BLOCK == k0 / DENTRYS_PER_BLOCK then k - k0 % DENTRYS_PER_BLOCK else k
  }

  /** What a scan from slot k0 has emitted before slot k. */
  function Scanned(es: Entries, k0: nat, k: nat): seq<Emit>
    requires k <= |es|
  {
    if k <= k0 then [] else Scanned(es, k0, k - 1) + EmitOf(es[ReadIndex(k0, k - 1)])
  }

  /** `yaf_iterate_shared`, every emit accepted: what is emitted after the dots,
      and the position left behind. */
  datatype Listing = Listing(emitted: seq<Emit>, pos: nat)

  function ListFrom(fs: Fs, dir: nat, pos: nat): Result<Listing>
    requires dir < |fs.inodes|
  {
    var n := fs.inodes[dir];
    var es := EntriesOf(fs.data, n);
    var doff := if pos <= 2 then 0 else pos - 2;
    if n.kind != Dir then Fail(ENOTDIR)
    else if doff % DENTRY_SIZE != 0 then Fail(ENOENT)
    else Ok(Listing(Scanned(es, doff / DENTRY_SIZE, |es|), (if doff < n.size then n.size else doff) + 2))
  }

  /** A scan from the first slot of a block emits the rest of the directory. */
  lemma {:induction false} AlignedScan(es: Entries, k0: nat, k: nat)
    requires k0 % DENTRYS_PER_BLOCK == 0 && k0 <= k <= |es|
    ensures Scanned(es, k0, k) == Listed(es[k0..k])
    decreases k
  {
    hide EmitOf;
    if k0 < k {
      AlignedScan(es, k0, k - 1);
      assert ReadIndex(k0, k - 1) == k - 1;
      assert es[k0..k][..k - 1 - k0] == es[k0..k - 1];
    }
  }

  /** Listing from position 0 emits the whole directory and ends past its size. */
  lemma ListFromStart(fs: Fs, dir: nat)
    requires Inv(fs) && IsDir(fs, dir)
    ensures dir < |fs.inodes|
    ensures ListFrom(fs, dir, 0) ==
            Ok(Listing(Listed(EntriesOf(fs.data, fs.inodes[dir])), fs.inodes[dir].size + 2))
  {
    hide Inv, Scanned, Listed, EntryOf;
    var es := EntriesOf(fs.data, fs.inodes[dir]);
    AlignedScan(es, 0, |es|);
    assert es[0..|es|] == es;
  }

  lemma NothingLeft(es: Entries, k0: nat)
    requires |es| <= k0
    ensures Scanned(es, k0, |es|) == []
  {
  }

  /** The end of the block of slot k0, or of the directory. */
  function BlockEndOf(es: Entries, k0: nat): (next: nat)
    requires k0 <= |es|
    ensures k0 <= next <= |es|
  {
    var next := k0 - k0 % DENTRYS_PER_BLOCK + DENTRYS_PER_BLOCK;
    if next < |es| then next else |es|
  }

  /** What a scan from slot k0 emits: as many entries as are left in its block,
      but counted from the base of the block; then the rest. */
  function Shifted(es: Entries, k0: nat): seq<Emit>
    requires k0 <= |es|
  {
    var base := k0 - k0 % DENTRYS_PER_BLOCK;
    Listed(es[base..base + BlockEndOf(es, k0) - k0]) + Listed(es[BlockEndOf(es, k0)..])
  }

  predicate IsBase(base: nat, k0: nat) {
    base == k0 - k0 % DENTRYS_PER_BLOCK
  }

  lemma ScanShifts(es: Entries, k0: nat)
    requires k0 <= |es|
    ensures Scanned(es, k0, |es|) == Shifted(es, k0)
  {
    hide Scanned, Listed;
    var base := k0 - k0 % DENTRYS_PER_BLOCK;
    var next := BlockEndOf(es, k0);
    ScanInBlock(es, k0, base, next);
    ScanPastBlock(es, k0, base, next, |es|);
    assert es[next..|es|] == es[next..];
  }

  /** One step of the scan: inside the first block the record pointer lags. */
  lemma ScanOne(es: Entries, k0: nat, base: nat, k: nat)
    requires IsBase(base, k0) && k0 <= k < |es|
    ensures base <= k0 < base + DENTRYS_PER_BLOCK
    ensures Scanned(es, k0, k + 1) ==
            Scanned(es, k0, k) + EmitOf(es[if k < base + DENTRYS_PER_BLOCK then base + k - k0 else k])
  {
    hide EmitOf;
    assert ReadIndex(k0, k) == if k < base + DENTRYS_PER_BLOCK then base + k - k0 else k;
    hide ReadIndex, IsBase;
  }

  lemma NoneScanned(es: Entries, k: nat)
    requires k <= |es|
    ensures Scanned(es, k, k) == [] == Listed([])
  {
  }

  lemma {:induction false} ScanInBlock(es: Entries, k0: nat, base: nat, k: nat)
    requires IsBase(base, k0) && base <= k0 <= k <= |es| && k <= base + DENTRYS_PER_BLOCK
    ensures Scanned(es, k0, k) == Listed(es[base..base + k - k0])
    decreases k
  {
    hide EmitOf, ReadIndex, IsBase, Listed, Scanned;
    if k0 < k {
      ScanOne(es, k0, base, k - 1);
      ScanInBlock(es, k0, base, k - 1);
      ListedGrows(es, base, base + k - 1 - k0);
      assert base + k - k0 == base + k - 1 - k0 + 1;
    } else {
      NoneScanned(es, k);
      assert es[base..base] == [];
    }
  }

  lemma ListedGrows(es: Entries, lo: nat, hi: nat)
    requires lo <= hi < |es|
    ensures Listed(es[lo..hi + 1]) == Listed(es[lo..hi]) + EmitOf(es[hi])
  {
    hide EmitOf;
    var s := es[lo..hi + 1];
    assert s[..|s| - 1] == es[lo..hi] && s[|s| - 1] == es[hi];
  }

  lemma {:induction false} ScanPastBlock(es: Entries, k0: nat, base: nat, next: nat, k: nat)
    requires IsBase(base, k0) && k0 <= next <= k <= |es|
    requires next == |es| || next == base + DENTRYS_PER_BLOCK
    ensures Scanned(es, k0, k) == Scanned(es, k0, next) + Listed(es[next..k])
    decreases k
  {
    hide EmitOf, ReadIndex, IsBase, Listed, Scanned;
    if next < k {
      ScanPastBlock(es, k0, base, next, k - 1);
      ScanOne(es, k0, base, k - 1);
      ListedGrows(es, next, k - 1);
    } else {
      NoneScanned(es, |es|);
      assert es[next..next] == [];
    }
  }

  /** Listing any inode from any position: which error it returns, the position
      it leaves, and what it emits; from the end of the directory on, nothing. */
  lemma ListFromAnywhere(fs: Fs, i: nat, pos: nat)
    requires i < |fs.inodes|
    ensures var r := ListFrom(fs, i, pos);
            var from := if pos < 2 then 2 else pos;
            var end := fs.inodes[i].size + 2;
      && (r == Fail(ENOTDIR) <==> fs.inodes[i].kind != Dir)
      && (r == Fail(ENOENT) <==> fs.inodes[i].kind == Dir && (from - 2) % DENTRY_SIZE != 0)
      && (r.Ok? <==> fs.inodes[i].kind == Dir && (from - 2) % DENTRY_SIZE == 0)
      && (r.Ok? ==> r.value.pos == if from < end then end else from)
      && (r.Ok? && from >= end ==> r.value.emitted == [])
      && (r.Ok? && from < end ==>
            var es := EntriesOf(fs.data, fs.inodes[i]);
            (from - 2) / DENTRY_SIZE <= |es| && r.value.emitted == Shifted(es, (from - 2) / DENTRY_SIZE))
  {
    hide EntryOf, Scanned, Shifted;
    var es := EntriesOf(fs.data, fs.inodes[i]);
    var k0 := if pos <= 2 then 0 else (pos - 2) / DENTRY_SIZE;
    if k0 >= |es| {
      NothingLeft(es, k0);
    }
    if k0 <= |es| {
      ScanShifts(es, k0);
    }
  }

  /** 1 if the map binds the name to the inode. */
  ghost function Bound(m: map<Name, nat>, e: Emit): nat {
    if e.name in m && m[e.name] == e.ino then 1 else 0
  }

  lemma BoundInsert(m: map<Name, nat>, n: Name, x: nat, e: Emit)
    requires n !in m
    ensures Bound(m[n := x], e) == Bound(m, e) + multiset{Emit(n, x)}[e]
  {
  }

  /** Listing from position 0 shows exactly the name map, each name once. */
  lemma ListShowsMap(fs: Fs, dir: nat, e: Emit)
    requires Inv(fs) && IsDir(fs, dir)
    ensures dir < |fs.inodes| && dir in Maps(fs) && ListFrom(fs, dir, 0).Ok?
    ensures multiset(ListFrom(fs, dir, 0).value.emitted)[e] == Bound(Maps(fs)[dir], e)
    ensures |ListFrom(fs, dir, 0).value.emitted| == fs.inodes[dir].nlink - 1
  {
    hide Ownership, NamesOk, NameMap, EntriesOf, DirsOf, ListFrom;
    ListFromStart(fs, dir);
    MapsAt(fs, dir);
    DirsAt(fs, dir);
    LinksAt(fs, dir);
    ListedIsNameMap(EntriesOf(fs.data, fs.inodes[dir]), e);
  }

  /** Every name is emitted once, with its inode, and nothing else is: a listing
      agrees with lookup. */
  lemma {:induction false} ListedIsNameMap(es: Entries, e: Emit)
    requires NamesOk(es)
    ensures multiset(Listed(es))[e] == Bound(NameMap(es), e)
    ensures |Listed(es)| == LiveCount(es)
  {
    hide NameMap, NamesOk, Bound;
    if es == [] {
      assert Bound(NameMap(es), e) == 0 by {
        NameMapIs([], map[]);
        NoneBound(e);
      }
    } else {
      var n := |es| - 1;
      var d := es[n];
      InitNamesOk(es);
      ListedIsNameMap(es[..n], e);
      if d.Live() {
        InitNameMap(es);
        BoundInsert(NameMap(es[..n]), d.Emitted(), d.ino, e);
        assert multiset(Listed(es)) == multiset(Listed(es[..n])) + multiset{Emit(d.Emitted(), d.ino)};
      } else {
        DeadAppended(es[..n], d);
        assert es[..n] + [d] == es;
      }
    }
  }

  /** A directory has as many live entries as names. */
  lemma {:induction false} LiveEntriesAreNames(es: Entries)
    requires NamesOk(es)
    ensures LiveCount(es) == |NameMap(es)|
  {
    hide NameMap, NamesOk, LiveNames, HasName;
    if es == [] {
      CountZeroIsEmptyMap(es);
    } else {
      var n := |es| - 1;
      InitNamesOk(es);
      LiveEntriesAreNames(es[..n]);
      if es[n].Live() {
        InitNameMap(es);
        InsertedSize(NameMap(es[..n]), es[n].Emitted(), es[n].ino);
      } else {
        DeadAppended(es[..n], es[n]);
        assert es[..n] + [es[n]] == es;
      }
    }
  }

  /** The link count of a directory is one more than its number of names. */
  lemma LinkCountIsNames(fs: Fs, dir: nat)
    requires Inv(fs) && IsDir(fs, dir)
    ensures dir in Maps(fs) && fs.inodes[dir].nlink == 1 + |Maps(fs)[dir]|
  {
    hide Inv, DirsOf, NameMap, NamesOk, EntriesOf;
    MapsAt(fs, dir);
    DirsAt(fs, dir);
    InvLinksAt(fs, dir);
    LiveEntriesAreNames(DirsOf(fs)[dir]);
  }

  lemma InvLinksAt(fs: Fs, dir: nat)
    requires Inv(fs) && IsDir(fs, dir)
    ensures fs.inodes[dir].nlink == 1 + LiveCount(EntriesOf(fs.data, fs.inodes[dir]))
  {
    LinksAt(fs, dir);
  }

  lemma InsertedSize(m: map<Name, nat>, n: Name, x: nat)
    requires n !in m
    ensures |m[n := x]| == |m| + 1
  {
    assert m[n := x].Keys == m.Keys + {n};
  }

  lemma NoneBound(e: Emit)
    ensures Bound(map[], e) == 0
  {
  }

  lemma InitNamesOk(es: Entries)
    requires NamesOk(es) && es != []
    ensures NamesOk(es[..|es| - 1])
  {
    var n := |es| - 1;
    assert forall k, m :: HasName(es[..n], k, m) ==> HasName(es, k, m);
  }

  lemma InitNameMap(es: Entries)
    requires NamesOk(es) && es != [] && es[|es| - 1].Live() && NamesOk(es[..|es| - 1])
    ensures es[|es| - 1].Emitted() !in NameMap(es[..|es| - 1])
    ensures NameMap(es) == NameMap(es[..|es| - 1])[es[|es| - 1].Emitted() := es[|es| - 1].ino]
  {
    hide NameMap, Strncpy;
    var n := |es| - 1;
    var d := es[n];
    assert HasName(es, n, d.Emitted());
    assert forall k, m :: HasName(es[..n], k, m) ==> HasName(es, k, m);
    assert d.WellNamed() && d.Emitted() !in LiveNames(es[..n]);
    assert Put(es[..n], n, d) == es;
    hide NamesOk, Put;
    PutInserts(es[..n], n, d);
  }

  /** Emitted entries come in offset order. */
  lemma {:induction false} ListedInOrder(es: Entries, j: nat, k: nat)
    requires j < k < |es| && es[j].Live() && es[k].Live()
    ensures |Listed(es[..j])| < |Listed(es[..k])| < |Listed(es)|
    ensures Listed(es)[|Listed(es[..j])|] == Emit(es[j].Emitted(), es[j].ino)
    ensures Listed(es)[|Listed(es[..k])|] == Emit(es[k].Emitted(), es[k].ino)
  {
    ListedAt(es, j);
    ListedAt(es, k);
    ListedAt(es[..k], j);
    assert es[..k][..j] == es[..j];
  }

  lemma {:induction false} ListedAt(es: Entries, k: nat)
    requires k < |es| && es[k].Live()
    ensures |Listed(es[..k])| < |Listed(es)|
    ensures Listed(es)[|Listed(es[..k])|] == Emit(es[k].Emitted(), es[k].ino)
  {
    var n := |es| - 1;
    assert Listed(es) == Listed(es[..n]) + EmitOf(es[n]);
    if k < n {
      hide Listed, EmitOf;
      ListedAt(es[..n], k);
      assert es[..n][..k] == es[..k] && es[..n][k] == es[k];
    }
  }
}
