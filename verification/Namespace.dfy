/** All directories together: a tree of inode numbers rooted at inode 1. */
module Namespace {
  import opened Layout
  import opened Dentries
  import opened Directory

  /** Every live directory with its entries. */
  type Dirs = map<nat, Entries>

  /** Entry k of directory d is live and names inode x. */
  ghost predicate Names(dirs: Dirs, d: nat, k: int, x: nat) {
    d in dirs && 0 <= k < |dirs[d]| && dirs[d][k].Live() && dirs[d][k].ino == x
  }

  /** x is n levels below the root. */
  ghost predicate AtDepth(dirs: Dirs, x: nat, n: nat)
    decreases n
  {
    if n == 0 then x == ROOT_INO
    else exists d, k :: Names(dirs, d, k, x) && AtDepth(dirs, d, n - 1)
  }

  ghost predicate Reachable(dirs: Dirs, x: nat) {
    exists n: nat :: AtDepth(dirs, x, n)
  }

  ghost predicate GoodNames(dirs: Dirs) {
    forall d :: d in dirs ==> NamesOk(dirs[d])
  }

  ghost predicate NamesOnlyLive(dirs: Dirs, live: set<nat>) {
    forall d, k, x :: Names(dirs, d, k, x) ==> x in live && x != ROOT_INO
  }

  ghost predicate NamedAtMostOnce(dirs: Dirs) {
    forall d, k, e, l, x :: Names(dirs, d, k, x) && Names(dirs, e, l, x) ==> d == e && k == l
  }

  ghost predicate AllReachable(dirs: Dirs, live: set<nat>) {
    forall x {:trigger Reachable(dirs, x)} :: x in live ==> Reachable(dirs, x)
  }

  /** The live entries form a tree on the live inodes: the root is named by no
      entry, every other live inode by exactly one, entries name nothing else,
      and everything live is reachable. */
  ghost predicate IsTree(dirs: Dirs, live: set<nat>) {
    && ROOT_INO in dirs && RESERVED_INO !in live && dirs.Keys <= live
    && GoodNames(dirs)
    && NamesOnlyLive(dirs, live)
    && NamedAtMostOnce(dirs)
    && AllReachable(dirs, live)
  }

  /** Every live inode but the root has one naming entry. */
  lemma NamedOnce(dirs: Dirs, live: set<nat>, x: nat) returns (d: nat, k: int)
    requires IsTree(dirs, live) && x in live && x != ROOT_INO
    ensures Names(dirs, d, k, x)
    ensures forall e, l :: Names(dirs, e, l, x) ==> e == d && l == k
  {
    assert Reachable(dirs, x);
    var n: nat :| AtDepth(dirs, x, n);
    d, k :| Names(dirs, d, k, x) && AtDepth(dirs, d, n - 1);
  }

  /** There are no cycles: the path from the root has one length. */
  lemma {:induction false} OneDepth(dirs: Dirs, live: set<nat>, x: nat, m: nat, n: nat)
    requires IsTree(dirs, live) && AtDepth(dirs, x, m) && AtDepth(dirs, x, n)
    ensures m == n
    decreases m
  {
    if m > 0 && n > 0 {
      var d, k :| Names(dirs, d, k, x) && AtDepth(dirs, d, m - 1);
      var e, l :| Names(dirs, e, l, x) && AtDepth(dirs, e, n - 1);
      OneDepth(dirs, live, d, m - 1, n - 1);
    }
  }

  /** No directory contains itself. */
  lemma NotOwnParent(dirs: Dirs, live: set<nat>, d: nat, k: int)
    requires IsTree(dirs, live)
    ensures !Names(dirs, d, k, d)
  {
    if Names(dirs, d, k, d) {
      assert Reachable(dirs, d);
      var n: nat :| AtDepth(dirs, d, n);
      assert AtDepth(dirs, d, n + 1);
      OneDepth(dirs, live, d, n, n + 1);
    }
  }

  /** Adding names keeps everything reachable. */
  lemma {:induction false} DepthKept(dirs: Dirs, dirs': Dirs, x: nat, n: nat)
    requires AtDepth(dirs, x, n)
    requires forall d, k, y :: Names(dirs, d, k, y) ==> Names(dirs', d, k, y)
    ensures AtDepth(dirs', x, n)
    decreases n
  {
    if n > 0 {
      var d, k :| Names(dirs, d, k, x) && AtDepth(dirs, d, n - 1);
      DepthKept(dirs, dirs', d, n - 1);
      assert Names(dirs', d, k, x);
    }
  }

  lemma ReachabilityKept(dirs: Dirs, dirs': Dirs, live: set<nat>)
    requires AllReachable(dirs, live)
    requires forall d, k, y :: Names(dirs, d, k, y) ==> Names(dirs', d, k, y)
    ensures AllReachable(dirs', live)
  {
    forall x | x in live
      ensures Reachable(dirs', x)
    {
      assert Reachable(dirs, x);
      var n: nat :| AtDepth(dirs, x, n);
      DepthKept(dirs, dirs', x, n);
    }
  }

  lemma ChildReachable(dirs: Dirs, d: nat, k: int, x: nat)
    requires Reachable(dirs, d) && Names(dirs, d, k, x)
    ensures Reachable(dirs, x)
  {
    assert Reachable(dirs, d);
    var n: nat :| AtDepth(dirs, d, n);
    assert AtDepth(dirs, x, n + 1);
  }

  /** Removing a leaf keeps everything else reachable. */
  lemma {:induction false} DepthWithoutLeaf(dirs: Dirs, dirs': Dirs, leaf: nat, x: nat, n: nat)
    requires AtDepth(dirs, x, n) && x != leaf
    requires forall k, y :: !Names(dirs, leaf, k, y)
    requires forall d, k, y :: Names(dirs, d, k, y) && y != leaf ==> Names(dirs', d, k, y)
    ensures AtDepth(dirs', x, n)
    decreases n
  {
    if n > 0 {
      var d, k :| Names(dirs, d, k, x) && AtDepth(dirs, d, n - 1);
      assert d != leaf;
      DepthWithoutLeaf(dirs, dirs', leaf, d, n - 1);
      assert Names(dirs', d, k, x);
    }
  }

  /** The directories after entry k of dir is set to d, which names a new inode;
      a new directory starts empty. */
  function Grafted(dirs: Dirs, dir: nat, k: nat, d: Dentry, isDir: bool): Dirs
    requires dir in dirs && k <= |dirs[dir]|
  {
    var r := dirs[dir := Put(dirs[dir], k, d)];
    if isDir then r[d.ino := []] else r
  }

  lemma GraftNames(dirs: Dirs, dir: nat, k: nat, d: Dentry, isDir: bool)
    requires dir in dirs && k <= |dirs[dir]| && (k < |dirs[dir]| ==> !dirs[dir][k].Live())
    requires d.Live() && d.ino !in dirs
    ensures forall e, l, x :: Names(Grafted(dirs, dir, k, d, isDir), e, l, x) <==>
                              (e == dir && l == k && x == d.ino) || Names(dirs, e, l, x)
  {
  }

  lemma GraftClosed(dirs: Dirs, dirs': Dirs, live: set<nat>, dir: nat, k: nat, ino: nat)
    requires NamesOnlyLive(dirs, live) && NamedAtMostOnce(dirs) && ino !in live && ino != ROOT_INO
    requires forall e, l, x :: Names(dirs', e, l, x) <==> (e == dir && l == k && x == ino) || Names(dirs, e, l, x)
    ensures NamesOnlyLive(dirs', live + {ino}) && NamedAtMostOnce(dirs')
  {
  }

  lemma GraftGoodNames(dirs: Dirs, dir: nat, k: nat, d: Dentry, isDir: bool)
    requires GoodNames(dirs) && dir in dirs
    requires k <= |dirs[dir]| && (k < |dirs[dir]| ==> !dirs[dir][k].Live())
    requires d.Live() && d.WellNamed() && d.Emitted() !in NameMap(dirs[dir])
    ensures GoodNames(Grafted(dirs, dir, k, d, isDir))
  {
    PutKeepsNamesOk(dirs[dir], k, d);
  }

  lemma GraftReachable(dirs: Dirs, dirs': Dirs, live: set<nat>, dir: nat, k: nat, ino: nat)
    requires AllReachable(dirs, live) && dir in live
    requires forall e, l, x :: Names(dirs', e, l, x) <==> (e == dir && l == k && x == ino) || Names(dirs, e, l, x)
    ensures AllReachable(dirs', live + {ino})
  {
    ReachabilityKept(dirs, dirs', live);
    assert Names(dirs', dir, k, ino);
    ChildReachable(dirs', dir, k, ino);
  }

  lemma GraftKeepsTree(dirs: Dirs, live: set<nat>, dir: nat, k: nat, d: Dentry, isDir: bool)
    requires IsTree(dirs, live) && dir in dirs
    requires k <= |dirs[dir]| && (k < |dirs[dir]| ==> !dirs[dir][k].Live())
    requires d.Live() && d.WellNamed() && d.Emitted() !in NameMap(dirs[dir]) && d.ino !in live
    ensures IsTree(Grafted(dirs, dir, k, d, isDir), live + {d.ino})
  {
    var dirs' := Grafted(dirs, dir, k, d, isDir);
    GraftGoodNames(dirs, dir, k, d, isDir);
    GraftNames(dirs, dir, k, d, isDir);
    GraftReachable(dirs, dirs', live, dir, k, d.ino);
    GraftClosed(dirs, dirs', live, dir, k, d.ino);
  }

  /** The directories after entry k of dir is freed and its inode is gone. */
  function Pruned(dirs: Dirs, dir: nat, k: nat): Dirs
    requires dir in dirs && k < |dirs[dir]|
  {
    (dirs - {dirs[dir][k].ino})[dir := dirs[dir][k := Kill(dirs[dir][k])]]
  }

  lemma PruneKeepsTree(dirs: Dirs, live: set<nat>, dir: nat, k: nat)
    requires IsTree(dirs, live) && dir in dirs && k < |dirs[dir]| && dirs[dir][k].Live()
    requires var x := dirs[dir][k].ino; x in dirs ==> LiveCount(dirs[x]) == 0
    ensures dirs[dir][k].ino != dir
    ensures IsTree(Pruned(dirs, dir, k), live - {dirs[dir][k].ino})
  {
    var leaf := dirs[dir][k].ino;
    var dirs' := Pruned(dirs, dir, k);
    assert Names(dirs, dir, k, leaf);
    NotOwnParent(dirs, live, dir, k);
    KillRemoves(dirs[dir], k, dirs[dir][k].Emitted());
    if leaf in dirs {
      EmptyMeansNoneLive(dirs[leaf]);
    }
    assert forall l, y :: !Names(dirs, leaf, l, y);
    PruneNames(dirs, dir, k);
    forall x | x in live - {leaf}
      ensures Reachable(dirs', x)
    {
      assert Reachable(dirs, x);
      var n: nat :| AtDepth(dirs, x, n);
      DepthWithoutLeaf(dirs, dirs', leaf, x, n);
    }
  }

  lemma PruneNames(dirs: Dirs, dir: nat, k: nat)
    requires NamedAtMostOnce(dirs) && dir in dirs && k < |dirs[dir]| && dirs[dir][k].Live()
    requires dirs[dir][k].ino != dir
    requires forall l, y :: !Names(dirs, dirs[dir][k].ino, l, y)
    ensures forall e, l, x :: Names(Pruned(dirs, dir, k), e, l, x) <==> Names(dirs, e, l, x) && x != dirs[dir][k].ino
  {
    var leaf := dirs[dir][k].ino;
    var dirs' := Pruned(dirs, dir, k);
    assert Names(dirs, dir, k, leaf);
    forall e: nat, l: int, x: nat
      ensures Names(dirs', e, l, x) <==> Names(dirs, e, l, x) && x != leaf
    {
      if e == dir {
        assert dirs'[e] == dirs[e][k := Kill(dirs[e][k])];
        assert l != k && Names(dirs, e, l, x) ==> x != leaf;
      } else if e != leaf && e in dirs {
        assert dirs'[e] == dirs[e];
        assert Names(dirs, e, l, x) ==> x != leaf;
      } else if e == leaf {
        assert !Names(dirs, leaf, l, x);
      }
    }
  }

  /** A further unused entry in one directory leaves the tree as it is. */
  lemma DeadKeepsTree(dirs: Dirs, live: set<nat>, dir: nat, d: Dentry)
    requires IsTree(dirs, live) && dir in dirs && !d.Live()
    ensures IsTree(dirs[dir := dirs[dir] + [d]], live)
  {
    var dirs' := dirs[dir := dirs[dir] + [d]];
    assert GoodNames(dirs') by {
      DeadAppended(dirs[dir], d);
    }
    assert forall e, l, x :: Names(dirs', e, l, x) <==> Names(dirs, e, l, x);
    ReachabilityKept(dirs, dirs', live);
  }
}
