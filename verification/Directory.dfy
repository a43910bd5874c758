/** One directory as the sequence of its entries, and the finite map from names
    to inode numbers that it stands for. */
module Directory {
  import opened Layout
  import opened Dentries

  type Entries = seq<Dentry>

  /** First unused entry, or |es|. */
  function FirstDead(es: Entries): (k: nat)
    ensures k <= |es|
    ensures k < |es| ==> !es[k].Live()
    ensures forall j :: 0 <= j < k ==> es[j].Live()
  {
    if es == [] || !es[0].Live() then 0 else 1 + FirstDead(es[1..])
  }

  /** First live entry whose name field compares equal, or |es|. */
  function Find(es: Entries, n: Name): (k: nat)
    ensures k <= |es|
    ensures k < |es| ==> es[k].Live() && es[k].Matches(n)
    ensures forall j :: 0 <= j < k ==> !(es[j].Live() && es[j].Matches(n))
  {
    if es == [] || (es[0].Live() && es[0].Matches(n)) then 0 else 1 + Find(es[1..], n)
  }

  function LiveCount(es: Entries): (c: nat)
    ensures c <= |es|
  {
    if es == [] then 0
    else (if es[|es| - 1].Live() then 1 else 0) + LiveCount(es[..|es| - 1])
  }

  predicate HasName(es: Entries, k: int, n: Name) {
    0 <= k < |es| && es[k].Live() && es[k].Emitted() == n
  }

  /** Live entries carry storable names, each name once. */
  ghost predicate NamesOk(es: Entries) {
    && (forall k :: 0 <= k < |es| && es[k].Live() ==> es[k].WellNamed())
    && (forall j, k, n :: HasName(es, j, n) && HasName(es, k, n) ==> j == k)
  }

  ghost function LiveNames(es: Entries): (s: set<Name>)
    ensures forall n :: n in s <==> exists k :: HasName(es, k, n)
  {
    var s := set k | 0 <= k < |es| && es[k].Live() :: es[k].Emitted();
    assert forall n :: n in s ==> exists k :: HasName(es, k, n) by {
      forall n | n in s
        ensures exists k :: HasName(es, k, n)
      {
        var k :| 0 <= k < |es| && es[k].Live() && es[k].Emitted() == n;
        assert HasName(es, k, n);
      }
    }
    s
  }

  ghost function IndexOf(es: Entries, n: Name): (k: int)
    requires n in LiveNames(es)
    ensures HasName(es, k, n)
  {
    var k :| HasName(es, k, n);
    k
  }

  /** The map a directory stands for. */
  ghost function NameMap(es: Entries): (m: map<Name, nat>)
    requires NamesOk(es)
    ensures m.Keys == LiveNames(es)
    ensures forall k, n :: HasName(es, k, n) ==> n in m && m[n] == es[k].ino
  {
    map n | n in LiveNames(es) :: es[IndexOf(es, n)].ino
  }

  /** The entries after the slot scan has settled on entry k. */
  function Put(es: Entries, k: nat, d: Dentry): Entries
    requires k <= |es|
  {
    if k < |es| then es[k := d] else es + [d]
  }

  function Kill(d: Dentry): Dentry {
    d.(ino := RESERVED_INO)
  }

  /** Lookup finds a name exactly when it is in the map, and finds its inode. */
  lemma FindRefines(es: Entries, n: Name)
    requires NamesOk(es) && NulFree(n) && Fits(n)
    ensures Find(es, n) < |es| <==> n in NameMap(es)
    ensures Find(es, n) < |es| ==> HasName(es, Find(es, n), n) && es[Find(es, n)].ino == NameMap(es)[n]
  {
    forall k | 0 <= k < |es| && es[k].Live()
      ensures es[k].Matches(n) <==> HasName(es, k, n)
    {
      MatchIsEquality(es[k], n);
    }
  }

  /** A map with the right bindings is the map of the directory. */
  lemma NameMapIs(es: Entries, m: map<Name, nat>)
    requires NamesOk(es)
    requires forall k, n :: HasName(es, k, n) ==> n in m && m[n] == es[k].ino
    requires forall n :: n in m ==> exists k :: HasName(es, k, n)
    ensures NameMap(es) == m
  {
  }

  /** Creating is inserting. */
  lemma PutInserts(es: Entries, k: nat, d: Dentry)
    requires NamesOk(es) && d.Live() && d.WellNamed() && d.Emitted() !in NameMap(es)
    requires k <= |es| && (k < |es| ==> !es[k].Live())
    ensures NamesOk(Put(es, k, d))
    ensures NameMap(Put(es, k, d)) == NameMap(es)[d.Emitted() := d.ino]
    ensures LiveCount(Put(es, k, d)) == LiveCount(es) + 1
  {
    CountPut(es, k, d);
    PutKeepsNamesOk(es, k, d);
    PutNames(es, k, d);
    var es', m' := Put(es, k, d), NameMap(es)[d.Emitted() := d.ino];
    forall j, m | HasName(es', j, m)
      ensures m in m' && m'[m] == es'[j].ino
    {
      assert j == k || HasName(es, j, m);
    }
    forall m | m in m'
      ensures exists j :: HasName(es', j, m)
    {
      assert HasName(es', if m == d.Emitted() then k else IndexOf(es, m), m);
    }
    NameMapIs(es', m');
  }

  lemma PutKeepsNamesOk(es: Entries, k: nat, d: Dentry)
    requires NamesOk(es) && d.Live() && d.WellNamed() && d.Emitted() !in LiveNames(es)
    requires k <= |es| && (k < |es| ==> !es[k].Live())
    ensures NamesOk(Put(es, k, d))
  {
    PutNames(es, k, d);
  }

  lemma PutNames(es: Entries, k: nat, d: Dentry)
    requires k <= |es| && (k < |es| ==> !es[k].Live()) && d.Live()
    ensures forall j, m :: HasName(Put(es, k, d), j, m) <==> (j == k && m == d.Emitted()) || HasName(es, j, m)
    ensures forall j :: 0 <= j < |es| && j != k ==> Put(es, k, d)[j] == es[j]
  {
  }

  /** Deleting is removing. */
  lemma KillRemoves(es: Entries, k: nat, n: Name)
    requires NamesOk(es) && HasName(es, k, n)
    ensures NamesOk(es[k := Kill(es[k])])
    ensures NameMap(es[k := Kill(es[k])]) == NameMap(es) - {n}
    ensures LiveCount(es[k := Kill(es[k])]) == LiveCount(es) - 1
  {
    var es' := es[k := Kill(es[k])];
    CountUpdate(es, k, Kill(es[k]));
    assert forall j, m :: HasName(es', j, m) <==> j != k && HasName(es, j, m);
    NameMapIs(es', NameMap(es) - {n});
  }

  /** A further unused entry changes nothing. */
  lemma DeadAppended(es: Entries, d: Dentry)
    requires NamesOk(es) && !d.Live()
    ensures NamesOk(es + [d]) && NameMap(es + [d]) == NameMap(es) && LiveCount(es + [d]) == LiveCount(es)
  {
    CountPut(es, |es|, d);
    assert forall j, m :: HasName(es + [d], j, m) <==> HasName(es, j, m);
    NameMapIs(es + [d], NameMap(es));
  }

  lemma {:induction false} CountUpdate(es: Entries, k: nat, d: Dentry)
    requires k < |es|
    ensures LiveCount(es[k := d]) ==
            LiveCount(es) - (if es[k].Live() then 1 else 0) + (if d.Live() then 1 else 0)
  {
    var n := |es| - 1;
    if k < n {
      CountUpdate(es[..n], k, d);
      assert es[k := d][..n] == es[..n][k := d];
    } else {
      assert es[k := d][..n] == es[..n];
    }
  }

  lemma CountPut(es: Entries, k: nat, d: Dentry)
    requires k <= |es| && (k < |es| ==> !es[k].Live())
    ensures LiveCount(Put(es, k, d)) == LiveCount(es) + if d.Live() then 1 else 0
  {
    if k < |es| {
      CountUpdate(es, k, d);
    } else {
      assert (es + [d])[..|es|] == es;
    }
  }

  /** All entries are live exactly when the scan finds no free one. */
  lemma {:induction false} FullMeansAllLive(es: Entries)
    ensures FirstDead(es) == |es| <==> LiveCount(es) == |es|
  {
    if es != [] {
      var n := |es| - 1;
      FullMeansAllLive(es[..n]);
      assert forall j :: 0 <= j < n ==> es[..n][j] == es[j];
      assert FirstDead(es[..n]) == if FirstDead(es) < n then FirstDead(es) else n;
    }
  }

  lemma {:induction false} EmptyMeansNoneLive(es: Entries)
    ensures LiveCount(es) == 0 <==> forall k :: 0 <= k < |es| ==> !es[k].Live()
  {
    if es != [] {
      var n := |es| - 1;
      EmptyMeansNoneLive(es[..n]);
      assert forall k :: 0 <= k < n ==> es[..n][k] == es[k];
    }
  }

  /** The link-count test of `yaf_rmdir` tests the name map for emptiness. */
  lemma CountZeroIsEmptyMap(es: Entries)
    requires NamesOk(es)
    ensures LiveCount(es) == 0 <==> NameMap(es) == map[]
  {
    EmptyMeansNoneLive(es);
    assert forall k :: 0 <= k < |es| && es[k].Live() ==> HasName(es, k, es[k].Emitted());
    assert NameMap(es) == map[] <==> LiveNames(es) == {};
  }
}
