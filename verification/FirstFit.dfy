/** The allocator seen as a flat set of used indices below a limit. */
module FirstFit {
  /** The least index in [lo, n) outside s, or n when there is none. */
  function LeastFrom(s: set<nat>, lo: nat, n: nat): (k: nat)
    requires lo <= n
    ensures lo <= k <= n
    ensures k < n ==> k !in s
    ensures forall j :: lo <= j < k ==> j in s
    decreases n - lo
  {
    if lo == n || lo !in s then lo else LeastFrom(s, lo + 1, n)
  }

  function Least(s: set<nat>, n: nat): (k: nat)
    ensures k <= n
    ensures k < n ==> k !in s
    ensures forall j: nat :: j < k ==> j in s
  {
    LeastFrom(s, 0, n)
  }

  /** The set after first fit has taken an index: unchanged when all are used. */
  function Taken(s: set<nat>, n: nat): set<nat> {
    if Least(s, n) < n then s + {Least(s, n)} else s
  }

  lemma LeastUnique(s: set<nat>, n: nat, k: nat)
    requires k <= n && (k < n ==> k !in s)
    requires forall j: nat :: j < k ==> j in s
    ensures Least(s, n) == k
  {
  }

  /** The indices below k. */
  function Segment(k: nat): (r: set<nat>)
    ensures forall i: nat :: i in r <==> i < k
    ensures |r| == k
  {
    if k == 0 then {} else Segment(k - 1) + {k - 1}
  }

  lemma {:induction false} SubsetSize(a: set<nat>, b: set<nat>)
    requires a <= b
    ensures |a| <= |b|
    ensures |a| == |b| ==> a == b
  {
    if a != {} {
      var x :| x in a;
      SubsetSize(a - {x}, b - {x});
    }
  }

  /** Pigeonhole: first fit never goes past the number of used indices. */
  lemma LeastAtMostUsed(s: set<nat>, n: nat)
    ensures Least(s, n) <= |s|
  {
    SubsetSize(Segment(Least(s, n)), s);
  }

  /** With everything used so far below a limit m, first fit stays below m
      exactly while fewer than m indices are used. */
  lemma StaysBelow(s: set<nat>, n: nat, m: nat)
    requires s <= Segment(m) && m <= n
    ensures Least(s, n) < m <==> |s| < m
  {
    LeastAtMostUsed(s, n);
    if Least(s, n) < m {
      assert Least(s, n) in Segment(m) && Least(s, n) !in s;
      SubsetSize(s, Segment(m));
    }
  }

  /** Taking adds exactly one new index, fails exactly when the range is full,
      and giving the index back restores the set. */
  lemma TakeGiveBack(s: set<nat>, n: nat)
    ensures Least(s, n) == n <==> Segment(n) <= s
    ensures Least(s, n) < n ==> Taken(s, n) - {Least(s, n)} == s && |Taken(s, n)| == |s| + 1
  {
  }

  /** t adds to s only what first fit can have added: below each new index
      everything is used. */
  ghost predicate Filled(s: set<nat>, t: set<nat>) {
    s <= t && forall x, y: nat :: x in t && x !in s && y < x ==> y in t
  }

  /** Any number of first-fit steps stays below a limit m exactly while no more
      than m indices are used. */
  lemma FilledStaysBelow(s: set<nat>, t: set<nat>, m: nat)
    requires Filled(s, t) && s <= Segment(m)
    ensures t <= Segment(m) <==> |t| <= m
  {
    if t <= Segment(m) {
      SubsetSize(t, Segment(m));
    } else {
      var x :| x in t && x !in Segment(m);
      SubsetSize(Segment(x + 1), t);
    }
  }

  /** Number of unused indices below n. */
  ghost function ClearBelow(s: set<nat>, n: nat): int {
    n - |s * Segment(n)|
  }

  /** One first-fit step over [0, n) uses up one clear index below l, as long
      as there is one. */
  lemma ClearBelowTaken(s: set<nat>, n: nat, l: nat)
    requires l <= n
    ensures if Least(s, n) < l then ClearBelow(s, l) >= 1 && ClearBelow(Taken(s, n), l) == ClearBelow(s, l) - 1
            else ClearBelow(s, l) == 0 == ClearBelow(Taken(s, n), l)
  {
    var k := Least(s, n);
    if k < l {
      assert (s + {k}) * Segment(l) == s * Segment(l) + {k};
      SubsetSize((s + {k}) * Segment(l), Segment(l));
    } else {
      assert s * Segment(l) == Segment(l) == Taken(s, n) * Segment(l);
    }
  }

  lemma ClearBelowNone(n: nat)
    ensures ClearBelow({}, n) == n
  {
    assert {} * Segment(n) == {};
  }
}
