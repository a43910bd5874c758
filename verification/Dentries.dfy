/** Directory entries: names in a NUL-padded 24-byte field, and the 32-byte
    records of a directory block. */
module Dentries {
  import opened Layout
  import opened Bytes

  type Name = seq<byte>

  /** What the VFS hands to the driver: at least one byte, no NUL. */
  predicate NulFree(n: Name) {
    n != [] && forall i :: 0 <= i < |n| ==> n[i] != 0
  }

  predicate Fits(n: Name) {
    |n| <= NAME_LEN
  }

  /** C `strncmp(a, b, n) == 0`; past the end of a sequence it reads NUL. */
  predicate StrncmpZero(a: seq<byte>, b: seq<byte>, n: nat) {
    var x := if a == [] then 0 else a[0];
    var y := if b == [] then 0 else b[0];
    n == 0 || (x == y && (x == 0 || StrncmpZero(a[1..], b[1..], n - 1)))
  }

  /** C `strncpy` into an n-byte field: cut at n, padded with NULs. */
  function Strncpy(src: seq<byte>, n: nat): (r: seq<byte>)
    ensures |r| == n
  {
    if n == 0 then []
    else if src == [] || src[0] == 0 then Zeros(n)
    else [src[0]] + Strncpy(src[1..], n - 1)
  }

  lemma {:induction false} StrncpyPads(n: Name, len: nat)
    requires |n| <= len && forall i :: 0 <= i < |n| ==> n[i] != 0
    ensures Strncpy(n, len) == n + Zeros(len - |n|)
  {
    if n != [] {
      StrncpyPads(n[1..], len - 1);
    }
  }

  /** Comparing padded fields is comparing names. */
  lemma {:induction false} StrncmpIsEquality(m: Name, n: Name, len: nat)
    requires |m| <= len && |n| <= len
    requires forall i :: 0 <= i < |m| ==> m[i] != 0
    requires forall i :: 0 <= i < |n| ==> n[i] != 0
    ensures StrncmpZero(Strncpy(m, len), n, len) <==> m == n
  {
    if m == [] || n == [] {
    } else {
      StrncmpIsEquality(m[1..], n[1..], len - 1);
      assert m == [m[0]] + m[1..] && n == [n[0]] + n[1..];
      assert Strncpy(m, len)[1..] == Strncpy(m[1..], len - 1);
    }
  }

  datatype Dentry = Dentry(ino: nat, len: nat, name: seq<byte>) {
    predicate Live() { ino != RESERVED_INO }

    /** The name a listing emits. */
    function Emitted(): Name { if len <= |name| then name[..len] else name }

    /** The name test of the lookup loop. */
    predicate Matches(n: Name) { StrncmpZero(name, n, NAME_LEN) }

    /** The record holds a name the driver could have stored. */
    predicate WellNamed() {
      && |name| == NAME_LEN && len <= NAME_LEN
      && NulFree(Emitted())
      && name == Strncpy(Emitted(), NAME_LEN)
    }

    /** The three fields have the widths of the record. */
    predicate Storable() { ino < TWO32 && len < TWO32 && |name| == NAME_LEN }
  }

  /** The record `_yaf_create` fills in. */
  function NewDentry(n: Name, ino: nat): (d: Dentry)
    requires Fits(n)
    ensures NulFree(n) ==> d.WellNamed() && d.Emitted() == n
  {
    StrncpyPadsIf(n);
    Dentry(ino, |n|, Strncpy(n, NAME_LEN))
  }

  lemma StrncpyPadsIf(n: Name)
    requires Fits(n)
    ensures NulFree(n) ==> Strncpy(n, NAME_LEN)[..|n|] == n
  {
    if NulFree(n) {
      StrncpyPads(n, NAME_LEN);
    }
  }

  /** A stored name matches exactly itself. */
  lemma MatchIsEquality(d: Dentry, n: Name)
    requires d.WellNamed() && NulFree(n) && Fits(n)
    ensures d.Matches(n) <==> d.Emitted() == n
  {
    StrncmpIsEquality(d.Emitted(), n, NAME_LEN);
  }

  function Encode(d: Dentry): (r: seq<byte>)
    requires |d.name| == NAME_LEN
    ensures |r| == DENTRY_SIZE
  {
    Le32(d.ino) + Le32(d.len) + d.name
  }

  function Decode(b: seq<byte>): (d: Dentry)
    requires |b| == DENTRY_SIZE
    ensures d.Storable()
  {
    Dentry(Word(b[..4]), Word(b[4..8]), b[8..])
  }

  lemma DecodeEncode(d: Dentry)
    requires d.Storable()
    ensures Decode(Encode(d)) == d
  {
  }

  /** Record i of a directory block. */
  function DentryAt(b: Block, i: nat): (d: Dentry)
    requires |b| == BLOCK_SIZE && i < DENTRYS_PER_BLOCK
    ensures d.Storable()
  {
    Decode(b[i * DENTRY_SIZE..i * DENTRY_SIZE + DENTRY_SIZE])
  }

  function PutDentry(b: Block, i: nat, d: Dentry): (r: Block)
    requires |b| == BLOCK_SIZE && i < DENTRYS_PER_BLOCK && |d.name| == NAME_LEN
    ensures |r| == BLOCK_SIZE
  {
    Splice(b, i * DENTRY_SIZE, Encode(d))
  }

  /** Overwrites the inode number of record i only. */
  function PutIno(b: Block, i: nat, ino: nat): (r: Block)
    requires |b| == BLOCK_SIZE && i < DENTRYS_PER_BLOCK
    ensures |r| == BLOCK_SIZE
  {
    Splice(b, i * DENTRY_SIZE, Le32(ino))
  }

  lemma PutDentryAt(b: Block, i: nat, d: Dentry, j: nat)
    requires |b| == BLOCK_SIZE && i < DENTRYS_PER_BLOCK && j < DENTRYS_PER_BLOCK && d.Storable()
    ensures DentryAt(PutDentry(b, i, d), j) == if i == j then d else DentryAt(b, j)
  {
    DecodeEncode(d);
    SpliceRanges(b, i * DENTRY_SIZE, Encode(d), j * DENTRY_SIZE, j * DENTRY_SIZE + DENTRY_SIZE);
  }

  lemma PutInoAt(b: Block, i: nat, ino: nat, j: nat)
    requires |b| == BLOCK_SIZE && i < DENTRYS_PER_BLOCK && j < DENTRYS_PER_BLOCK && ino < TWO32
    ensures DentryAt(PutIno(b, i, ino), j) == if i == j then DentryAt(b, j).(ino := ino) else DentryAt(b, j)
  {
    WordOfLe32(ino);
    var r, off := PutIno(b, i, ino), i * DENTRY_SIZE;
    if i == j {
      assert r == Splice(b, off, Le32(ino));
      hide Splice, PutIno, Le32, Word;
      SpliceRanges(b, off, Le32(ino), off + 4, off + 8);
      SpliceRanges(b, off, Le32(ino), off + 8, off + 32);
      SliceOfSlice(r, off, 32, 0, 4);
      SliceOfSlice(r, off, 32, 4, 8);
      SliceOfSlice(r, off, 32, 8, 32);
      SliceOfSlice(b, off, 32, 4, 8);
      SliceOfSlice(b, off, 32, 8, 32);
    } else {
      SpliceRanges(b, off, Le32(ino), j * DENTRY_SIZE, j * DENTRY_SIZE + DENTRY_SIZE);
    }
  }
}
