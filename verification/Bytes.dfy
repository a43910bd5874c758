/** Bytes, little-endian words and in-place replacement of a byte range. */
module Bytes {
  import opened Layout

  newtype byte = x: int | 0 <= x < 256

  type Block = seq<byte>

  function Zeros(n: nat): (r: seq<byte>)
    ensures |r| == n && forall i :: 0 <= i < n ==> r[i] == 0
  {
    seq(n, _ => 0)
  }

  function Low(x: int): byte {
    (x % 256) as byte
  }

  /** `cpu_to_le32`, after truncation to 32 bits. */
  function Le32(x: nat): (r: seq<byte>)
    ensures |r| == 4
  {
    [Low(x), Low(x / 256), Low(x / 256 / 256), Low(x / 256 / 256 / 256)]
  }

  /** `le32_to_cpu`. */
  function Word(s: seq<byte>): (r: nat)
    requires |s| == 4
    ensures r < TWO32
  {
    s[0] as int + 256 * (s[1] as int + 256 * (s[2] as int + 256 * (s[3] as int)))
  }

  lemma WordOfLe32(x: nat)
    ensures Word(Le32(x)) == U32(x)
  {
    var q := x / 256;
    var r := q / 256;
    var t := r / 256;
    assert x == x % 256 + 256 * q && q == q % 256 + 256 * r && r == r % 256 + 256 * t && t == t % 256 + 256 * (t / 256);
    assert x == Word(Le32(x)) + TWO32 * (t / 256);
  }

  /** b with the bytes at off replaced by s. */
  function Splice(b: seq<byte>, off: nat, s: seq<byte>): (r: seq<byte>)
    requires off + |s| <= |b|
    ensures |r| == |b|
    ensures forall i :: 0 <= i < |b| ==> r[i] == if off <= i < off + |s| then s[i - off] else b[i]
  {
    b[..off] + s + b[off + |s|..]
  }

  /** A range is replaced by what was written, and a disjoint range is kept. */
  lemma SpliceRanges(b: seq<byte>, off: nat, s: seq<byte>, lo: nat, hi: nat)
    requires off + |s| <= |b| && lo <= hi <= |b|
    ensures Splice(b, off, s)[off..off + |s|] == s
    ensures hi <= off || off + |s| <= lo ==> Splice(b, off, s)[lo..hi] == b[lo..hi]
  {
  }

  /** A slice of a slice. */
  lemma SliceOfSlice(b: seq<byte>, off: nat, n: nat, lo: nat, hi: nat)
    requires off + n <= |b| && lo <= hi <= n
    ensures b[off..off + n][lo..hi] == b[off + lo..off + hi]
  {
    var l, r := b[off..off + n][lo..hi], b[off + lo..off + hi];
    assert |l| == |r| && forall i :: 0 <= i < |l| ==> l[i] == r[i];
  }

  /** The word at byte offset off. */
  function WordAt(b: seq<byte>, off: nat): (r: nat)
    requires off + 4 <= |b|
    ensures r < TWO32
  {
    Word(b[off..off + 4])
  }
}
