/** Byte strings, substring search and fixed-width big-endian numbers. */
module Bytes {

  type byte = x: int | 0 <= x < 256

  type bytes = seq<byte>

  /** The newline. */
  const NL: byte := 10

  datatype Option<+T> = None | Some(value: T)

  function Min(a: int, b: int): int { if a <= b then a else b }

  function Max(a: int, b: int): int { if a <= b then b else a }

  /** `sep` occurs in `s` at index `i`. */
  predicate MatchAt<T(==)>(s: seq<T>, sep: seq<T>, i: int) {
    0 <= i <= |s| - |sep| && s[i..i + |sep|] == sep
  }

  predicate Contains<T(==)>(s: seq<T>, sep: seq<T>) {
    exists i :: 0 <= i <= |s| && MatchAt(s, sep, i)
  }

  /** The index of the first occurrence of `sep` at or after `from`. */
  function IndexFrom<T(==)>(s: seq<T>, sep: seq<T>, from: nat): (r: Option<nat>)
    requires from <= |s|
    ensures r.Some? ==> from <= r.value && MatchAt(s, sep, r.value)
    ensures r.Some? ==> forall k :: from <= k < r.value ==> !MatchAt(s, sep, k)
    ensures r.None? ==> forall k :: from <= k ==> !MatchAt(s, sep, k)
    decreases |s| - from
  {
    if MatchAt(s, sep, from) then Some(from)
    else if from == |s| then None
    else IndexFrom(s, sep, from + 1)
  }

  /** The index of the first occurrence of `sep` in `s`. */
  function Index<T(==)>(s: seq<T>, sep: seq<T>): (r: Option<nat>)
    ensures r.Some? ==> MatchAt(s, sep, r.value)
    ensures r.Some? ==> forall k :: 0 <= k < r.value ==> !MatchAt(s, sep, k)
    ensures r.None? ==> forall k :: !MatchAt(s, sep, k)
    ensures r.Some? <==> Contains(s, sep)
  {
    IndexFrom(s, sep, 0)
  }

  /** Matches of a string survive when something is appended to it. */
  lemma MatchAtPrefix<T>(s: seq<T>, t: seq<T>, sep: seq<T>, i: int)
    requires 0 <= i <= |s| - |sep|
    ensures MatchAt(s + t, sep, i) <==> MatchAt(s, sep, i)
  {
    assert (s + t)[i..i + |sep|] == s[i..i + |sep|];
  }

  /** One different element rules a match out. */
  lemma NoMatch<T>(s: seq<T>, sep: seq<T>, i: nat, j: nat)
    requires j < |sep| && (i + j < |s| ==> s[i + j] != sep[j])
    ensures !MatchAt(s, sep, i)
  {
    if i + |sep| <= |s| {
      assert s[i..i + |sep|][j] == s[i + j];
    }
  }

  /** Matches past the end of `s` are matches of the appended part. */
  lemma MatchAtSuffix<T>(s: seq<T>, t: seq<T>, sep: seq<T>, i: int)
    requires 0 <= i
    ensures MatchAt(s + t, sep, |s| + i) <==> MatchAt(t, sep, i)
  {
    if i <= |t| - |sep| {
      assert (s + t)[|s| + i..|s| + i + |sep|] == t[i..i + |sep|];
    }
  }

  function Concat(ss: seq<bytes>): bytes {
    if ss == [] then [] else ss[0] + Concat(ss[1..])
  }

  function Zeros(n: nat): (s: bytes)
    ensures |s| == n
  {
    seq(n, _ => 0)
  }

  /** Containing means occurring as a part. */
  lemma ContainsExactly<T>(s: seq<T>, sep: seq<T>)
    ensures Contains(s, sep) <==> exists a, b :: s == a + sep + b
  {
    if Contains(s, sep) {
      var i :| 0 <= i <= |s| && MatchAt(s, sep, i);
      assert s == s[..i] + sep + s[i + |sep|..];
    }
    forall a, b | s == a + sep + b ensures Contains(s, sep) {
      assert s[|a|..|a| + |sep|] == sep;
      assert MatchAt(s, sep, |a|);
    }
  }

  lemma Assoc<T>(a: seq<T>, b: seq<T>, c: seq<T>)
    ensures (a + b) + c == a + (b + c)
  {}

  lemma ThreeParts<T>(a: seq<T>, b: seq<T>, c: seq<T>)
    ensures a + b + c == a + (b + c)
    ensures (a + b + c)[|a|..|a| + |b|] == b && (a + b + c)[|a| + |b|..] == c
  {}

  lemma CutInThree<T>(s: seq<T>, i: nat, j: nat)
    requires i <= j <= |s|
    ensures s == s[..i] + s[i..j] + s[j..]
  {}

  /** Slices inside a common prefix are the same. */
  lemma SameSlice<T>(s: seq<T>, t: seq<T>, hi: nat, lo: nat, e: nat)
    requires hi <= |s| && hi <= |t| && s[..hi] == t[..hi] && lo <= e <= hi
    ensures s[lo..e] == t[lo..e]
  {
    assert s[lo..e] == s[..hi][lo..e] && t[lo..e] == t[..hi][lo..e];
  }

  lemma SplitSlice<T>(s: seq<T>, lo: nat, mid: nat, hi: nat)
    requires lo <= mid <= hi <= |s|
    ensures s[lo..hi] == s[lo..mid] + s[mid..hi]
  {}

  // ---- big-endian numbers

  function Pow256(w: nat): (p: nat)
    ensures p >= 1
  {
    if w == 0 then 1 else 256 * Pow256(w - 1)
  }

  /** The unsigned number whose big-endian bytes are `s`. */
  function FromBigEndian(s: bytes): (n: nat)
    ensures n < Pow256(|s|)
  {
    if s == [] then 0 else 256 * FromBigEndian(s[..|s| - 1]) + s[|s| - 1]
  }

  /** The `w` big-endian bytes of `n`. */
  function ToBigEndian(n: nat, w: nat): (s: bytes)
    ensures |s| == w
  {
    if w == 0 then [] else ToBigEndian(n / 256, w - 1) + [n % 256]
  }

  lemma {:induction false} BigEndianRoundTrip(n: nat, w: nat)
    requires n < Pow256(w)
    ensures FromBigEndian(ToBigEndian(n, w)) == n
  {
    if w > 0 {
      BigEndianRoundTrip(n / 256, w - 1);
      assert ToBigEndian(n, w)[..w - 1] == ToBigEndian(n / 256, w - 1);
    }
  }

  lemma {:induction false} BigEndianIsOnto(s: bytes)
    ensures ToBigEndian(FromBigEndian(s), |s|) == s
  {
    if s != [] {
      var k := |s| - 1;
      assert FromBigEndian(s) / 256 == FromBigEndian(s[..k]);
      assert FromBigEndian(s) % 256 == s[k];
      BigEndianIsOnto(s[..k]);
      assert s == s[..k] + [s[k]];
    }
  }

  function Word(a: int, b: int, c: int, d: int): int { 0x100_0000 * a + 0x1_0000 * b + 0x100 * c + d }

  /** One more byte at the end. */
  lemma FromBigEndianNext(s: bytes, k: nat)
    requires k < |s|
    ensures FromBigEndian(s[..k + 1]) == 256 * FromBigEndian(s[..k]) + s[k]
  {
    assert s[..k + 1][..k] == s[..k];
  }

  lemma FourBytes(s: bytes)
    requires |s| >= 4
    ensures FromBigEndian(s[..4]) == Word(s[0], s[1], s[2], s[3])
    ensures |s| == 4 ==> FromBigEndian(s) == Word(s[0], s[1], s[2], s[3])
  {
    assert FromBigEndian(s[..0]) == 0;
    FromBigEndianNext(s, 0);
    FromBigEndianNext(s, 1);
    FromBigEndianNext(s, 2);
    FromBigEndianNext(s, 3);
    assert |s| == 4 ==> s[..4] == s;
  }

  lemma EightBytes(s: bytes)
    requires |s| == 8
    ensures FromBigEndian(s) == 0x1_0000_0000 * Word(s[0], s[1], s[2], s[3]) + Word(s[4], s[5], s[6], s[7])
  {
    FourBytes(s);
    FromBigEndianNext(s, 4);
    FromBigEndianNext(s, 5);
    FromBigEndianNext(s, 6);
    FromBigEndianNext(s, 7);
    assert s[..8] == s;
  }

  const TWO_63: int := 0x8000_0000_0000_0000
  const TWO_64: int := 0x1_0000_0000_0000_0000

  predicate IsInt64(n: int) { -TWO_63 <= n < TWO_63 }

  /** Two's complement reading of a 64-bit word, and its inverse. */
  function ToInt64(u: nat): int { if u < TWO_63 then u else u - TWO_64 }

  function FromInt64(n: int): nat
    requires IsInt64(n)
  {
    if n >= 0 then n else n + TWO_64
  }

  lemma WordSizes()
    ensures Pow256(4) == 0x1_0000_0000
    ensures Pow256(8) == TWO_64
  {
    assert Pow256(2) == 0x1_0000;
    assert Pow256(4) == 0x1_0000_0000;
    assert Pow256(6) == 0x1_0000_0000_0000;
  }
}
