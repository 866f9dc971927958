/** The writers that collect the output of a container. */
module OutputWriters {
  import opened Bytes

  // ---- what a stream looks like around a marker

  /** `s` through the end of the first occurrence of `mark`, or all of it. */
  function UpTo(s: bytes, mark: bytes): bytes {
    match Index(s, mark)
    case None => s
    case Some(i) => s[..i + |mark|]
  }

  /** What follows the first occurrence of `mark`, nothing if there is none. */
  function PastMark(s: bytes, mark: bytes): bytes {
    match Index(s, mark)
    case None => []
    case Some(i) => s[i + |mark|..]
  }

  /** The end of `s` that can still be the start of a match of `mark`. */
  function Carry(s: bytes, mark: bytes): bytes {
    if mark == [] then [] else s[|s| - Min(|s|, |mark| - 1)..]
  }

  /** No mark has gone by in `s` (a mark of no bytes goes by with the first write). */
  predicate Unmarked(s: bytes, mark: bytes) { s == [] || Index(s, mark).None? }

  lemma NoEarlyMatch(s: bytes, p: bytes, mark: bytes, j: nat)
    requires Unmarked(s, mark) && j < |s| - |Carry(s, mark)|
    ensures !MatchAt(s + p, mark, j)
  {
    MatchAtPrefix(s, p, mark, j);
  }

  lemma IndexIs(s: bytes, mark: bytes, i: nat)
    requires MatchAt(s, mark, i) && forall k :: 0 <= k < i ==> !MatchAt(s, mark, k)
    ensures Index(s, mark) == Some(i)
  {}

  /** Looking for the mark in the carried bytes and the new ones finds its first occurrence in the whole
      stream. */
  lemma CarrySuffices(s: bytes, p: bytes, mark: bytes)
    requires Unmarked(s, mark)
    ensures match Index(Carry(s, mark) + p, mark)
      case None => Index(s + p, mark).None?
      case Some(i) => Index(s + p, mark) == Some(|s| - |Carry(s, mark)| + i)
  {
    hide Index, IndexFrom;
    var c := Carry(s, mark);
    var k := |s| - |c|;
    assert s + p == s[..k] + (c + p);
    match Index(c + p, mark)
    case None =>
      forall j | 0 <= j ensures !MatchAt(s + p, mark, j) {
        if j < k { NoEarlyMatch(s, p, mark, j); } else { MatchAtSuffix(s[..k], c + p, mark, j - k); }
      }
    case Some(i) =>
      MatchAtSuffix(s[..k], c + p, mark, i);
      forall j | 0 <= j < k + i ensures !MatchAt(s + p, mark, j) {
        if j < k { NoEarlyMatch(s, p, mark, j); } else { MatchAtSuffix(s[..k], c + p, mark, j - k); }
      }
      IndexIs(s + p, mark, k + i);
  }

  lemma NothingYet(s: bytes, mark: bytes)
    requires Unmarked(s, mark)
    ensures UpTo(s, mark) == s && PastMark(s, mark) == []
  {
    hide IndexFrom;
  }

  /** The parts of a stream that grew by a write in which no mark was completed. */
  lemma StillUnmarked(s: bytes, p: bytes, mark: bytes)
    requires Unmarked(s, mark) && Index(Carry(s, mark) + p, mark).None?
    ensures mark != [] && Index(s + p, mark).None? && Unmarked(s + p, mark)
    ensures UpTo(s, mark) == s && PastMark(s, mark) == []
    ensures UpTo(s + p, mark) == s + p && PastMark(s + p, mark) == []
    ensures var buf := Carry(s, mark) + p;
      Carry(s + p, mark) == if |buf| >= |mark| then buf[|buf| - |mark| + 1..] else buf
  {
    hide Index, IndexFrom;
    CarrySuffices(s, p, mark);
    NothingYet(s, mark);
    assert !MatchAt(Carry(s, mark) + p, mark, 0);
  }

  lemma EmptyStream(mark: bytes)
    ensures Unmarked([], mark) && Carry([], mark) == [] && UpTo([], mark) == [] && PastMark([], mark) == []
  {
    NothingYet([], mark);
  }

  lemma CarryIsShort(s: bytes, mark: bytes)
    requires Unmarked(s, mark)
    ensures |Carry(s, mark)| <= |s| && (s == [] || |Carry(s, mark)| < |mark|)
    ensures mark != [] ==> |Carry(s, mark)| < |mark|
  {
    assert Index(s, mark).None? ==> !MatchAt(s, mark, 0);
  }

  lemma CutAppended(s: bytes, p: bytes, e: nat)
    requires |s| <= e <= |s + p|
    ensures (s + p)[..e] == s + p[..e - |s|] && (s + p)[e..] == p[e - |s|..]
  {}

  lemma MatchAtIsInside(s: bytes, mark: bytes, i: nat)
    requires MatchAt(s, mark, i)
    ensures i <= |s| - |mark|
  {}

  /** The parts of a stream that grew by the write that completed the mark: it ends among the new bytes. */
  lemma NowMarked(s: bytes, p: bytes, mark: bytes)
    requires Unmarked(s, mark) && Index(Carry(s, mark) + p, mark).Some?
    ensures UpTo(s, mark) == s && PastMark(s, mark) == []
    ensures var after := |Carry(s, mark) + p| - (Index(Carry(s, mark) + p, mark).value + |mark|);
      && 0 <= after <= |p| && (mark != [] ==> after < |p|)
      && Index(s + p, mark).Some?
      && UpTo(s + p, mark) == s + p[..|p| - after]
      && PastMark(s + p, mark) == p[|p| - after..]
  {
    hide Index, IndexFrom, Carry, Unmarked, MatchAt, Contains;
    CarrySuffices(s, p, mark);
    NothingYet(s, mark);
    CarryIsShort(s, mark);
    MatchAtIsInside(Carry(s, mark) + p, mark, Index(Carry(s, mark) + p, mark).value);
    CutAppended(s, p, |s| - |Carry(s, mark)| + Index(Carry(s, mark) + p, mark).value + |mark|);
  }

  /** The two parts are always the whole. */
  lemma SplitIsWhole(s: bytes, mark: bytes)
    ensures UpTo(s, mark) + PastMark(s, mark) == s
  {
    hide Index, IndexFrom, MatchAt, Contains;
    match Index(s, mark)
    case None =>
    case Some(i) =>
      MatchAtIsInside(s, mark, i);
      assert s == s[..i + |mark|] + s[i + |mark|..];
  }

  lemma AppendToCut(s: bytes, p: bytes, e: nat)
    requires e <= |s|
    ensures (s + p)[..e] == s[..e] && (s + p)[e..] == s[e..] + p
  {}

  lemma FirstMarkStays(s: bytes, p: bytes, mark: bytes)
    requires Index(s, mark).Some?
    ensures Index(s + p, mark) == Index(s, mark)
  {
    hide Index, IndexFrom, MatchAt;
    var i := Index(s, mark).value;
    MatchAtIsInside(s, mark, i);
    MatchAtPrefix(s, p, mark, i);
    forall k | 0 <= k < i ensures !MatchAt(s + p, mark, k) {
      MatchAtPrefix(s, p, mark, k);
    }
    IndexIs(s + p, mark, i);
  }

  /** Writing more after the mark only extends what follows it. */
  lemma SplitOfAppended(s: bytes, p: bytes, mark: bytes)
    requires Index(s, mark).Some?
    ensures Index(s + p, mark) == Index(s, mark)
    ensures UpTo(s + p, mark) == UpTo(s, mark) && PastMark(s + p, mark) == PastMark(s, mark) + p
  {
    hide Index, IndexFrom, MatchAt, Contains;
    FirstMarkStays(s, p, mark);
    var i := Index(s, mark).value;
    MatchAtIsInside(s, mark, i);
    AppendToCut(s, p, i + |mark|);
  }

  /** If the stream starts with the mark, the first destination gets the mark and nothing else: what its reader
      takes. */
  lemma LeadingMark(mark: bytes, rest: bytes)
    ensures UpTo(mark + rest, mark) == mark && PastMark(mark + rest, mark) == rest
  {
    hide Index, IndexFrom;
    assert MatchAt(mark + rest, mark, 0);
    IndexIs(mark + rest, mark, 0);
  }

  // ---- the capped sink

  /** Keeps the first `cap` bytes it is offered and fails beyond them. */
  class LimitedWriter {
    ghost const cap: int
    ghost var offered: bytes
    var dst: bytes
    var n: int  // bytes remaining; negative once more was offered than fits

    ghost predicate Valid()
      reads this
    {
      && n == cap - |offered|
      && dst == offered[..Min(Max(cap, 0), |offered|)]
    }

    constructor (limit: int)
      ensures Valid() && cap == n == limit && offered == [] && dst == []
    {
      cap, offered := limit, [];
      dst, n := [], limit;
    }

    /** Stores as much of `p` as still fits; fails if that is not all of it, and also when no room is left
        and `p` is empty. */
    method Write(p: bytes) returns (count: nat, failed: bool)
      requires Valid()
      modifies this
      ensures Valid() && offered == old(offered) + p && n == old(n) - |p|
      ensures count == Max(0, Min(old(n), |p|))
      ensures dst == old(dst) + p[..count]
      ensures failed <==> old(n) <= 0 || |p| > old(n)
    {
      if n <= 0 {
        count, failed := 0, true;
      } else if |p| > n {
        dst := dst + p[..n];
        count, failed := n, true;
      } else {
        dst := dst + p;
        count, failed := |p|, false;
      }
      n := n - |p|;
      offered := offered + p;
    }

    /** Whether everything offered was kept can be read off the remaining count. */
    lemma CompleteExactly()
      requires Valid() && cap >= 0
      ensures dst == offered <==> n >= 0
    {}
  }

  /** The write end of the pipe that waits for the start message. */
  class PipeWriter {
    var data: bytes
    var open: bool

    constructor ()
      ensures data == [] && open
    {
      data, open := [], true;
    }

    method Write(p: bytes) returns (count: nat, failed: bool)
      modifies `data
      ensures count <= |p| && (failed <==> !open)
      ensures if open then count == |p| && data == old(data) + p else data == old(data) + p[..count]
    {
      if open {
        count, failed := |p|, false;
        data := data + p;
      } else {
        count :| count <= |p|;
        failed := true;
        data := data + p[..count];
      }
    }
  }

  // ---- the switch

  /** `first` and `second` hold the stream `s`, split after the first `mark`; while that has not gone by, `buf` is
      what has to be carried. */
  predicate Divided(first: bytes, second: bytes, s: bytes, mark: bytes, found: bool, buf: bytes) {
    && first == UpTo(s, mark)
    && second == PastMark(s, mark)
    && (found ==> Index(s, mark).Some?)
    && (!found ==> Unmarked(s, mark) && buf == Carry(s, mark))
  }

  lemma DividedIsWhole(first: bytes, second: bytes, s: bytes, mark: bytes, found: bool, buf: bytes)
    requires Divided(first, second, s, mark, found, buf)
    ensures first + second == s
  {
    SplitIsWhole(s, mark);
  }

  lemma DividedBehind(first: bytes, second: bytes, s: bytes, mark: bytes, buf: bytes, p: bytes)
    requires Divided(first, second, s, mark, true, buf)
    ensures Divided(first, second + p, s + p, mark, true, buf) && first + (second + p) == s + p
  {
    hide Index, IndexFrom, UpTo, PastMark;
    SplitOfAppended(s, p, mark);
    DividedIsWhole(first, second + p, s + p, mark, true, buf);
  }

  lemma DividedBefore(first: bytes, second: bytes, s: bytes, mark: bytes, buf: bytes, p: bytes)
    requires Divided(first, second, s, mark, false, buf) && Index(buf + p, mark).None?
    ensures mark != []
    ensures var rest := if |buf + p| >= |mark| then (buf + p)[|buf + p| - |mark| + 1..] else buf + p;
      Divided(first + p, second, s + p, mark, false, rest) && first + p + second == s + p
  {
    hide Index, IndexFrom, UpTo, PastMark, Carry;
    StillUnmarked(s, p, mark);
    SplitIsWhole(s + p, mark);
  }

  lemma DividedNow(first: bytes, second: bytes, s: bytes, mark: bytes, buf: bytes, p: bytes)
    requires Divided(first, second, s, mark, false, buf) && Index(buf + p, mark).Some?
    ensures var after := |buf + p| - (Index(buf + p, mark).value + |mark|);
      && 0 <= after <= |p|
      && Divided(first + p[..|p| - after], second + p[|p| - after..], s + p, mark, true, [])
      && (first + p[..|p| - after]) + (second + p[|p| - after..]) == s + p
  {
    hide Index, IndexFrom, UpTo, PastMark, Carry;
    NowMarked(s, p, mark);
    SplitIsWhole(s + p, mark);
  }

  /** Sends a stream to `dst1` until `mark` has gone by, and the rest to `dst2`. */
  class SwitchWriter {
    const dst1: PipeWriter
    const dst2: LimitedWriter
    const mark: bytes
    var buf: bytes
    var found: bool
    ghost var stream: bytes   // everything written so far
    ghost var broken: bool    // the first destination has refused bytes

    /** The two destinations hold the stream, split after the first mark, however it was chunked. */
    ghost predicate Valid()
      reads this, dst1, dst2
    {
      && dst2.Valid()
      && (!broken ==> Divided(dst1.data, dst2.offered, stream, mark, found, buf))
    }

    constructor (mark: bytes, dst1: PipeWriter, dst2: LimitedWriter)
      requires dst1.data == [] && dst2.Valid() && dst2.offered == []
      ensures Valid() && !broken && stream == []
      ensures this.dst1 == dst1 && this.dst2 == dst2 && this.mark == mark
    {
      this.mark, this.dst1, this.dst2 := mark, dst1, dst2;
      buf, found, stream, broken := [], false, [], false;
      EmptyStream(mark);
    }

    method Write(p: bytes) returns (count: nat, failed: bool)
      requires Valid() && !broken
      modifies this, dst1`data, dst2
      ensures Valid() && stream == old(stream) + p
      ensures !broken ==> dst1.data + dst2.offered == stream
      ensures broken <==> !dst1.open && !old(found)
      ensures !broken && !failed ==> count == |p|
      ensures !broken ==> (failed <==> (old(found) || found) && (old(dst2.n) <= 0 || dst2.n < 0))
      ensures !broken && !found ==> |buf| < Max(1, |mark|)
    {
      hide Index, IndexFrom, MatchAt, Contains, Divided, LimitedWriter.Valid;
      ghost var first, second, was, carried := dst1.data, dst2.offered, stream, buf;
      stream := stream + p;
      if found {
        DividedBehind(first, second, was, mark, buf, p);
        count, failed := dst2.Write(p);
        return;
      }
      buf := buf + p;
      match Index(buf, mark) {
        case None =>
          DividedBefore(first, second, was, mark, carried, p);
          if |buf| >= |mark| {
            buf := buf[|buf| - |mark| + 1..];
          }
          count, failed := dst1.Write(p);
          broken := failed;
        case Some(i) =>
          DividedNow(first, second, was, mark, carried, p);
          found := true;
          var after := |buf| - (i + |mark|);
          buf := [];
          count, failed := dst1.Write(p[..|p| - after]);
          if failed {
            broken := true;
            return;
          }
          var count2;
          count2, failed := dst2.Write(p[|p| - after..]);
          count := count + count2;
      }
    }
  }
}
