/** Which file names an archive may use. */
module PathNames {
  import opened Bytes
  import Utf8

  const SLASH: byte := 47
  const BACKSLASH: byte := 92
  const DOT: bytes := [46]
  const DOTDOT: bytes := [46, 46]

  // ---- components

  function SplitSlash(s: bytes): (parts: seq<bytes>)
    ensures parts != []
    ensures forall p | p in parts :: SLASH !in p
    ensures (|parts[0]| > 0) == (s != [] && s[0] != SLASH)
    decreases s
  {
    if s == [] then [[]]
    else
      var rest := SplitSlash(s[1..]);
      if s[0] == SLASH then [[]] + rest else [[s[0]] + rest[0]] + rest[1..]
  }

  function Join(parts: seq<bytes>): bytes {
    if parts == [] then []
    else if |parts| == 1 then parts[0]
    else parts[0] + [SLASH] + Join(parts[1..])
  }

  lemma JoinCons(p: bytes, parts: seq<bytes>)
    requires parts != []
    ensures Join([p] + parts) == p + [SLASH] + Join(parts)
  {
    assert ([p] + parts)[1..] == parts;
  }

  lemma JoinPrepend(c: byte, parts: seq<bytes>)
    requires parts != []
    ensures Join([[c] + parts[0]] + parts[1..]) == [c] + Join(parts)
  {
    var more := [[c] + parts[0]] + parts[1..];
    assert more[1..] == parts[1..];
    if |parts| > 1 {
      assert ([c] + parts[0]) + [SLASH] + Join(parts[1..]) == [c] + (parts[0] + [SLASH] + Join(parts[1..]));
    }
  }

  lemma {:induction false} JoinOfSplit(s: bytes)
    ensures Join(SplitSlash(s)) == s
  {
    if s != [] {
      var rest := SplitSlash(s[1..]);
      JoinOfSplit(s[1..]);
      if s[0] == SLASH { JoinCons([], rest); } else { JoinPrepend(s[0], rest); }
      assert s == [s[0]] + s[1..];
    }
  }

  lemma {:induction false} SplitOfPart(p: bytes)
    requires SLASH !in p
    ensures SplitSlash(p) == [p]
  {
    if p != [] {
      SplitOfPart(p[1..]);
      assert p == [p[0]] + p[1..];
    }
  }

  lemma {:induction false} SplitAfterPart(p: bytes, s: bytes)
    requires SLASH !in p
    ensures SplitSlash(p + [SLASH] + s) == [p] + SplitSlash(s)
  {
    var t := p + [SLASH] + s;
    if p == [] {
      assert t == [SLASH] + s && t[1..] == s;
    } else {
      SplitAfterPart(p[1..], s);
      assert t[1..] == p[1..] + [SLASH] + s;
      assert p == [p[0]] + p[1..];
    }
  }

  lemma {:induction false} SplitOfJoin(parts: seq<bytes>)
    requires parts != [] && forall p | p in parts :: SLASH !in p
    ensures SplitSlash(Join(parts)) == parts
  {
    if |parts| == 1 {
      SplitOfPart(parts[0]);
      assert parts == [parts[0]];
    } else {
      SplitOfJoin(parts[1..]);
      SplitAfterPart(parts[0], Join(parts[1..]));
      assert parts == [parts[0]] + parts[1..];
    }
  }

  // ---- the shortest equivalent path

  /** Drops empty and `.` components and resolves `..` against the component before it. */
  function Resolve(parts: seq<bytes>, rooted: bool, stack: seq<bytes>): seq<bytes>
    decreases |parts|
  {
    if parts == [] then stack
    else
      var p, rest := parts[0], parts[1..];
      if p == [] || p == DOT then Resolve(rest, rooted, stack)
      else if p != DOTDOT then Resolve(rest, rooted, stack + [p])
      else if stack != [] && stack[|stack| - 1] != DOTDOT then Resolve(rest, rooted, stack[..|stack| - 1])
      else if rooted then Resolve(rest, rooted, stack)
      else Resolve(rest, rooted, stack + [p])
  }

  predicate IsAbs(s: bytes) { s != [] && s[0] == SLASH }

  function Clean(s: bytes): bytes {
    var r := (if IsAbs(s) then [SLASH] else []) + Join(Resolve(SplitSlash(s), IsAbs(s), []));
    if r == [] then DOT else r
  }

  /** A component that `Clean` leaves alone. */
  predicate Plain(p: bytes) { p != [] && p != DOT && p != DOTDOT && SLASH !in p }

  predicate AllPlain(parts: seq<bytes>) { forall p | p in parts :: Plain(p) }

  lemma {:induction false} ResolvePlain(parts: seq<bytes>, rooted: bool, stack: seq<bytes>)
    requires AllPlain(parts)
    ensures Resolve(parts, rooted, stack) == stack + parts
    decreases |parts|
  {
    if parts == [] {
      assert stack + parts == stack;
    } else {
      assert Plain(parts[0]) by { assert parts[0] in parts; }
      ResolvePlain(parts[1..], rooted, stack + [parts[0]]);
      assert stack + [parts[0]] + parts[1..] == stack + parts;
    }
  }

  lemma {:induction false} ResolvedIsPlain(parts: seq<bytes>, rooted: bool, stack: seq<bytes>)
    requires AllPlain(stack)
    requires forall p | p in parts :: SLASH !in p && p != DOTDOT
    ensures AllPlain(Resolve(parts, rooted, stack))
    decreases |parts|
  {
    if parts != [] {
      var p := parts[0];
      assert p in parts && forall q | q in parts[1..] :: q in parts;
      assert p != [] && p != DOT ==> forall q | q in stack + [p] :: q in stack || q == p;
      if p == [] || p == DOT {
        ResolvedIsPlain(parts[1..], rooted, stack);
      } else {
        ResolvedIsPlain(parts[1..], rooted, stack + [p]);
      }
    }
  }

  /** No empty component and no `.`, and `..` only in front. */
  predicate UpThenDown(parts: seq<bytes>) {
    && (forall p | p in parts :: p != [] && p != DOT && SLASH !in p)
    && forall i, j :: 0 <= i < j < |parts| && parts[j] == DOTDOT ==> parts[i] == DOTDOT
  }

  lemma UpThenDownSnoc(parts: seq<bytes>, p: bytes)
    requires UpThenDown(parts) && p != [] && p != DOT && SLASH !in p
    requires p == DOTDOT ==> parts == [] || parts[|parts| - 1] == DOTDOT
    ensures UpThenDown(parts + [p])
  {
    var all := parts + [p];
    forall q | q in all ensures q != [] && q != DOT && SLASH !in q {
      assert q in parts || q == p;
    }
    forall i, j | 0 <= i < j < |all| && all[j] == DOTDOT ensures all[i] == DOTDOT {
      if j == |parts| {
        assert parts[|parts| - 1] == DOTDOT;
      } else {
        assert parts[j] == DOTDOT;
      }
    }
  }

  lemma UpThenDownPrefix(parts: seq<bytes>)
    requires UpThenDown(parts) && parts != []
    ensures UpThenDown(parts[..|parts| - 1])
  {
    var front := parts[..|parts| - 1];
    forall p | p in front ensures p != [] && p != DOT && SLASH !in p {
      assert p in parts;
    }
    forall i, j | 0 <= i < j < |front| && front[j] == DOTDOT ensures front[i] == DOTDOT {
      assert parts[j] == DOTDOT;
    }
  }

  lemma {:induction false} ResolvedIsUpThenDown(parts: seq<bytes>, stack: seq<bytes>)
    requires UpThenDown(stack) && forall p | p in parts :: SLASH !in p
    ensures UpThenDown(Resolve(parts, false, stack))
    decreases |parts|
  {
    hide UpThenDown;
    if parts != [] {
      var p, rest := parts[0], parts[1..];
      assert p in parts && forall q | q in rest :: q in parts;
      if p == [] || p == DOT {
        ResolvedIsUpThenDown(rest, stack);
      } else if p != DOTDOT || stack == [] || stack[|stack| - 1] == DOTDOT {
        UpThenDownSnoc(stack, p);
        ResolvedIsUpThenDown(rest, stack + [p]);
      } else {
        UpThenDownPrefix(stack);
        ResolvedIsUpThenDown(rest, stack[..|stack| - 1]);
      }
    }
  }

  lemma {:induction false} ResolveUpThenDown(parts: seq<bytes>, stack: seq<bytes>)
    requires UpThenDown(stack + parts)
    ensures Resolve(parts, false, stack) == stack + parts
    decreases |parts|
  {
    if parts == [] {
      assert stack + parts == stack;
    } else {
      var all := stack + parts;
      assert all[|stack|] == parts[0] && all[|stack|] in all;
      assert stack != [] ==> all[|stack| - 1] == stack[|stack| - 1];
      assert stack + [parts[0]] + parts[1..] == all;
      ResolveUpThenDown(parts[1..], stack + [parts[0]]);
    }
  }

  /** A relative path is the shortest one for what it names exactly if it is `.`, or goes up first and then down
      without detours. */
  lemma CleanExactly(s: bytes)
    requires !IsAbs(s)
    ensures s == Clean(s) <==> s == DOT || UpThenDown(SplitSlash(s))
  {
    var parts := SplitSlash(s);
    JoinOfSplit(s);
    SplitOfPart(DOT);
    ResolvedIsUpThenDown(parts, []);
    var stack := Resolve(parts, false, []);
    assert [] + Join(stack) == Join(stack);
    if s == DOT {
      assert parts == [DOT] && stack == [];
    } else if s == Clean(s) {
      SplitOfJoin(stack);
    }
    if UpThenDown(parts) {
      assert [] + parts == parts;
      ResolveUpThenDown(parts, []);
      assert parts[0] in parts && s != [];
    }
  }

  lemma {:induction false} ResolvedRootIsPlain(parts: seq<bytes>, stack: seq<bytes>)
    requires AllPlain(stack) && forall p | p in parts :: SLASH !in p
    ensures AllPlain(Resolve(parts, true, stack))
    decreases |parts|
  {
    if parts != [] {
      var p, rest := parts[0], parts[1..];
      assert p in parts && forall q | q in rest :: q in parts;
      assert stack != [] ==> stack[|stack| - 1] in stack;
      if p == [] || p == DOT || (p == DOTDOT && stack == []) {
        ResolvedRootIsPlain(rest, stack);
      } else if p != DOTDOT {
        assert forall q | q in stack + [p] :: q in stack || q == p;
        ResolvedRootIsPlain(rest, stack + [p]);
      } else {
        ResolvedRootIsPlain(rest, stack[..|stack| - 1]);
      }
    }
  }

  /** A rooted path is the shortest one exactly if it is `/` or has only plain components behind that. */
  lemma RootedCleanExactly(s: bytes)
    ensures [SLASH] + s == Clean([SLASH] + s) <==> s == [] || AllPlain(SplitSlash(s))
  {
    var parts := SplitSlash(s);
    assert [] + [SLASH] + s == [SLASH] + s;
    SplitAfterPart([], s);
    JoinOfSplit(s);
    assert ([[]] + parts)[1..] == parts;
    assert Resolve([[]] + parts, true, []) == Resolve(parts, true, []);
    ResolvedRootIsPlain(parts, []);
    var stack := Resolve(parts, true, []);
    assert Clean([SLASH] + s) == [SLASH] + Join(stack);
    assert ([SLASH] + s)[1..] == s && ([SLASH] + Join(stack))[1..] == Join(stack);
    if s == [] {
      assert parts == [[]];
    } else if s == Join(stack) {
      assert stack != [];
      SplitOfJoin(stack);
    }
    if AllPlain(parts) {
      ResolvePlain(parts, true, []);
      assert [] + parts == parts;
    }
  }

  // ---- the checks on a file name

  datatype NameError = TooLong | Invalid | TooDeep

  const MAX_LEN := 200
  const MAX_DEPTH := 10

  predicate IsBogusRune(r: int) { r == BACKSLASH || r < 32 }

  /** Whether a forbidden rune shows up when the name is read rune by rune. */
  predicate HasBogusRune(name: bytes) {
    name != [] &&
    var (r, size) := Utf8.DecodeRune(name);
    IsBogusRune(r) || HasBogusRune(name[size..])
  }

  lemma WideRune(name: bytes)
    requires name != []
    ensures var (r, size) := Utf8.DecodeRune(name);
      && 1 <= size <= |name|
      && (name[0] < 0x80 ==> size == 1 && r == name[0])
      && (name[0] >= 0x80 ==> r >= 0x80 && forall b :: b in name[..size] ==> b >= 0x80)
  {}

  /** No byte of a wide or invalid rune looks like a forbidden one: reading bytes finds the same. */
  lemma {:induction false} BogusRunesAreBytes(name: bytes)
    ensures HasBogusRune(name) <==> exists b :: b in name && IsBogusRune(b)
  {
    if name != [] {
      hide Utf8.DecodeRune;
      WideRune(name);
      var (r, size) := Utf8.DecodeRune(name);
      BogusRunesAreBytes(name[size..]);
      assert name == name[..size] + name[size..];
      assert name[0] in name;
      assert forall b :: b in name <==> b in name[..size] || b in name[size..];
      assert size == 1 ==> name[..size] == [name[0]];
    }
  }

  /** The checks in order; the first that fails gives the error. */
  function NameProblem(name: bytes): Option<NameError> {
    if |name| > MAX_LEN then Some(TooLong)
    else if HasBogusRune(name) then Some(Invalid)
    else if name != Clean(name) || IsAbs(name) then Some(Invalid)
    else if |SplitSlash(name)| > MAX_DEPTH then Some(TooDeep)
    else if exists p :: p in SplitSlash(name) && (p == DOT || p == DOTDOT) then Some(Invalid)
    else None
  }

  /** Non-empty components other than `.` and `..`, not too many, and no forbidden bytes. */
  predicate Canonical(name: bytes) {
    && |name| <= 200
    && (forall b :: b in name ==> b >= 32 && b != 92)
    && 1 <= |SplitSlash(name)| <= 10
    && forall p | p in SplitSlash(name) :: p != [] && p != DOT && p != DOTDOT
  }

  lemma PlainIsClean(name: bytes)
    requires forall p | p in SplitSlash(name) :: p != [] && p != DOT && p != DOTDOT
    ensures name == Clean(name) && !IsAbs(name)
  {
    var parts := SplitSlash(name);
    assert parts[0] in parts;
    ResolvePlain(parts, false, []);
    assert [] + parts == parts;
    JoinOfSplit(name);
    assert [] + name == name;
  }

  lemma CleanIsPlain(name: bytes)
    requires name == Clean(name) && !IsAbs(name)
    requires forall p | p in SplitSlash(name) :: p != DOT && p != DOTDOT
    ensures forall p | p in SplitSlash(name) :: p != []
  {
    var stack := Resolve(SplitSlash(name), false, []);
    ResolvedIsPlain(SplitSlash(name), false, []);
    assert [] + Join(stack) == Join(stack);
    SplitOfPart(DOT);
    assert name != DOT by { assert DOT in SplitSlash(DOT); }
    if stack != [] {
      assert Plain(stack[0]) by { assert stack[0] in stack; }
      SplitOfJoin(stack);
      assert Join(stack) != [];
    }
  }

  /** The checks together accept exactly the canonical names. */
  lemma AcceptedExactly(name: bytes)
    ensures NameProblem(name).None? <==> Canonical(name)
  {
    hide Clean, IsAbs, SplitSlash, HasBogusRune;
    BogusRunesAreBytes(name);
    if Canonical(name) {
      PlainIsClean(name);
    }
    if NameProblem(name).None? {
      CleanIsPlain(name);
    }
  }

  lemma RootedHasEmptyPart(name: bytes)
    requires IsAbs(name)
    ensures !UpThenDown(SplitSlash(name))
  {
    assert SplitSlash(name)[0] == [] && SplitSlash(name)[0] in SplitSlash(name);
  }

  /** Which check a name fails first. */
  lemma ProblemExactly(name: bytes)
    ensures NameProblem(name) == Some(TooLong) <==> |name| > 200
    ensures NameProblem(name) == Some(TooDeep) <==>
      |name| <= 200 && (forall b :: b in name ==> b >= 32 && b != 92)
      && UpThenDown(SplitSlash(name)) && |SplitSlash(name)| > 10
  {
    hide Clean, SplitSlash, HasBogusRune, UpThenDown;
    BogusRunesAreBytes(name);
    if IsAbs(name) {
      RootedHasEmptyPart(name);
    } else {
      CleanExactly(name);
      SplitOfPart(DOT);
    }
  }
}
