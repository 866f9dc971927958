/** The txtar archive format: comment lines, then files, each introduced by a line `-- NAME --`. */
module Txtar {
  import opened Bytes
  import Utf8

  datatype File = File(name: bytes, data: bytes)

  datatype Archive = Archive(comment: bytes, files: seq<File>)

  const MARKER: bytes := [45, 45, 32]       // "-- "
  const MARKER_END: bytes := [32, 45, 45]   // " --"

  // ---- white space

  /** Unicode white space. */
  predicate IsSpace(r: int) {
    0x09 <= r <= 0x0D || r == 0x20 || r == 0x85 || r == 0xA0 || r == 0x1680 || 0x2000 <= r <= 0x200A
    || r == 0x2028 || r == 0x2029 || r == 0x202F || r == 0x205F || r == 0x3000
  }

  /** `s` is one white space character. */
  predicate IsSpaceChar(s: bytes) { s != [] && Utf8.CharLen(s) == |s| && IsSpace(Utf8.Value(s)) }

  /** White space, as bytes. */
  lemma SpaceChars(s: bytes)
    ensures IsSpaceChar(s) <==>
      || (|s| == 1 && (9 <= s[0] <= 13 || s[0] == 32))
      || (|s| == 2 && s[0] == 0xC2 && (s[1] == 0x85 || s[1] == 0xA0))
      || (|s| == 3 && s[0] == 0xE1 && s[1] == 0x9A && s[2] == 0x80)
      || (|s| == 3 && s[0] == 0xE2 && s[1] == 0x80
            && (0x80 <= s[2] <= 0x8A || s[2] == 0xA8 || s[2] == 0xA9 || s[2] == 0xAF))
      || (|s| == 3 && s[0] == 0xE2 && s[1] == 0x81 && s[2] == 0x9F)
      || (|s| == 3 && s[0] == 0xE3 && s[1] == 0x80 && s[2] == 0x80)
  {}

  lemma PrefixChar(s: bytes, n: nat)
    requires n == Utf8.CharLen(s) && n > 0
    ensures Utf8.CharLen(s[..n]) == n && Utf8.Value(s[..n]) == Utf8.Value(s)
  {}

  /** Width of the white space character at the front of `s`, or 0. */
  function FrontSpace(s: bytes): (n: nat)
    ensures n <= |s|
    ensures n > 0 ==> IsSpaceChar(s[..n])
  {
    var n := Utf8.CharLen(s);
    if n > 0 && IsSpace(Utf8.Value(s)) then
      assert s == s[..n] + s[n..];
      PrefixChar(s, n);
      n
    else 0
  }

  predicate SpaceSuffix(s: bytes, n: nat) { n <= |s| && IsSpaceChar(s[|s| - n..]) }

  /** Width of the white space character at the end of `s`, or 0. */
  function BackSpace(s: bytes): (n: nat)
    ensures n <= |s|
    ensures n > 0 ==> SpaceSuffix(s, n)
  {
    if SpaceSuffix(s, 1) then 1
    else if SpaceSuffix(s, 2) then 2
    else if SpaceSuffix(s, 3) then 3
    else 0
  }

  function TrimLeft(s: bytes): (r: bytes)
    ensures |r| <= |s| && FrontSpace(r) == 0
    ensures forall b | b in r :: b in s
  {
    if FrontSpace(s) > 0 then TrimLeft(s[FrontSpace(s)..]) else s
  }

  function TrimRight(s: bytes): (r: bytes)
    ensures r <= s
    ensures BackSpace(r) == 0
  {
    hide BackSpace, SpaceSuffix, FrontSpace;
    if BackSpace(s) > 0 then TrimRight(s[..|s| - BackSpace(s)]) else s
  }

  function Trim(s: bytes): bytes { TrimRight(TrimLeft(s)) }

  lemma NoFrontSpaceInPrefix(s: bytes, t: bytes)
    requires s <= t && FrontSpace(t) == 0
    ensures FrontSpace(s) == 0
  {
    if Utf8.CharLen(s) > 0 {
      assert t == s + t[|s|..];
      Utf8.CharLenOfAppended(s, t[|s|..]);
    }
  }

  predicate Spaces(cs: seq<bytes>) { forall c | c in cs :: IsSpaceChar(c) }

  lemma ConcatCons(s: bytes, ss: seq<bytes>)
    ensures Concat([s] + ss) == s + Concat(ss) && Concat([]) == []
  {}

  lemma {:induction false} TrimLeftTakesSpaces(s: bytes) returns (left: seq<bytes>)
    ensures Spaces(left) && s == Concat(left) + TrimLeft(s)
  {
    hide FrontSpace, IsSpaceChar, Concat;
    var n := FrontSpace(s);
    if n > 0 {
      var more := TrimLeftTakesSpaces(s[n..]);
      left := [s[..n]] + more;
      ConcatCons(s[..n], more);
      Assoc(s[..n], Concat(more), TrimLeft(s[n..]));
      assert s == s[..n] + s[n..];
    } else {
      ConcatCons([], []);
      left := [];
    }
  }

  lemma {:induction false} ConcatSnoc(ss: seq<bytes>, t: bytes)
    ensures Concat(ss + [t]) == Concat(ss) + t
  {
    if ss == [] {
      assert Concat([t]) == t + Concat([]);
    } else {
      assert (ss + [t])[1..] == ss[1..] + [t];
      ConcatSnoc(ss[1..], t);
      Assoc(ss[0], Concat(ss[1..]), t);
    }
  }

  lemma {:induction false} TrimRightTakesSpaces(s: bytes) returns (right: seq<bytes>)
    ensures Spaces(right) && s == TrimRight(s) + Concat(right)
  {
    hide BackSpace, IsSpaceChar, Concat;
    var n := BackSpace(s);
    if n > 0 {
      var k := |s| - n;
      var more := TrimRightTakesSpaces(s[..k]);
      right := more + [s[k..]];
      ConcatSnoc(more, s[k..]);
      Assoc(TrimRight(s[..k]), Concat(more), s[k..]);
      assert s == s[..k] + s[k..];
    } else {
      right := [];
      ConcatCons([], []);
    }
  }

  lemma TrimIsFixed(s: bytes)
    ensures FrontSpace(Trim(s)) == 0 && BackSpace(Trim(s)) == 0
    ensures Trim(Trim(s)) == Trim(s)
    ensures forall b | b in Trim(s) :: b in s
  {
    hide FrontSpace, BackSpace;
    NoFrontSpaceInPrefix(Trim(s), TrimLeft(s));
    forall b | b in Trim(s) ensures b in s {
      assert b in TrimLeft(s);
    }
  }

  lemma NoSpaceInFront(s: bytes, n: nat)
    requires FrontSpace(s) == 0 && n <= |s|
    ensures !IsSpaceChar(s[..n])
  {
    assert s == s[..n] + s[n..];
    if Utf8.CharLen(s[..n]) > 0 {
      Utf8.CharLenOfAppended(s[..n], s[n..]);
    }
  }

  lemma NoSpaceBehind(s: bytes, n: nat)
    requires BackSpace(s) == 0 && n <= |s|
    ensures !IsSpaceChar(s[n..])
  {
    SpaceChars(s[n..]);
    hide IsSpaceChar;
    assert SpaceSuffix(s, |s| - n) <==> IsSpaceChar(s[n..]);
  }

  /** Trimming takes white space characters off both ends and nothing else, and is done after one pass: what is
      left has none at either end. */
  lemma TrimIsDone(s: bytes)
    ensures forall n :: 0 <= n <= |Trim(s)| ==> !IsSpaceChar(Trim(s)[..n]) && !IsSpaceChar(Trim(s)[n..])
    ensures Trim(Trim(s)) == Trim(s)
    ensures exists left, right :: Spaces(left) && Spaces(right) && s == Concat(left) + Trim(s) + Concat(right)
  {
    TrimIsFixed(s);
    forall n | 0 <= n <= |Trim(s)| ensures !IsSpaceChar(Trim(s)[..n]) && !IsSpaceChar(Trim(s)[n..]) {
      NoSpaceInFront(Trim(s), n);
      NoSpaceBehind(Trim(s), n);
    }
    hide FrontSpace, BackSpace, Spaces, TrimLeft, TrimRight, Concat;
    var left := TrimLeftTakesSpaces(s);
    var right := TrimRightTakesSpaces(TrimLeft(s));
    Assoc(Concat(left), Trim(s), Concat(right));
  }

  lemma TrimEmpty()
    ensures Trim([]) == []
  {}

  // ---- lines

  /** Adds the newline that is missing at the end. */
  function FixNL(s: bytes): bytes { if s == [] || s[|s| - 1] == NL then s else s + [NL] }

  predicate Ends(s: bytes) { s == [] || s[|s| - 1] == NL }

  /** One line: a newline at the end and nowhere else. */
  predicate IsLine(s: bytes) { s != [] && s[|s| - 1] == NL && NL !in s[..|s| - 1] }

  /** Position of the first newline. */
  function LineEnd(s: bytes): (i: nat)
    requires s != [] && Ends(s)
    ensures i < |s| && s[i] == NL && NL !in s[..i]
  {
    if s[0] == NL then 0 else
      assert Ends(s[1..]);
      assert s[..1 + LineEnd(s[1..])] == [s[0]] + s[1..][..LineEnd(s[1..])];
      1 + LineEnd(s[1..])
  }

  function Lines(s: bytes): (ls: seq<bytes>)
    requires Ends(s)
    ensures forall l | l in ls :: IsLine(l)
  {
    if s == [] then [] else
      var i := LineEnd(s) + 1;
      assert s[..i][..i - 1] == s[..i - 1];
      [s[..i]] + Lines(s[i..])
  }

  lemma FirstLine(s: bytes)
    requires s != [] && Ends(s)
    ensures var i := LineEnd(s) + 1;
      IsLine(s[..i]) && Ends(s[i..]) && s == s[..i] + s[i..] && Lines(s) == [s[..i]] + Lines(s[i..])
  {
    hide LineEnd;
    assert s[..LineEnd(s) + 1][..LineEnd(s)] == s[..LineEnd(s)];
  }

  lemma {:induction false} ConcatOfLines(s: bytes)
    requires Ends(s)
    ensures Concat(Lines(s)) == s
  {
    if s != [] {
      FirstLine(s);
      hide Lines, LineEnd, IsLine;
      var i := LineEnd(s) + 1;
      ConcatOfLines(s[i..]);
      assert Lines(s)[1..] == Lines(s[i..]);
    }
  }

  lemma {:induction false} LineEndIs(t: bytes, i: nat)
    requires t != [] && Ends(t) && i < |t| && t[i] == NL && NL !in t[..i]
    ensures LineEnd(t) == i
  {
    assert i > 0 ==> t[..i][0] == t[0];
    if i > 0 {
      assert t[..i] == [t[0]] + t[1..][..i - 1];
      LineEndIs(t[1..], i - 1);
    }
  }

  lemma LinesCons(l: bytes, s: bytes)
    requires IsLine(l) && Ends(s)
    ensures Ends(l + s) && Lines(l + s) == [l] + Lines(s)
  {
    assert (l + s)[..|l| - 1] == l[..|l| - 1];
    LineEndIs(l + s, |l| - 1);
    assert (l + s)[..|l|] == l && (l + s)[|l|..] == s;
  }

  lemma {:induction false} LinesAppend(s: bytes, t: bytes)
    requires Ends(s) && Ends(t)
    ensures Ends(s + t) && Lines(s + t) == Lines(s) + Lines(t)
  {
    if s == [] {
      assert s + t == t;
    } else {
      FirstLine(s);
      var l, rest := s[..LineEnd(s) + 1], s[LineEnd(s) + 1..];
      hide *;
      LinesAppend(rest, t);
      Assoc(l, rest, t);
      LinesCons(l, rest + t);
      Assoc([l], Lines(rest), Lines(t));
    }
  }

  // ---- parsing and formatting

  /** The file name on a marker line; a line whose name is blank is no marker. */
  function MarkerName(line: bytes): Option<bytes> {
    var l := if Ends(line) && line != [] then line[..|line| - 1] else line;
    if |l| >= |MARKER| + |MARKER_END| && MARKER <= l && l[|l| - |MARKER_END|..] == MARKER_END
    then
      var name := Trim(l[|MARKER|..|l| - |MARKER_END|]);
      if name == [] then None else Some(name)
    else None
  }

  /** Marker lines start files; other lines belong to what they follow. */
  function Split(ls: seq<bytes>): Archive {
    if ls == [] then Archive([], [])
    else
      var rest := Split(ls[1..]);
      match MarkerName(ls[0])
      case Some(name) => Archive([], [File(name, rest.comment)] + rest.files)
      case None => rest.(comment := ls[0] + rest.comment)
  }

  function Parse(s: bytes): Archive { Split(Lines(FixNL(s))) }

  function FormatFile(f: File): bytes { MARKER + f.name + MARKER_END + [NL] + FixNL(f.data) }

  function FormatFiles(fs: seq<File>): bytes {
    if fs == [] then [] else FormatFile(fs[0]) + FormatFiles(fs[1..])
  }

  function Format(a: Archive): bytes { FixNL(a.comment) + FormatFiles(a.files) }

  // ---- archives that survive formatting

  /** Whole lines, none of them a marker. */
  predicate IsBody(s: bytes) { Ends(s) && forall l | l in Lines(s) :: MarkerName(l).None? }

  predicate IsName(name: bytes) { name != [] && Trim(name) == name && NL !in name }

  predicate WellFormed(a: Archive) {
    IsBody(a.comment) && forall f | f in a.files :: IsName(f.name) && IsBody(f.data)
  }

  /** A marker line: two dashes and a space, a name that is not blank between white space, and the same in
      reverse. */
  ghost predicate IsMarker(line: bytes, name: bytes) {
    name != [] && exists inner :: line == [45, 45, 32] + inner + [32, 45, 45] + [10] && Trim(inner) == name
  }

  /** Marker lines, and their names, are told exactly. */
  lemma MarkerExactly(line: bytes, name: bytes)
    requires IsLine(line)
    ensures MarkerName(line) == Some(name) <==> IsMarker(line, name)
  {
    hide Trim;
    var l := line[..|line| - 1];
    assert line == l + [10];
    if MarkerName(line) == Some(name) {
      var inner := l[|MARKER|..|l| - |MARKER_END|];
      assert l == MARKER + inner + MARKER_END;
      assert line == [45, 45, 32] + inner + [32, 45, 45] + [10];
    }
    forall inner | line == [45, 45, 32] + inner + [32, 45, 45] + [10] && Trim(inner) == name && name != []
      ensures MarkerName(line) == Some(name)
    {
      assert l == MARKER + inner + MARKER_END;
      assert l[|MARKER|..|l| - |MARKER_END|] == inner;
      assert l[|l| - |MARKER_END|..] == MARKER_END;
    }
  }

  lemma MarkerNameIsName(l: bytes)
    requires IsLine(l) && MarkerName(l).Some?
    ensures IsName(MarkerName(l).value)
  {
    hide Trim, FrontSpace, BackSpace;
    var inner := l[..|l| - 1][|MARKER|..|l| - 1 - |MARKER_END|];
    TrimIsFixed(inner);
    assert NL !in inner;
  }

  lemma MarkerLineHasName(name: bytes)
    requires IsName(name)
    ensures var l := MARKER + name + MARKER_END + [NL];
      IsLine(l) && MarkerName(l) == Some(name)
  {
    hide Trim;
    var l := MARKER + name + MARKER_END + [NL];
    var inner := MARKER + name + MARKER_END;
    assert l[..|l| - 1] == inner;
    assert inner[|MARKER|..|inner| - |MARKER_END|] == name;
    assert inner[|inner| - |MARKER_END|..] == MARKER_END;
  }

  lemma BodyCons(l: bytes, s: bytes)
    requires IsLine(l) && MarkerName(l).None? && IsBody(s)
    ensures IsBody(l + s)
  {
    LinesCons(l, s);
  }

  lemma EmptyBody()
    ensures IsBody([])
  {}

  /** Parsing any text gives an archive of whole lines with trimmed names and no marker inside. */
  lemma {:induction false} SplitIsWellFormed(ls: seq<bytes>)
    requires forall l | l in ls :: IsLine(l)
    ensures WellFormed(Split(ls))
  {
    hide MarkerName, IsBody, IsName, IsLine;
    if ls == [] {
      EmptyBody();
    } else {
      SplitIsWellFormed(ls[1..]);
      EmptyBody();
      match MarkerName(ls[0])
      case Some(name) => MarkerNameIsName(ls[0]);
      case None => BodyCons(ls[0], Split(ls[1..]).comment);
    }
  }

  /** A body in front of other lines is taken whole. */
  lemma {:induction false} SplitBody(body: seq<bytes>, rest: seq<bytes>)
    requires forall l | l in body :: MarkerName(l).None?
    ensures Split(body + rest) == Split(rest).(comment := Concat(body) + Split(rest).comment)
  {
    hide MarkerName;
    if body == [] {
      assert body + rest == rest;
      assert Concat(body) + Split(rest).comment == Split(rest).comment;
    } else {
      var ls := body[1..] + rest;
      assert body + rest == [body[0]] + ls && (body + rest)[1..] == ls;
      SplitBody(body[1..], rest);
      assert Split(body + rest) == Split(ls).(comment := body[0] + Split(ls).comment);
      assert Concat(body) + Split(rest).comment == body[0] + (Concat(body[1..]) + Split(rest).comment);
    }
  }

  lemma BodyAppend(s: bytes, t: bytes)
    requires IsBody(s) && Ends(t)
    ensures Ends(s + t) && Split(Lines(s + t)) == Split(Lines(t)).(comment := s + Split(Lines(t)).comment)
  {
    hide MarkerName, Lines;
    LinesAppend(s, t);
    SplitBody(Lines(s), Lines(t));
    ConcatOfLines(s);
  }

  lemma SplitMarker(marker: bytes, name: bytes, ls: seq<bytes>)
    requires MarkerName(marker) == Some(name)
    ensures Split([marker] + ls) == Archive([], [File(name, Split(ls).comment)] + Split(ls).files)
  {
    hide MarkerName;
    assert ([marker] + ls)[1..] == ls;
  }

  /** A file in front of other files. */
  lemma FileAppend(marker: bytes, f: File, t: bytes)
    requires IsLine(marker) && MarkerName(marker) == Some(f.name)
    requires IsBody(f.data) && Ends(t) && Split(Lines(t)).comment == []
    ensures Ends(marker + f.data + t)
    ensures Split(Lines(marker + f.data + t)) == Archive([], [f] + Split(Lines(t)).files)
  {
    hide MarkerName, IsLine, Split, Lines;
    BodyAppend(f.data, t);
    LinesCons(marker, f.data + t);
    Assoc(marker, f.data, t);
    assert f.data + [] == f.data;
    SplitMarker(marker, f.name, Lines(f.data + t));
  }

  /** Files written out, each behind its marker line. */
  function Weave(markers: seq<bytes>, fs: seq<File>): bytes
    requires |markers| == |fs|
  {
    if fs == [] then [] else markers[0] + fs[0].data + Weave(markers[1..], fs[1..])
  }

  /** `markers` are marker lines for the files `fs`. */
  ghost predicate Mark(markers: seq<bytes>, fs: seq<File>) {
    && |markers| == |fs|
    && (fs == [] ||
        (IsLine(markers[0]) && IsMarker(markers[0], fs[0].name) && Mark(markers[1..], fs[1..])))
  }

  predicate Bodies(fs: seq<File>) { forall f | f in fs :: IsBody(f.data) }

  lemma {:induction false} SplitWeave(markers: seq<bytes>, fs: seq<File>)
    requires Mark(markers, fs) && Bodies(fs)
    ensures Ends(Weave(markers, fs)) && Split(Lines(Weave(markers, fs))) == Archive([], fs)
  {
    hide MarkerName, IsLine, IsBody, IsMarker;
    if fs != [] {
      SplitWeave(markers[1..], fs[1..]);
      assert fs == [fs[0]] + fs[1..] && fs[0] in fs;
      MarkerExactly(markers[0], fs[0].name);
      assert Weave(markers, fs) == markers[0] + fs[0].data + Weave(markers[1..], fs[1..]);
      hide *;
      FileAppend(markers[0], fs[0], Weave(markers[1..], fs[1..]));
    }
  }

  lemma WeaveCons(marker: bytes, f: File, markers: seq<bytes>, fs: seq<File>)
    requires |markers| == |fs|
    ensures Weave([marker] + markers, [f] + fs) == marker + f.data + Weave(markers, fs)
  {
    assert ([marker] + markers)[1..] == markers && ([f] + fs)[1..] == fs;
  }

  lemma MarkCons(marker: bytes, f: File, markers: seq<bytes>, fs: seq<File>)
    requires Mark(markers, fs) && IsLine(marker) && MarkerName(marker) == Some(f.name)
    ensures Mark([marker] + markers, [f] + fs)
  {
    MarkerExactly(marker, f.name);
    hide MarkerName, IsLine, IsMarker;
    assert ([marker] + markers)[1..] == markers && ([f] + fs)[1..] == fs;
  }

  lemma EmptyWeave()
    ensures Mark([], []) && Weave([], []) == []
  {}

  lemma {:induction false} SplitKeepsLines(ls: seq<bytes>) returns (markers: seq<bytes>)
    requires forall l | l in ls :: IsLine(l)
    ensures Mark(markers, Split(ls).files)
    ensures Split(ls).comment + Weave(markers, Split(ls).files) == Concat(ls)
  {
    hide MarkerName, IsLine, Weave;
    if ls == [] {
      markers := [];
      EmptyWeave();
    } else {
      var rest := Split(ls[1..]);
      var more := SplitKeepsLines(ls[1..]);
      Assoc(ls[0], rest.comment, Weave(more, rest.files));
      match MarkerName(ls[0])
      case Some(name) =>
        markers := [ls[0]] + more;
        MarkCons(ls[0], File(name, rest.comment), more, rest.files);
        WeaveCons(ls[0], File(name, rest.comment), more, rest.files);
      case None =>
        markers := more;
    }
  }

  /** `s`, with the newline that may be missing at its end, is the comment of `a` and then each of its files
      behind one of the `markers`. */
  ghost predicate Woven(s: bytes, markers: seq<bytes>, a: Archive) {
    && Mark(markers, a.files)
    && a.comment + Weave(markers, a.files) == if s == [] || s[|s| - 1] == 10 then s else s + [10]
  }

  /** Whole lines, none of them a marker. */
  ghost predicate NoMarkers(s: bytes) { Ends(s) && forall l, name | l in Lines(s) :: !IsMarker(l, name) }

  lemma BodyExactly(s: bytes)
    ensures IsBody(s) <==> NoMarkers(s)
  {
    hide MarkerName, IsLine, IsMarker;
    if Ends(s) {
      forall l | l in Lines(s) ensures MarkerName(l).None? <==> forall name :: !IsMarker(l, name) {
        forall name ensures MarkerName(l) == Some(name) <==> IsMarker(l, name) {
          MarkerExactly(l, name);
        }
      }
    }
  }

  lemma WovenIsParsed(s: bytes, markers: seq<bytes>, a: Archive)
    requires Woven(s, markers, a) && IsBody(a.comment) && Bodies(a.files)
    ensures a == Parse(s)
  {
    hide MarkerName, IsLine, IsMarker, Split, Lines;
    SplitWeave(markers, a.files);
    BodyAppend(a.comment, Weave(markers, a.files));
    assert a.comment + [] == a.comment;
  }

  lemma ParseIsWoven(s: bytes)
    ensures exists markers :: Woven(s, markers, Parse(s))
  {
    hide MarkerName, Split, Lines, IsLine, Weave, Mark;
    var markers := SplitKeepsLines(Lines(FixNL(s)));
    ConcatOfLines(FixNL(s));
    assert Woven(s, markers, Parse(s));
  }

  /** Every text parses to whole lines, trimmed names and bodies without marker lines. */
  lemma ParseIsWellFormed(s: bytes)
    ensures WellFormed(Parse(s))
  {
    SplitIsWellFormed(Lines(FixNL(s)));
  }

  /** Parsing loses nothing of the text, and is the only way to read it as files with no marker line inside. */
  lemma ParseExactly(s: bytes, a: Archive)
    ensures a == Parse(s) <==>
      && NoMarkers(a.comment) && (forall f | f in a.files :: NoMarkers(f.data))
      && exists markers :: Woven(s, markers, a)
  {
    ParseIsWellFormed(s);
    BodyExactly(a.comment);
    forall f | f in a.files ensures IsBody(f.data) <==> NoMarkers(f.data) {
      BodyExactly(f.data);
    }
    hide MarkerName, IsName, IsBody, Woven, Parse, NoMarkers;
    ParseIsWoven(s);
    if IsBody(a.comment) && Bodies(a.files) {
      forall markers | Woven(s, markers, a) ensures a == Parse(s) {
        WovenIsParsed(s, markers, a);
      }
    }
  }

  lemma {:induction false} FormatIsWeave(fs: seq<File>) returns (markers: seq<bytes>)
    requires forall f | f in fs :: IsName(f.name) && IsBody(f.data)
    ensures Mark(markers, fs) && FormatFiles(fs) == Weave(markers, fs)
  {
    hide MarkerName, IsName, IsLine, IsMarker;
    markers := [];
    if fs != [] {
      var more := FormatIsWeave(fs[1..]);
      assert fs[0] in fs;
      MarkerLineHasName(fs[0].name);
      MarkerExactly(MARKER + fs[0].name + MARKER_END + [NL], fs[0].name);
      markers := [MARKER + fs[0].name + MARKER_END + [NL]] + more;
    }
  }

  /** Formatting and parsing again returns exactly the well-formed archives unchanged. */
  lemma ParseFormat(a: Archive)
    ensures Parse(Format(a)) == a <==> WellFormed(a)
  {
    ParseIsWellFormed(Format(a));
    hide MarkerName, IsName, Split, Lines, FormatFiles;
    if WellFormed(a) {
      var markers := FormatIsWeave(a.files);
      SplitWeave(markers, a.files);
      BodyAppend(a.comment, Weave(markers, a.files));
      assert a.comment + [] == a.comment;
    }
  }

  function FixedFile(f: File): File {
    f.(data := if f.data == [] || f.data[|f.data| - 1] == 10 then f.data else f.data + [10])
  }

  /** The archive with the newlines added that are missing at the end of its texts. */
  function Fixed(a: Archive): Archive {
    Archive(FixNL(a.comment), seq(|a.files|, i requires 0 <= i < |a.files| => FixedFile(a.files[i])))
  }

  lemma {:induction false} FormatFixesFiles(fs: seq<File>, gs: seq<File>)
    requires |gs| == |fs| && forall i :: 0 <= i < |fs| ==> gs[i] == FixedFile(fs[i])
    ensures FormatFiles(gs) == FormatFiles(fs)
  {
    if fs != [] {
      FormatFixesFiles(fs[1..], gs[1..]);
    }
  }

  /** Formatting adds the missing newlines: formatting and parsing again gives exactly that. */
  lemma ParseFormatFixed(a: Archive)
    ensures Format(a) == Format(Fixed(a))
    ensures Parse(Format(a)) == Fixed(a) <==> WellFormed(Fixed(a))
  {
    FormatFixesFiles(a.files, Fixed(a).files);
    ParseFormat(Fixed(a));
  }
}
