/** Sets of source files, and splitting a program text into one. */
module FileSets {
  import opened Bytes
  import opened Txtar
  import PathNames

  /** "prog.go", the name of the file that needs no marker line. */
  const PROG: bytes := [112, 114, 111, 103, 46, 103, 111]

  const MAX_FILES := 20

  datatype Error =
    | TooManyFiles(n: nat)
    | BadName(name: bytes, problem: PathNames.NameError)
    | Duplicate(name: bytes)

  predicate Distinct(names: seq<bytes>) {
    forall i, j :: 0 <= i < j < |names| ==> names[i] != names[j]
  }

  /** The order lists each file of the map once. */
  ghost predicate Agree(files: seq<bytes>, m: map<bytes, bytes>) {
    && Distinct(files)
    && (forall f :: f in files <==> f in m)
  }

  /** A set with an implicit program starts with it. */
  predicate HeaderOk(files: seq<bytes>, noHeader: bool) {
    noHeader ==> files != [] && files[0] == PROG
  }

  /** The archive that stands for a file set. */
  function ToArchive(files: seq<bytes>, m: map<bytes, bytes>, noHeader: bool): Archive
    requires Agree(files, m) && HeaderOk(files, noHeader)
  {
    var listed := if noHeader then files[1..] else files;
    assert forall i | 0 <= i < |listed| :: listed[i] in files;
    Archive(
      if noHeader then m[PROG] else [],
      seq(|listed|, i requires 0 <= i < |listed| => File(listed[i], m[listed[i]])))
  }

  lemma {:induction false} DistinctCount(names: seq<bytes>, all: set<bytes>)
    requires Distinct(names) && forall n :: n in names <==> n in all
    ensures |all| == |names|
  {
    if names == [] {
      assert all == {};
    } else {
      var k := |names| - 1;
      assert forall n :: n in names <==> n in names[..k] || n == names[k];
      DistinctCount(names[..k], all - {names[k]});
    }
  }

  lemma NumIsCount(files: seq<bytes>, m: map<bytes, bytes>)
    requires Agree(files, m)
    ensures |m| == |files|
  {
    DistinctCount(files, m.Keys);
  }

  class FileSet {
    var files: seq<bytes>
    var m: map<bytes, bytes>
    var noHeader: bool

    ghost predicate Valid()
      reads this
    {
      Agree(files, m)
    }

    constructor ()
      ensures Valid() && files == [] && m == map[] && !noHeader
    {
      files, m, noHeader := [], map[], false;
    }

    function Num(): (n: nat)
      requires Valid()
      reads this
      ensures n == |files|
    {
      NumIsCount(files, m);
      |m|
    }

    predicate Contains(filename: bytes)
      reads this
    {
      filename in m
    }

    /** Adds or replaces a file; a new one goes to the end, a replaced one keeps its place. */
    method AddFile(filename: bytes, src: bytes)
      requires Valid()
      modifies this`files, this`m
      ensures Valid() && m == old(m)[filename := src]
      ensures files == if filename in old(m) then old(files) else old(files) + [filename]
    {
      var had := Contains(filename);
      m := m[filename := src];
      if !had {
        files := files + [filename];
      }
    }

    method Format() returns (b: bytes)
      requires Valid() && HeaderOk(files, noHeader)
      ensures b == Txtar.Format(ToArchive(files, m, noHeader))
    {
      var comment := if noHeader then m[PROG] else [];
      var archive: seq<File> := [];
      for i := 0 to |files|
        invariant noHeader && i == 0 ==> archive == []
        invariant noHeader && i > 0 ==> |archive| == i - 1
        invariant !noHeader ==> |archive| == i
        invariant forall j :: 0 <= j < |archive| ==>
          archive[j] == ToArchive(files, m, noHeader).files[j]
      {
        if !(i == 0 && files[i] == PROG && noHeader) {
          archive := archive + [File(files[i], m[files[i]])];
        }
      }
      assert archive == ToArchive(files, m, noHeader).files;
      b := Txtar.Format(Archive(comment, archive));
    }
  }

  /** The names in `files`, then those of `more` that are new, each where it was first added. */
  function Order(files: seq<bytes>, more: seq<File>): seq<bytes> {
    if more == [] then files
    else
      var k := |more| - 1;
      var before := Order(files, more[..k]);
      if more[k].name in before then before else before + [more[k].name]
  }

  /** The map after adding all of `more`. */
  function Contents(m: map<bytes, bytes>, more: seq<File>): map<bytes, bytes> {
    if more == [] then m
    else
      var k := |more| - 1;
      Contents(m, more[..k])[more[k].name := more[k].data]
  }

  lemma OneMore(files: seq<bytes>, m: map<bytes, bytes>, more: seq<File>, i: nat)
    requires i < |more|
    ensures var before, n := Order(files, more[..i]), more[i].name;
      Order(files, more[..i + 1]) == if n in before then before else before + [n]
    ensures Contents(m, more[..i + 1]) == Contents(m, more[..i])[more[i].name := more[i].data]
  {
    assert more[..i + 1][..i] == more[..i];
  }

  lemma NoneYet(files: seq<bytes>, m: map<bytes, bytes>, more: seq<File>)
    ensures Order(files, more[..0]) == files && Contents(m, more[..0]) == m
  {}

  lemma {:induction false} OrderNames(files: seq<bytes>, more: seq<File>, n: bytes)
    ensures n in Order(files, more) <==> n in files || exists j :: 0 <= j < |more| && more[j].name == n
  {
    if more != [] {
      var k := |more| - 1;
      OrderNames(files, more[..k], n);
      assert (exists j :: 0 <= j < |more| && more[j].name == n)
        <==> more[k].name == n || exists j :: 0 <= j < k && more[..k][j].name == n;
    }
  }

  /** The place of a name is settled when it is first added: later additions only append. */
  lemma {:induction false} FirstAdditionPlaces(files: seq<bytes>, more: seq<File>, i: nat)
    requires i <= |more|
    ensures Order(files, more[..i]) <= Order(files, more)
    ensures forall n :: n in Order(files, more) <==> n in files || exists j :: 0 <= j < |more| && more[j].name == n
  {
    forall n ensures n in Order(files, more) <==> n in files || exists j :: 0 <= j < |more| && more[j].name == n {
      OrderNames(files, more, n);
    }
    var k := |more| - 1;
    if i <= k {
      FirstAdditionPlaces(files, more[..k], i);
      assert more[..k][..i] == more[..i];
    } else {
      assert more[..i] == more;
    }
  }

  /** Any sequence of additions keeps the order and the map in agreement, and an implicit program first. */
  method AddAll(fs: FileSet, more: seq<File>)
    requires fs.Valid() && HeaderOk(fs.files, fs.noHeader)
    modifies fs`files, fs`m
    ensures fs.Valid() && HeaderOk(fs.files, fs.noHeader)
    ensures old(fs.files) <= fs.files
    ensures fs.files == Order(old(fs.files), more) && fs.m == Contents(old(fs.m), more)
  {
    ghost var files, m := fs.files, fs.m;
    NoneYet(files, m, more);
    hide Agree, Order, Contents;
    for i := 0 to |more|
      invariant fs.Valid() && fs.files == Order(files, more[..i]) && fs.m == Contents(m, more[..i])
    {
      OneMore(files, m, more, i);
      fs.AddFile(more[i].name, more[i].data);
    }
    assert more[..|more|] == more;
    FirstAdditionPlaces(files, more, 0);
  }

  /** The contents of a name are those of its last addition, or as before if it was not added. */
  lemma {:induction false} LastAdditionCounts(m: map<bytes, bytes>, more: seq<File>, n: bytes)
    ensures var r := Contents(m, more);
      || ((forall j :: 0 <= j < |more| ==> more[j].name != n) && (n in r <==> n in m) && (n in m ==> r[n] == m[n]))
      || exists i :: 0 <= i < |more| && more[i].name == n && (forall j :: i < j < |more| ==> more[j].name != n)
           && n in r && r[n] == more[i].data
  {
    if more != [] {
      var k := |more| - 1;
      LastAdditionCounts(m, more[..k], n);
      if more[k].name != n && exists i :: 0 <= i < k && more[i].name == n {
        var i :| 0 <= i < k && more[i].name == n && (forall j :: i < j < k ==> more[j].name != n)
          && n in Contents(m, more[..k]) && Contents(m, more[..k])[n] == more[i].data;
        assert forall j :: i < j < |more| ==> more[j].name != n;
      }
    }
  }

  // ---- splitting

  /** The text before the first marker is a program, unless it is blank. */
  predicate HasProgram(a: Archive) { Trim(a.comment) != [] }

  function AllFiles(a: Archive): seq<File> {
    (if HasProgram(a) then [File(PROG, a.comment)] else []) + a.files
  }

  function Names(fs: seq<File>): (names: seq<bytes>)
    ensures |names| == |fs|
  {
    seq(|fs|, i requires 0 <= i < |fs| => fs[i].name)
  }

  predicate Acceptable(a: Archive) {
    && |AllFiles(a)| <= 20
    && (forall f | f in a.files :: PathNames.Canonical(f.name))
    && Distinct(Names(AllFiles(a)))
  }

  /** What is wrong with `f` after the files `before`, if anything. */
  function Problem(before: seq<File>, f: File): Option<Error> {
    match PathNames.NameProblem(f.name)
    case Some(p) => Some(BadName(f.name, p))
    case None => if f.name in Names(before) then Some(Duplicate(f.name)) else None
  }

  function Before(a: Archive, i: nat): seq<File>
    requires i <= |a.files|
  {
    AllFiles(a)[..|AllFiles(a)| - |a.files| + i]
  }

  predicate FileOk(a: Archive, i: nat)
    requires i < |a.files|
  {
    Problem(Before(a, i), a.files[i]).None?
  }

  /** `e` is the complaint about the first file that has a problem. */
  predicate FirstProblem(a: Archive, i: nat, e: Error) {
    && i < |a.files|
    && (forall j :: 0 <= j < i ==> FileOk(a, j))
    && Problem(Before(a, i), a.files[i]) == Some(e)
  }

  /** The set holds the files `fs`, in order. */
  predicate Holds(files: seq<bytes>, m: map<bytes, bytes>, fs: seq<File>) {
    && files == Names(fs)
    && forall i :: 0 <= i < |fs| ==> fs[i].name in m && m[fs[i].name] == fs[i].data
  }

  lemma DistinctSnoc(names: seq<bytes>, n: bytes)
    ensures Distinct(names + [n]) <==> Distinct(names) && n !in names
  {
    var all := names + [n];
    if Distinct(all) {
      forall i, j | 0 <= i < j < |names| ensures names[i] != names[j] { assert all[i] != all[j]; }
      forall i | 0 <= i < |names| ensures names[i] != n { assert all[i] != all[|names|]; }
    }
  }

  lemma DistinctStart(a: Archive)
    ensures Distinct(Names(Before(a, 0)))
  {
    hide HasProgram;
  }

  lemma BeforeNext(a: Archive, i: nat)
    requires i < |a.files|
    ensures Before(a, i + 1) == Before(a, i) + [a.files[i]]
    ensures Names(Before(a, i + 1)) == Names(Before(a, i)) + [a.files[i].name]
  {
    hide Trim;
  }

  lemma FileOkExactly(a: Archive, i: nat)
    requires i < |a.files|
    ensures FileOk(a, i) <==> PathNames.Canonical(a.files[i].name) && a.files[i].name !in Names(Before(a, i))
  {
    PathNames.AcceptedExactly(a.files[i].name);
    hide Before, PathNames.NameProblem, PathNames.Canonical;
  }

  lemma {:induction false} DistinctPrefix(a: Archive, i: nat)
    requires i <= |a.files|
    requires forall j :: 0 <= j < i ==> FileOk(a, j)
    ensures Distinct(Names(Before(a, i)))
  {
    hide *;
    if i == 0 {
      DistinctStart(a);
    } else {
      assert FileOk(a, i - 1);
      DistinctPrefix(a, i - 1);
      FileOkExactly(a, i - 1);
      BeforeNext(a, i - 1);
      DistinctSnoc(Names(Before(a, i - 1)), a.files[i - 1].name);
    }
  }

  lemma PrefixOfDistinct(a: Archive, i: nat)
    requires i < |a.files| && Distinct(Names(AllFiles(a)))
    ensures a.files[i].name !in Names(Before(a, i))
  {
    hide HasProgram, PathNames.Canonical;
    var all := AllFiles(a);
    var k := |all| - |a.files| + i;
    assert all[k] == a.files[i];
    forall j | 0 <= j < k ensures Names(Before(a, i))[j] != a.files[i].name {
      assert Names(all)[j] != Names(all)[k];
    }
  }

  lemma FirstAndLast(a: Archive)
    ensures Before(a, |a.files|) == AllFiles(a)
    ensures Before(a, 0) == if HasProgram(a) then [File(PROG, a.comment)] else []
    ensures |AllFiles(a)| > MAX_FILES ==> !Acceptable(a)
  {
    hide Trim;
  }

  /** The checks, taken file by file, accept exactly the acceptable archives. */
  lemma ChecksAcceptExactly(a: Archive)
    requires |AllFiles(a)| <= MAX_FILES
    ensures Acceptable(a) <==> forall i :: 0 <= i < |a.files| ==> FileOk(a, i)
  {
    hide Before, AllFiles, PathNames.NameProblem, PathNames.Canonical, Distinct, Problem;
    if Acceptable(a) {
      forall i | 0 <= i < |a.files| ensures FileOk(a, i) {
        PrefixOfDistinct(a, i);
        FileOkExactly(a, i);
      }
    }
    if forall i :: 0 <= i < |a.files| ==> FileOk(a, i) {
      DistinctPrefix(a, |a.files|);
      FirstAndLast(a);
      forall f | f in a.files ensures PathNames.Canonical(f.name) {
        var i :| 0 <= i < |a.files| && a.files[i] == f;
        FileOkExactly(a, i);
      }
    }
  }

  datatype SplitResult = Accepted(fs: FileSet) | Rejected(err: Error)

  lemma HoldsSnoc(files: seq<bytes>, m: map<bytes, bytes>, fs: seq<File>, f: File)
    requires Holds(files, m, fs) && f.name !in files
    ensures Holds(files + [f.name], m[f.name := f.data], fs + [f])
  {
    forall i | 0 <= i < |fs| ensures fs[i].name != f.name { assert files[i] == fs[i].name; }
  }

  /** After checking the files before `i`, a problem with `i` is the first one and refuses the archive. */
  lemma Checked(a: Archive, i: nat)
    requires i < |a.files| && |AllFiles(a)| <= MAX_FILES && forall j :: 0 <= j < i ==> FileOk(a, j)
    ensures match Problem(Before(a, i), a.files[i])
      case None => FileOk(a, i)
      case Some(e) => FirstProblem(a, i, e) && !Acceptable(a)
  {
    hide Before, AllFiles, Acceptable, Problem;
    ChecksAcceptExactly(a);
    assert FileOk(a, i) <==> Problem(Before(a, i), a.files[i]).None?;
  }

  /** Splits a program text. It is accepted exactly if its archive is, and then the set holds the archive's
      files in order; otherwise the error is about the first file with a problem. */
  method SplitFiles(src: bytes) returns (r: SplitResult)
    ensures r.Accepted? <==> Acceptable(Parse(src))
    ensures r.Accepted? ==>
      && fresh(r.fs) && r.fs.Valid() && HeaderOk(r.fs.files, r.fs.noHeader)
      && Holds(r.fs.files, r.fs.m, AllFiles(Parse(src)))
      && r.fs.noHeader == HasProgram(Parse(src))
    ensures r.Rejected? ==>
      var a := Parse(src);
      if |AllFiles(a)| > MAX_FILES then r.err == TooManyFiles(|AllFiles(a)|)
      else exists i :: FirstProblem(a, i, r.err)
  {
    hide Parse, PathNames.NameProblem, Trim, Before, Acceptable, FirstProblem, FileOk, Distinct;
    var fs := new FileSet();
    var a := Parse(src);
    FirstAndLast(a);
    if Trim(a.comment) != [] {
      fs.noHeader := true;
      fs.AddFile(PROG, a.comment);
    }
    var numFiles := |a.files| + fs.Num();
    if numFiles > MAX_FILES {
      return Rejected(TooManyFiles(numFiles));
    }
    ChecksAcceptExactly(a);
    for i := 0 to |a.files|
      invariant fresh(fs) && fs.Valid() && HeaderOk(fs.files, fs.noHeader)
      invariant fs.noHeader == HasProgram(a)
      invariant Holds(fs.files, fs.m, Before(a, i))
      invariant forall j :: 0 <= j < i ==> FileOk(a, j)
    {
      var f := a.files[i];
      Checked(a, i);
      match PathNames.NameProblem(f.name) {
        case Some(p) => return Rejected(BadName(f.name, p));
        case None =>
      }
      if fs.Contains(f.name) {
        return Rejected(Duplicate(f.name));
      }
      HoldsSnoc(fs.files, fs.m, Before(a, i), f);
      BeforeNext(a, i);
      fs.AddFile(f.name, f.data);
    }
    return Accepted(fs);
  }

  /** A text without marker lines that is not blank is one file, "prog.go". */
  lemma PlainProgram(src: bytes)
    requires NoMarkers(src) && Trim(src) != []
    ensures Acceptable(Parse(src)) && HasProgram(Parse(src))
    ensures AllFiles(Parse(src)) == [File([112, 114, 111, 103, 46, 103, 111], src)]
  {
    hide MarkerName, Lines, Trim, Parse, IsMarker;
    var a := Archive(src, []);
    assert Woven(src, [], a) by {
      assert src + [] == src;
    }
    ParseExactly(src, a);
  }

  // ---- splitting and formatting

  /** What formatting keeps of an archive: all of it but a blank comment. */
  function Kept(a: Archive): Archive { if HasProgram(a) then a else a.(comment := []) }

  lemma BlankComment(a: Archive)
    ensures HasProgram(Kept(a)) == HasProgram(a) && AllFiles(Kept(a)) == AllFiles(a) && Kept(Kept(a)) == Kept(a)
    ensures Acceptable(Kept(a)) <==> Acceptable(a)
    ensures WellFormed(a) ==> WellFormed(Kept(a))
  {
    hide IsName, Trim, IsBody, PathNames.Canonical, Distinct;
    TrimEmpty();
    EmptyBody();
  }

  /** A set that was split off a text stands for the archive in that text, but for a blank comment. */
  lemma ArchiveOfSplit(files: seq<bytes>, m: map<bytes, bytes>, a: Archive)
    requires Agree(files, m) && HeaderOk(files, HasProgram(a)) && Holds(files, m, AllFiles(a))
    ensures ToArchive(files, m, HasProgram(a)) == Kept(a)
  {
    hide Trim;
    var k := if HasProgram(a) then 1 else 0;
    forall i | 0 <= i < |a.files|
      ensures ToArchive(files, m, HasProgram(a)).files[i] == a.files[i]
    {
      assert AllFiles(a)[i + k] == a.files[i];
      assert files[i + k] == a.files[i].name;
    }
    assert HasProgram(a) ==> AllFiles(a)[0] == File(PROG, a.comment);
  }

  /** For every accepted text, formatting the set and splitting again is accepted and gives the same files in
      the same order with the same contents, and formatting once more changes nothing. */
  lemma FormatIsCanonical(src: bytes)
    ensures var a := Parse(src);
      var out := Txtar.Format(Kept(a));
      && Parse(out) == Kept(a)
      && (Acceptable(Parse(out)) <==> Acceptable(a))
      && AllFiles(Parse(out)) == AllFiles(a) && HasProgram(Parse(out)) == HasProgram(a)
      && Txtar.Format(Kept(Parse(out))) == out
  {
    hide *;
    var a := Parse(src);
    ParseIsWellFormed(src);
    BlankComment(a);
    ParseFormat(Kept(a));
  }

  lemma SameMaps(files: seq<bytes>, m: map<bytes, bytes>, n: map<bytes, bytes>, fs: seq<File>)
    requires Agree(files, m) && Agree(files, n) && Holds(files, m, fs) && Holds(files, n, fs)
    ensures m == n
  {
    assert m.Keys == n.Keys by {
      forall f ensures f in m.Keys <==> f in n.Keys { assert f in files <==> f in m; }
    }
    forall f | f in m ensures m[f] == n[f] {
      var i :| 0 <= i < |files| && files[i] == f;
      assert fs[i].name == f;
    }
  }

  /** The same for the methods. */
  method Canonicalize(src: bytes) returns (first: SplitResult, out: bytes, second: SplitResult)
    ensures first.Accepted? <==> Acceptable(Parse(src))
    ensures first.Accepted? ==>
      && out == Txtar.Format(Kept(Parse(src)))
      && second.Accepted?
      && second.fs.files == first.fs.files && second.fs.m == first.fs.m
      && second.fs.noHeader == first.fs.noHeader
  {
    hide Parse, Txtar.Format, Trim;
    first := SplitFiles(src);
    if first.Rejected? {
      return first, [], first;
    }
    out := first.fs.Format();
    ArchiveOfSplit(first.fs.files, first.fs.m, Parse(src));
    FormatIsCanonical(src);
    second := SplitFiles(out);
    SameMaps(first.fs.files, first.fs.m, second.fs.m, AllFiles(Parse(src)));
  }
}
