/**
  The file-name splitting and the recursive zip extraction of `utils.py`.

  An archive is a finite tree: its members in `namelist()` order, each either an
  archive that `zipfile` can open or content it cannot (a regular file, a
  directory entry, a corrupt archive). `os.path.isfile` is the set `isFile` of
  the paths that are regular files once everything has been extracted.
 */
module Utils {
  import opened Wrappers
  import opened Strings

  /** A file ready for ingestion: its path up to the last dot, and what follows that dot. */
  datatype FileInfo = FileInfo(name: string, format: string)

  datatype ZipArchive = ZipArchive(members: seq<Member>)

  datatype Member = Member(name: string, content: Content)

  /** What `zipfile.ZipFile` finds when it is asked to open some bytes. */
  datatype Content = Opaque | Archive(zip: ZipArchive)

  /** The exception `zipfile.ZipFile` raises on bytes that are not a readable archive. */
  datatype ExtractError = BadZipFile

  // ---------------------------------------------------------------- get_file_info

  /** The part of `path` that `^(.*)\.(.*)$` can span under Python's default flags:
      `.` never matches a line break, and `$` also matches just before one final line break. */
  function Anchored(path: string): string {
    if |path| > 0 && path[|path| - 1] == '\n' then path[..|path| - 1] else path
  }

  /** Where the greedy first group stops: at the last dot of `s`. */
  function LastDot(s: string): (r: Option<nat>)
    ensures r.None? <==> '.' !in s
    ensures r.Some? ==> r.value < |s| && s[r.value] == '.' && '.' !in s[r.value + 1..]
  {
    if s == [] then None
    else if s[|s| - 1] == '.' then Some(|s| - 1)
    else
      var init := s[..|s| - 1];
      assert s == init + [s[|s| - 1]];
      var r := LastDot(init);
      assert r.Some? ==> s[r.value + 1..] == init[r.value + 1..] + [s[|s| - 1]];
      r
  }

  /** `get_file_info`: nothing for a path that is not a regular file or that the pattern does not
      match; otherwise the path split at its last dot. */
  function GetFileInfo(isFile: set<string>, path: string): (r: Option<FileInfo>)
    ensures r.Some? <==> path in isFile && '\n' !in Anchored(path) && '.' in Anchored(path)
    ensures r.Some? ==> r.value.name + "." + r.value.format == Anchored(path)
    ensures r.Some? ==> '.' !in r.value.format && '\n' !in r.value.format
  {
    if path !in isFile then None
    else
      var line := Anchored(path);
      if '\n' in line then None
      else
        match LastDot(line)
        case None => None
        case Some(k) =>
          assert line == line[..k] + "." + line[k + 1..];
          Some(FileInfo(line[..k], line[k + 1..]))
  }

  /** For a path without line breaks the split is an exact round trip. */
  lemma GetFileInfoRoundTrip(isFile: set<string>, path: string)
    requires path in isFile && '\n' !in path && '.' in path
    ensures GetFileInfo(isFile, path).Some?
    ensures GetFileInfo(isFile, path).value.name + "." + GetFileInfo(isFile, path).value.format == path
  {
    assert Anchored(path) == path;
  }

  /** A dot followed by text without dots is the last dot. */
  lemma {:induction false} LastDotOfSplit(name: string, format: string)
    requires '.' !in format
    ensures LastDot(name + "." + format) == Some(|name|)
    decreases |format|
  {
    var s := name + "." + format;
    if format != [] {
      var init := format[..|format| - 1];
      assert format[|format| - 1] in format;
      assert s[..|s| - 1] == name + "." + init;
      LastDotOfSplit(name, init);
    }
  }

  /** The converse round trip: joining a name and a dot-free format, then splitting, gives
      them back. */
  lemma GetFileInfoSplit(isFile: set<string>, name: string, format: string)
    requires name + "." + format in isFile
    requires '\n' !in name && '\n' !in format && '.' !in format
    ensures GetFileInfo(isFile, name + "." + format) == Some(FileInfo(name, format))
  {
    var path := name + "." + format;
    assert '\n' !in path;
    assert Anchored(path) == path;
    LastDotOfSplit(name, format);
    assert path[..|name|] == name && path[|name| + 1..] == format;
  }

  // ---------------------------------------------------------------- extract_files

  /** The shared `file_list` after `_extract_files` has visited members `i..` of an archive that
      opened, starting from `acc`. A `.zip` member is opened and visited in turn; when that
      works the inner call hands back the shared list itself, which is then extended with
      itself. A `.zip` member that cannot be opened leaves the list as it is. Any other member
      adds its descriptor if it has one. */
  function Extracted(z: ZipArchive, i: nat, loc: string, isFile: set<string>, acc: seq<FileInfo>): seq<FileInfo>
    requires i <= |z.members|
    decreases z, |z.members| - i
  {
    if i == |z.members| then acc
    else
      var m := z.members[i];
      assert m in z.members;
      var next :=
        if EndsWith(m.name, ".zip") then
          match m.content
          case Archive(inner) =>
            var shared := Extracted(inner, 0, loc, isFile, acc);
            shared + shared
          case Opaque => acc
        else
          match GetFileInfo(isFile, Join(loc, m.name))
          case Some(info) => acc + [info]
          case None => acc;
      Extracted(z, i + 1, loc, isFile, next)
  }

  /** A member whose name does not end in `.zip` and that is a regular file appends its one
      descriptor, after everything collected so far. */
  lemma FileStep(z: ZipArchive, i: nat, loc: string, isFile: set<string>, acc: seq<FileInfo>, info: FileInfo)
    requires i < |z.members| && !EndsWith(z.members[i].name, ".zip")
    requires GetFileInfo(isFile, Join(loc, z.members[i].name)) == Some(info)
    ensures Extracted(z, i, loc, isFile, acc) == Extracted(z, i + 1, loc, isFile, acc + [info])
  {
  }

  /** A readable `.zip` member is extracted into the same `loc` as its parent; the call hands
      back the shared list `L` itself, so the list becomes `L + L`. */
  lemma NestedStep(z: ZipArchive, i: nat, loc: string, isFile: set<string>, acc: seq<FileInfo>)
    requires i < |z.members| && EndsWith(z.members[i].name, ".zip") && z.members[i].content.Archive?
    ensures
      var shared := Extracted(z.members[i].content.zip, 0, loc, isFile, acc);
      Extracted(z, i, loc, isFile, acc) == Extracted(z, i + 1, loc, isFile, shared + shared)
  {
  }

  /** A `.zip` member that cannot be opened is skipped: the list is unchanged and the loop goes on. */
  lemma BadNestedStep(z: ZipArchive, i: nat, loc: string, isFile: set<string>, acc: seq<FileInfo>)
    requires i < |z.members| && EndsWith(z.members[i].name, ".zip") && z.members[i].content.Opaque?
    ensures Extracted(z, i, loc, isFile, acc) == Extracted(z, i + 1, loc, isFile, acc)
  {
  }

  /** Once every member has been visited the list is what it is. */
  lemma EndStep(z: ZipArchive, loc: string, isFile: set<string>, acc: seq<FileInfo>)
    ensures Extracted(z, |z.members|, loc, isFile, acc) == acc
  {
  }

  /** Reference traversal: every descriptor once, in the order the members are met. */
  function Once(z: ZipArchive, i: nat, loc: string, isFile: set<string>): seq<FileInfo>
    requires i <= |z.members|
    decreases z, |z.members| - i
  {
    if i == |z.members| then []
    else
      var m := z.members[i];
      assert m in z.members;
      var here :=
        if EndsWith(m.name, ".zip") then
          match m.content
          case Archive(inner) => Once(inner, 0, loc, isFile)
          case Opaque => []
        else
          match GetFileInfo(isFile, Join(loc, m.name))
          case Some(info) => [info]
          case None => [];
      here + Once(z, i + 1, loc, isFile)
  }

  /** No member from `i` on is a `.zip` member that opens. */
  predicate NoNestedArchive(z: ZipArchive, i: nat)
    requires i <= |z.members|
    decreases |z.members| - i
  {
    i == |z.members| ||
    (!(EndsWith(z.members[i].name, ".zip") && z.members[i].content.Archive?) && NoNestedArchive(z, i + 1))
  }

  /** Without a readable nested archive the loop appends every descriptor once, in `namelist()`
      order, after what the list held before. */
  lemma {:induction false} FlatExtracted(z: ZipArchive, i: nat, loc: string, isFile: set<string>, acc: seq<FileInfo>)
    requires i <= |z.members| && NoNestedArchive(z, i)
    ensures Extracted(z, i, loc, isFile, acc) == acc + Once(z, i, loc, isFile)
    decreases |z.members| - i, 1
  {
    if i == |z.members| {
      FlatEnd(z, loc, isFile, acc);
    } else {
      FlatMore(z, i, loc, isFile, acc);
    }
  }

  lemma FlatEnd(z: ZipArchive, loc: string, isFile: set<string>, acc: seq<FileInfo>)
    ensures Extracted(z, |z.members|, loc, isFile, acc) == acc + Once(z, |z.members|, loc, isFile)
  {
    EndStep(z, loc, isFile, acc);
    assert acc + [] == acc;
  }

  lemma {:induction false} FlatMore(z: ZipArchive, i: nat, loc: string, isFile: set<string>, acc: seq<FileInfo>)
    requires i < |z.members| && NoNestedArchive(z, i)
    ensures Extracted(z, i, loc, isFile, acc) == acc + Once(z, i, loc, isFile)
    decreases |z.members| - i, 0
  {
    NoNestedNext(z, i);
    var here := FlatStep(z, i, loc, isFile, acc);
    FlatExtracted(z, i + 1, loc, isFile, acc + here);
    FlatLink(z, i, loc, isFile, acc, here);
  }

  lemma NoNestedNext(z: ZipArchive, i: nat)
    requires i < |z.members| && NoNestedArchive(z, i)
    ensures NoNestedArchive(z, i + 1) && !(EndsWith(z.members[i].name, ".zip") && z.members[i].content.Archive?)
  {
  }

  lemma FlatLink(z: ZipArchive, i: nat, loc: string, isFile: set<string>, acc: seq<FileInfo>, here: seq<FileInfo>)
    requires i < |z.members|
    requires Once(z, i, loc, isFile) == here + Once(z, i + 1, loc, isFile)
    requires Extracted(z, i, loc, isFile, acc) == Extracted(z, i + 1, loc, isFile, acc + here)
    requires Extracted(z, i + 1, loc, isFile, acc + here) == acc + here + Once(z, i + 1, loc, isFile)
    ensures Extracted(z, i, loc, isFile, acc) == acc + Once(z, i, loc, isFile)
  {
    FlatJoin(acc, here, Extracted(z, i, loc, isFile, acc), Once(z, i, loc, isFile), Once(z, i + 1, loc, isFile));
  }

  lemma FlatJoin(acc: seq<FileInfo>, here: seq<FileInfo>, all: seq<FileInfo>, once: seq<FileInfo>, rest: seq<FileInfo>)
    requires once == here + rest && all == acc + here + rest
    ensures all == acc + once
  {
  }

  /** One member that is not a readable `.zip` contributes the same descriptors to both traversals. */
  lemma FlatStep(z: ZipArchive, i: nat, loc: string, isFile: set<string>, acc: seq<FileInfo>) returns (here: seq<FileInfo>)
    requires i < |z.members| && !(EndsWith(z.members[i].name, ".zip") && z.members[i].content.Archive?)
    ensures Once(z, i, loc, isFile) == here + Once(z, i + 1, loc, isFile)
    ensures Extracted(z, i, loc, isFile, acc) == Extracted(z, i + 1, loc, isFile, acc + here)
  {
    var m := z.members[i];
    if EndsWith(m.name, ".zip") {
      here := [];
      BadNestedStep(z, i, loc, isFile, acc);
      assert acc + here == acc;
    } else {
      match GetFileInfo(isFile, Join(loc, m.name))
      case Some(info) =>
        here := [info];
        FileStep(z, i, loc, isFile, acc, info);
      case None =>
        here := [];
        assert acc + here == acc;
    }
  }

  /** Names of the members from `i` on, and of the members of the readable `.zip` members
      among them, that do not end in `.zip`: the only members that can yield a descriptor. */
  function PlainNames(z: ZipArchive, i: nat): set<string>
    requires i <= |z.members|
    decreases z, |z.members| - i
  {
    if i == |z.members| then {}
    else
      var m := z.members[i];
      assert m in z.members;
      var here :=
        if !EndsWith(m.name, ".zip") then {m.name}
        else
          match m.content
          case Archive(inner) => PlainNames(inner, 0)
          case Opaque => {};
      here + PlainNames(z, i + 1)
  }

  lemma {:induction false} PlainNamesAreNotZips(z: ZipArchive, i: nat)
    requires i <= |z.members|
    ensures forall e :: e in PlainNames(z, i) ==> !EndsWith(e, ".zip")
    decreases z, |z.members| - i
  {
    if i < |z.members| {
      var m := z.members[i];
      assert m in z.members;
      if EndsWith(m.name, ".zip") && m.content.Archive? {
        PlainNamesAreNotZips(m.content.zip, 0);
      }
      PlainNamesAreNotZips(z, i + 1);
    }
  }

  /** Whatever the list held before the traversal stays, in place, at its front. */
  lemma {:induction false} ExtractedKeepsPrefix(z: ZipArchive, i: nat, loc: string, isFile: set<string>, acc: seq<FileInfo>)
    requires i <= |z.members|
    ensures acc <= Extracted(z, i, loc, isFile, acc)
    decreases z, |z.members| - i
  {
    if i < |z.members| {
      var m := z.members[i];
      assert m in z.members;
      if EndsWith(m.name, ".zip") {
        match m.content
        case Archive(inner) =>
          var shared := Extracted(inner, 0, loc, isFile, acc);
          ExtractedKeepsPrefix(inner, 0, loc, isFile, acc);
          ExtractedKeepsPrefix(z, i + 1, loc, isFile, shared + shared);
        case Opaque =>
          ExtractedKeepsPrefix(z, i + 1, loc, isFile, acc);
      } else {
        match GetFileInfo(isFile, Join(loc, m.name))
        case Some(info) =>
          ExtractedKeepsPrefix(z, i + 1, loc, isFile, acc + [info]);
        case None =>
          ExtractedKeepsPrefix(z, i + 1, loc, isFile, acc);
      }
    }
  }

  /** The doubling repeats descriptors but never invents or loses one: the list ends up holding
      exactly what it held before plus what the once-only traversal yields. */
  lemma {:induction false} ExtractedElements(z: ZipArchive, i: nat, loc: string, isFile: set<string>, acc: seq<FileInfo>)
    requires i <= |z.members|
    ensures forall x :: x in Extracted(z, i, loc, isFile, acc) <==> x in acc || x in Once(z, i, loc, isFile)
    decreases z, |z.members| - i
  {
    if i < |z.members| {
      var m := z.members[i];
      assert m in z.members;
      if EndsWith(m.name, ".zip") {
        match m.content
        case Archive(inner) =>
          var shared := Extracted(inner, 0, loc, isFile, acc);
          ExtractedElements(inner, 0, loc, isFile, acc);
          ExtractedElements(z, i + 1, loc, isFile, shared + shared);
        case Opaque =>
          ExtractedElements(z, i + 1, loc, isFile, acc);
      } else {
        match GetFileInfo(isFile, Join(loc, m.name))
        case Some(info) =>
          ExtractedElements(z, i + 1, loc, isFile, acc + [info]);
        case None =>
          ExtractedElements(z, i + 1, loc, isFile, acc);
      }
    }
  }

  /** A descriptor comes out of the traversal exactly when some reachable member whose name does
      not end in `.zip` yields it, from the path `loc/<member>` of the extraction directory. */
  lemma {:induction false} OnceIff(z: ZipArchive, i: nat, loc: string, isFile: set<string>, x: FileInfo)
    requires i <= |z.members|
    ensures x in Once(z, i, loc, isFile) <==>
            exists e :: e in PlainNames(z, i) && GetFileInfo(isFile, Join(loc, e)) == Some(x)
    decreases z, |z.members| - i
  {
    if i < |z.members| {
      var m := z.members[i];
      assert m in z.members;
      OnceIff(z, i + 1, loc, isFile, x);
      if !EndsWith(m.name, ".zip") {
        OncePlainStep(z, i, loc, isFile, x);
      } else if m.content.Archive? {
        OnceIff(m.content.zip, 0, loc, isFile, x);
        OnceNestedStep(z, i, loc, isFile, x);
      } else {
        assert PlainNames(z, i) == PlainNames(z, i + 1);
        assert Once(z, i, loc, isFile) == Once(z, i + 1, loc, isFile);
      }
    }
  }

  /** `x` comes out of the traversal from `i` on exactly when a reachable plain name yields it. */
  predicate OnceMatches(z: ZipArchive, i: nat, loc: string, isFile: set<string>, x: FileInfo)
    requires i <= |z.members|
  {
    x in Once(z, i, loc, isFile) <==> exists e :: e in PlainNames(z, i) && GetFileInfo(isFile, Join(loc, e)) == Some(x)
  }

  lemma OncePlainStep(z: ZipArchive, i: nat, loc: string, isFile: set<string>, x: FileInfo)
    requires i < |z.members| && !EndsWith(z.members[i].name, ".zip")
    requires OnceMatches(z, i + 1, loc, isFile, x)
    ensures OnceMatches(z, i, loc, isFile, x)
  {
    var m := z.members[i];
    var rest := PlainNames(z, i + 1);
    assert PlainNames(z, i) == {m.name} + rest;
    assert x in Once(z, i, loc, isFile) <==>
           GetFileInfo(isFile, Join(loc, m.name)) == Some(x) || x in Once(z, i + 1, loc, isFile);
    ExistsUnion({m.name}, rest, loc, isFile, x);
  }

  lemma OnceNestedStep(z: ZipArchive, i: nat, loc: string, isFile: set<string>, x: FileInfo)
    requires i < |z.members| && EndsWith(z.members[i].name, ".zip") && z.members[i].content.Archive?
    requires OnceMatches(z, i + 1, loc, isFile, x) && OnceMatches(z.members[i].content.zip, 0, loc, isFile, x)
    ensures OnceMatches(z, i, loc, isFile, x)
  {
    var inner := z.members[i].content.zip;
    var rest := PlainNames(z, i + 1);
    assert PlainNames(z, i) == PlainNames(inner, 0) + rest;
    assert Once(z, i, loc, isFile) == Once(inner, 0, loc, isFile) + Once(z, i + 1, loc, isFile);
    ExistsUnion(PlainNames(inner, 0), rest, loc, isFile, x);
  }

  lemma ExistsUnion(a: set<string>, b: set<string>, loc: string, isFile: set<string>, x: FileInfo)
    ensures (exists e :: e in a + b && GetFileInfo(isFile, Join(loc, e)) == Some(x)) <==>
            (exists e :: e in a && GetFileInfo(isFile, Join(loc, e)) == Some(x)) ||
            (exists e :: e in b && GetFileInfo(isFile, Join(loc, e)) == Some(x))
  {
  }

  /** What `extract_files` returns, or the exception it raises when the top-level bytes are not
      a readable archive. The list starts empty for every call. */
  function ExtractFilesResult(content: Content, loc: string, isFile: set<string>): Result<seq<FileInfo>, ExtractError> {
    match content
    case Opaque => Err(BadZipFile)
    case Archive(z) => Ok(Extracted(z, 0, loc, isFile, []))
  }

  /** `extract_files` as a whole: exactly the descriptors of the reachable members whose names do
      not end in `.zip`, none of them for a `.zip` member, each under the extraction directory. */
  lemma ExtractFilesContents(z: ZipArchive, loc: string, isFile: set<string>, x: FileInfo)
    ensures ExtractFilesResult(Archive(z), loc, isFile).Ok?
    ensures x in ExtractFilesResult(Archive(z), loc, isFile).value <==>
            exists e :: e in PlainNames(z, 0) && !EndsWith(e, ".zip") && GetFileInfo(isFile, Join(loc, e)) == Some(x)
  {
    ExtractedElements(z, 0, loc, isFile, []);
    OnceIff(z, 0, loc, isFile, x);
    PlainNamesAreNotZips(z, 0);
  }

  /** `outer.zip = [a.csv, inner.zip = [b.csv]]` yields `[a, b, a, b]`: the nested archive doubles
      the list built so far, including `a`, which came before it. */
  lemma DoublingExample()
    ensures
      var inner := ZipArchive([Member("b.csv", Opaque)]);
      var outer := ZipArchive([Member("a.csv", Opaque), Member("inner.zip", Archive(inner))]);
      var a, b := FileInfo("out/a", "csv"), FileInfo("out/b", "csv");
      ExtractFilesResult(Archive(outer), "out", {"out/a.csv", "out/b.csv"}) == Ok([a, b, a, b])
  {
    var isFile := {"out/a.csv", "out/b.csv"};
    DoublingFiles(isFile);
    var inner := ZipArchive([Member("b.csv", Opaque)]);
    var outer := ZipArchive([Member("a.csv", Opaque), Member("inner.zip", Archive(inner))]);
    Doubling(isFile, "out", inner, outer, FileInfo("out/a", "csv"), FileInfo("out/b", "csv"));
  }

  lemma DoublingFiles(isFile: set<string>)
    requires "out/a.csv" in isFile && "out/b.csv" in isFile
    ensures GetFileInfo(isFile, Join("out", "a.csv")) == Some(FileInfo("out/a", "csv"))
    ensures GetFileInfo(isFile, Join("out", "b.csv")) == Some(FileInfo("out/b", "csv"))
    ensures !EndsWith("a.csv", ".zip") && !EndsWith("b.csv", ".zip") && EndsWith("inner.zip", ".zip")
  {
    ExampleFile(isFile, "a", "a.csv", "out/a.csv", "out/a");
    DoublingFileB(isFile);
  }

  lemma DoublingFileB(isFile: set<string>)
    requires "out/b.csv" in isFile
    ensures GetFileInfo(isFile, Join("out", "b.csv")) == Some(FileInfo("out/b", "csv"))
    ensures !EndsWith("b.csv", ".zip")
  {
    ExampleFile(isFile, "b", "b.csv", "out/b.csv", "out/b");
  }

  /** A file, then a readable nested archive holding one file: the first descriptor is repeated
      after the second. */
  lemma Doubling(isFile: set<string>, loc: string, inner: ZipArchive, outer: ZipArchive, a: FileInfo, b: FileInfo)
    requires |inner.members| == 1 && |outer.members| == 2
    requires !EndsWith(outer.members[0].name, ".zip")
    requires EndsWith(outer.members[1].name, ".zip") && outer.members[1].content == Archive(inner)
    requires !EndsWith(inner.members[0].name, ".zip")
    requires GetFileInfo(isFile, Join(loc, outer.members[0].name)) == Some(a)
    requires GetFileInfo(isFile, Join(loc, inner.members[0].name)) == Some(b)
    ensures ExtractFilesResult(Archive(outer), loc, isFile) == Ok([a, b, a, b])
  {
    OneFile(isFile, loc, inner, [a], b);
    FileThenNested(isFile, loc, inner, outer, a);
    TwiceTwo(a, b);
  }

  lemma TwiceTwo(a: FileInfo, b: FileInfo)
    ensures [a] + [b] + ([a] + [b]) == [a, b, a, b]
  {
  }

  /** A file, then a readable nested archive: the nested traversal starts from the file's
      descriptor, and its result is doubled. */
  lemma FileThenNested(isFile: set<string>, loc: string, inner: ZipArchive, outer: ZipArchive, a: FileInfo)
    requires |outer.members| == 2
    requires !EndsWith(outer.members[0].name, ".zip")
    requires EndsWith(outer.members[1].name, ".zip") && outer.members[1].content == Archive(inner)
    requires GetFileInfo(isFile, Join(loc, outer.members[0].name)) == Some(a)
    ensures
      var shared := Extracted(inner, 0, loc, isFile, [a]);
      Extracted(outer, 0, loc, isFile, []) == shared + shared
  {
    var shared := Extracted(inner, 0, loc, isFile, [a]);
    FileStep(outer, 0, loc, isFile, [], a);
    assert [] + [a] == [a];
    NestedStep(outer, 1, loc, isFile, [a]);
    EndStep(outer, loc, isFile, shared + shared);
  }

  /** An archive holding one file appends that file's descriptor. */
  lemma OneFile(isFile: set<string>, loc: string, z: ZipArchive, acc: seq<FileInfo>, b: FileInfo)
    requires |z.members| == 1 && !EndsWith(z.members[0].name, ".zip")
    requires GetFileInfo(isFile, Join(loc, z.members[0].name)) == Some(b)
    ensures Extracted(z, 0, loc, isFile, acc) == acc + [b]
  {
    FileStep(z, 0, loc, isFile, acc, b);
    EndStep(z, loc, isFile, acc + [b]);
  }

  /** `outer.zip = [inner.zip = [trips.csv]]` yields the descriptor of `trips.csv` twice. */
  lemma NestedTwiceExample()
    ensures
      var inner := ZipArchive([Member("trips.csv", Opaque)]);
      var outer := ZipArchive([Member("inner.zip", Archive(inner))]);
      var t := FileInfo("out/trips", "csv");
      ExtractFilesResult(Archive(outer), "out", {"out/trips.csv"}) == Ok([t, t])
  {
    var isFile := {"out/trips.csv"};
    ExampleFile(isFile, "trips", "trips.csv", "out/trips.csv", "out/trips");
    var inner := ZipArchive([Member("trips.csv", Opaque)]);
    var outer := ZipArchive([Member("inner.zip", Archive(inner))]);
    NestedTwice(isFile, "out", inner, outer, FileInfo("out/trips", "csv"));
  }

  /** A plain-letter member `<stem>.csv` extracted into `out` yields `{out/<stem>, csv}` and is
      not taken for an archive. */
  lemma ExampleFile(isFile: set<string>, stem: string, member: string, path: string, name: string)
    requires forall k :: 0 <= k < |stem| ==> 'a' <= stem[k] <= 'z'
    requires member == stem + ".csv" && name == "out/" + stem && path == name + ".csv" && path in isFile
    ensures GetFileInfo(isFile, Join("out", member)) == Some(FileInfo(name, "csv"))
    ensures !EndsWith(member, ".zip") && EndsWith("inner.zip", ".zip")
  {
    ExamplePath(stem);
    ExampleInfo(isFile, member, path, name);
    CsvNotZip(stem);
    InnerIsZip();
  }

  /** The paths of a plain-letter member `<stem>.csv` extracted into `out`. */
  lemma ExamplePath(stem: string)
    requires forall k :: 0 <= k < |stem| ==> 'a' <= stem[k] <= 'z'
    ensures Join("out", stem + ".csv") == "out/" + stem + ".csv" == ("out/" + stem) + "." + "csv"
    ensures '\n' !in "out/" + stem
  {
  }

  lemma CsvNotZip(stem: string)
    ensures !EndsWith(stem + ".csv", ".zip")
  {
    var s := stem + ".csv";
    assert s[|s| - 3] == 'c';
  }

  lemma InnerIsZip()
    ensures EndsWith("inner.zip", ".zip")
  {
    assert "inner.zip"[5..] == ".zip";
  }

  /** A readable nested archive holding one file, alone in the outer archive: its descriptor
      comes out twice. */
  lemma NestedTwice(isFile: set<string>, loc: string, inner: ZipArchive, outer: ZipArchive, t: FileInfo)
    requires |inner.members| == 1 && |outer.members| == 1
    requires EndsWith(outer.members[0].name, ".zip") && outer.members[0].content == Archive(inner)
    requires !EndsWith(inner.members[0].name, ".zip")
    requires GetFileInfo(isFile, Join(loc, inner.members[0].name)) == Some(t)
    ensures ExtractFilesResult(Archive(outer), loc, isFile) == Ok([t, t])
  {
    var shared := Extracted(inner, 0, loc, isFile, []);
    assert shared == [t] by {
      FileStep(inner, 0, loc, isFile, [], t);
      assert [] + [t] == [t];
      EndStep(inner, loc, isFile, [t]);
    }
    assert Extracted(outer, 0, loc, isFile, []) == Extracted(outer, 1, loc, isFile, shared + shared) by {
      NestedStep(outer, 0, loc, isFile, []);
    }
    assert shared + shared == [t, t];
    EndStep(outer, loc, isFile, [t, t]);
  }

  /** A `.csv` member of the examples, extracted into `out`. */
  lemma ExampleInfo(isFile: set<string>, member: string, path: string, name: string)
    requires Join("out", member) == path && path == name + "." + "csv"
    requires path in isFile && '\n' !in name
    ensures GetFileInfo(isFile, Join("out", member)) == Some(FileInfo(name, "csv"))
  {
    assert '\n' !in "csv" by {
      assert forall k | 0 <= k < 3 :: "csv"[k] != '\n';
    }
    GetFileInfoSplit(isFile, name, "csv");
  }

  /** The closure of `extract_files`: the shared `file_list` that every recursive call appends to. */
  class Extractor {
    const isFile: set<string>
    var fileList: seq<FileInfo>

    constructor (isFile: set<string>)
      ensures this.isFile == isFile && fileList == []
    {
      this.isFile := isFile;
      fileList := [];
    }

    /** `_extract_files`: open `content`, extract it into `loc` and visit its members in order.
        Hands back the shared list itself; raising leaves the list as it was. */
    method ExtractInto(content: Content, loc: string) returns (r: Result<seq<FileInfo>, ExtractError>)
      modifies this
      decreases content
      ensures content.Opaque? ==> r == Err(BadZipFile) && fileList == old(fileList)
      ensures content.Archive? ==> fileList == Extracted(content.zip, 0, loc, isFile, old(fileList)) && r == Ok(fileList)
    {
      if content.Opaque? {
        return Err(BadZipFile);
      }
      var z := content.zip;
      var i := 0;
      while i < |z.members|
        invariant i <= |z.members|
        invariant Extracted(z, i, loc, isFile, fileList) == Extracted(z, 0, loc, isFile, old(fileList))
      {
        var m := z.members[i];
        assert m in z.members;
        if EndsWith(m.name, ".zip") {
          var nested := ExtractInto(m.content, loc);
          match nested {
            case Ok(shared) => fileList := fileList + shared;
            case Err(_) => // logged and skipped
          }
        } else {
          var info := GetFileInfo(isFile, Join(loc, m.name));
          if info.Some? {
            fileList := fileList + [info.value];
          }
        }
        i := i + 1;
      }
      r := Ok(fileList);
    }
  }

  /** `extract_files(file, extract_location)` on the downloaded bytes. */
  method ExtractFiles(content: Content, loc: string, isFile: set<string>) returns (r: Result<seq<FileInfo>, ExtractError>)
    ensures r == ExtractFilesResult(content, loc, isFile)
  {
    var extractor := new Extractor(isFile);
    r := extractor.ExtractInto(content, loc);
  }
}
