/**
  The decision logic of `data_import.py`: which ridership resources are downloaded and how,
  which downloaded files are read back, which of their columns are kept, how the frames are
  stacked, and how `validate_data` renames the columns of the master frame.

  The network, the spreadsheet and CSV parsers and the file system are parameters: a resource
  carries the bytes its link returns, and a `Disk` says what `pd.read_csv` and
  `pd.ExcelFile` find at a path.
 */
module DataImport {
  import opened Wrappers
  import opened Strings
  import opened Utils

  /** Where downloaded data is stored. */
  const OutputPath: string := "imported_data"

  // ---------------------------------------------------------------- download_ridership_data

  /** One entry of `data_package['result']['resources']`, with the bytes its link returns. */
  datatype Resource = Resource(name: string, format: string, content: Content)

  /** The descriptors collected, the number of resources no handler was found for, and the
      paths the workbooks were written to, in resource order. */
  datatype Downloaded = Downloaded(files: seq<FileInfo>, errors: nat, saved: seq<string>) {
    function Plus(other: Downloaded): Downloaded {
      Downloaded(files + other.files, errors + other.errors, saved + other.saved)
    }
  }

  /** `required_files` filter: an empty list admits everything; otherwise some pattern must
      occur in the resource name. */
  predicate Admitted(required: seq<string>, name: string) {
    required == [] || exists i :: 0 <= i < |required| && Contains(name, required[i])
  }

  predicate IsWorkbookFormat(format: string) {
    format == "xlsx" || format == "xls"
  }

  /** What one admitted resource contributes: a `zip` resource is extracted into
      `imported_data/<name>` and contributes the extracted descriptors, a workbook is written to
      `imported_data/<name>.xlsx` and contributes one descriptor, anything else counts as an
      error. An archive that cannot be opened raises. */
  function Fetch(r: Resource, isFile: set<string>): Result<Downloaded, ExtractError> {
    var format := Lower(r.format);
    var path := Join(OutputPath, r.name);
    if format == "zip" then
      match ExtractFilesResult(r.content, path, isFile)
      case Ok(files) => Ok(Downloaded(files, 0, []))
      case Err(e) => Err(e)
    else if IsWorkbookFormat(format) then
      Ok(Downloaded([FileInfo(r.name, format)], 0, [path + ".xlsx"]))
    else
      Ok(Downloaded([], 1, []))
  }

  /** The handler the download loop applies to one admitted resource. */
  type Handler = Resource -> Result<Downloaded, ExtractError>

  /** The program's handler: `Fetch` against the files on disk. */
  function Fetcher(isFile: set<string>): Handler {
    r => Fetch(r, isFile)
  }

  /** The loop body on one resource, after the resources before it gave `before`. */
  function Step(required: seq<string>, before: Result<Downloaded, ExtractError>, r: Resource, fetch: Handler): Result<Downloaded, ExtractError> {
    match before
    case Err(e) => Err(e)
    case Ok(d) =>
      if !Admitted(required, r.name) then Ok(d)
      else
        match fetch(r)
        case Err(e) => Err(e)
        case Ok(x) => Ok(d.Plus(x))
  }

  /** The outcome of the download loop over `rs`: the first archive that cannot be opened ends
      it with its exception. */
  function DownloadAll(required: seq<string>, rs: seq<Resource>, fetch: Handler): Result<Downloaded, ExtractError>
    decreases |rs|
  {
    if rs == [] then Ok(Downloaded([], 0, []))
    else Step(required, DownloadAll(required, rs[..|rs| - 1], fetch), rs[|rs| - 1], fetch)
  }

  /** Running the loop over `a` and then over `b`. */
  function Then(x: Result<Downloaded, ExtractError>, y: Result<Downloaded, ExtractError>): Result<Downloaded, ExtractError> {
    match x
    case Err(e) => Err(e)
    case Ok(d) =>
      match y
      case Err(e) => Err(e)
      case Ok(d2) => Ok(d.Plus(d2))
  }

  lemma StepThen(required: seq<string>, x: Result<Downloaded, ExtractError>, y: Result<Downloaded, ExtractError>, r: Resource, fetch: Handler)
    ensures Step(required, Then(x, y), r, fetch) == Then(x, Step(required, y, r, fetch))
  {
    if x.Ok? && y.Ok? && Admitted(required, r.name) && fetch(r).Ok? {
      var a, b, c := x.value, y.value, fetch(r).value;
      assert a.Plus(b).Plus(c) == a.Plus(b.Plus(c));
    }
  }

  /** Once a prefix of the resources has raised, the whole download raises the same. */
  lemma {:induction false} DownloadStopsAtError(required: seq<string>, rs: seq<Resource>, fetch: Handler, i: nat)
    requires i <= |rs| && DownloadAll(required, rs[..i], fetch).Err?
    ensures DownloadAll(required, rs, fetch) == DownloadAll(required, rs[..i], fetch)
    decreases |rs| - i
  {
    if i < |rs| {
      assert rs[..i + 1][..i] == rs[..i];
      DownloadStopsAtError(required, rs, fetch, i + 1);
    } else {
      assert rs[..i] == rs;
    }
  }

  /** The download is a homomorphism over the resource list: descriptors, error counts and
      written paths come out in resource order. */
  lemma {:induction false} DownloadAppend(required: seq<string>, a: seq<Resource>, b: seq<Resource>, fetch: Handler)
    ensures DownloadAll(required, a + b, fetch) == Then(DownloadAll(required, a, fetch), DownloadAll(required, b, fetch))
    decreases |b|
  {
    if b == [] {
      DownloadAppendNothing(required, a, fetch);
    } else {
      DownloadAppend(required, a, b[..|b| - 1], fetch);
      DownloadAppendLast(required, a, b, fetch);
    }
  }

  lemma DownloadAppendNothing(required: seq<string>, a: seq<Resource>, fetch: Handler)
    ensures DownloadAll(required, a + [], fetch) == Then(DownloadAll(required, a, fetch), DownloadAll(required, [], fetch))
  {
    assert a + [] == a;
    var x := DownloadAll(required, a, fetch);
    if x.Ok? {
      assert x.value.files + [] == x.value.files && x.value.saved + [] == x.value.saved;
    }
  }

  lemma DownloadAppendLast(required: seq<string>, a: seq<Resource>, b: seq<Resource>, fetch: Handler)
    requires b != []
    requires DownloadAll(required, a + b[..|b| - 1], fetch) == Then(DownloadAll(required, a, fetch), DownloadAll(required, b[..|b| - 1], fetch))
    ensures DownloadAll(required, a + b, fetch) == Then(DownloadAll(required, a, fetch), DownloadAll(required, b, fetch))
  {
    var init, last := b[..|b| - 1], b[|b| - 1];
    AppendLast(a, b);
    DownloadLast(required, a + b, fetch);
    StepThen(required, DownloadAll(required, a, fetch), DownloadAll(required, init, fetch), last, fetch);
  }

  lemma AppendLast(a: seq<Resource>, b: seq<Resource>)
    requires b != []
    ensures (a + b)[..|a + b| - 1] == a + b[..|b| - 1] && (a + b)[|a + b| - 1] == b[|b| - 1]
  {
  }

  /** The resources the filter admits, in order. */
  function AdmittedOnly(required: seq<string>, rs: seq<Resource>): seq<Resource>
    decreases |rs|
  {
    if rs == [] then []
    else
      var init := rs[..|rs| - 1];
      var last := rs[|rs| - 1];
      assert rs == init + [last];
      AdmittedOnly(required, init) + (if Admitted(required, last.name) then [last] else [])
  }

  /** The kept resources are exactly the admitted ones. */
  lemma {:induction false} AdmittedOnlyMembers(required: seq<string>, rs: seq<Resource>, x: Resource)
    ensures x in AdmittedOnly(required, rs) <==> x in rs && Admitted(required, x.name)
    decreases |rs|
  {
    if rs != [] {
      var init := rs[..|rs| - 1];
      assert rs == init + [rs[|rs| - 1]];
      AdmittedOnlyMembers(required, init, x);
    }
  }

  /** The admitted resources keep their order. */
  lemma {:induction false} AdmittedOnlyAppend(required: seq<string>, a: seq<Resource>, b: seq<Resource>)
    ensures AdmittedOnly(required, a + b) == AdmittedOnly(required, a) + AdmittedOnly(required, b)
    decreases |b|
  {
    if b == [] {
      assert a + b == a;
    } else {
      var init := b[..|b| - 1];
      AppendLast(a, b);
      AdmittedOnlyAppend(required, a, init);
    }
  }

  /** Skipping a resource is the same as removing it from the package beforehand, and an empty
      `required_files` downloads every resource. */
  lemma {:induction false} DownloadFilters(required: seq<string>, rs: seq<Resource>, fetch: Handler)
    ensures DownloadAll(required, rs, fetch) == DownloadAll([], AdmittedOnly(required, rs), fetch)
    decreases |rs|
  {
    if rs != [] {
      DownloadFilters(required, rs[..|rs| - 1], fetch);
      DownloadFiltersLast(required, rs, fetch);
    }
  }

  lemma DownloadFiltersLast(required: seq<string>, rs: seq<Resource>, fetch: Handler)
    requires rs != []
    requires DownloadAll(required, rs[..|rs| - 1], fetch) == DownloadAll([], AdmittedOnly(required, rs[..|rs| - 1]), fetch)
    ensures DownloadAll(required, rs, fetch) == DownloadAll([], AdmittedOnly(required, rs), fetch)
  {
    var last := rs[|rs| - 1];
    var kept := AdmittedOnly(required, rs[..|rs| - 1]);
    DownloadLast(required, rs, fetch);
    if Admitted(required, last.name) {
      assert AdmittedOnly(required, rs) == kept + [last];
      KeptLast(required, kept, last, DownloadAll(required, rs[..|rs| - 1], fetch), fetch);
    } else {
      assert AdmittedOnly(required, rs) == kept;
    }
  }

  /** An admitted resource is one step of the unfiltered loop over the kept resources. */
  lemma KeptLast(required: seq<string>, kept: seq<Resource>, last: Resource, before: Result<Downloaded, ExtractError>, fetch: Handler)
    requires Admitted(required, last.name) && before == DownloadAll([], kept, fetch)
    ensures Step(required, before, last, fetch) == DownloadAll([], kept + [last], fetch)
  {
    DownloadLast([], kept + [last], fetch);
    assert (kept + [last])[..|kept|] == kept;
  }

  /** The last resource is the last loop step. */
  lemma DownloadLast(required: seq<string>, rs: seq<Resource>, fetch: Handler)
    requires rs != []
    ensures DownloadAll(required, rs, fetch) == Step(required, DownloadAll(required, rs[..|rs| - 1], fetch), rs[|rs| - 1], fetch)
  {
  }

  /** The admitted resources that have no handler. */
  function Unhandled(required: seq<string>, rs: seq<Resource>): (r: seq<Resource>)
    ensures forall x :: x in r ==> x in rs && Admitted(required, x.name)
    ensures forall x :: x in r ==> Lower(x.format) != "zip" && !IsWorkbookFormat(Lower(x.format))
    decreases |rs|
  {
    if rs == [] then []
    else
      var init := rs[..|rs| - 1];
      var last := rs[|rs| - 1];
      var format := Lower(last.format);
      var here := if Admitted(required, last.name) && format != "zip" && !IsWorkbookFormat(format) then [last] else [];
      Unhandled(required, init) + here
  }

  /** `errors` counts exactly the admitted resources whose format has no handler. */
  lemma {:induction false} DownloadErrorCount(required: seq<string>, rs: seq<Resource>, isFile: set<string>)
    requires DownloadAll(required, rs, Fetcher(isFile)).Ok?
    ensures DownloadAll(required, rs, Fetcher(isFile)).value.errors == |Unhandled(required, rs)|
    decreases |rs|
  {
    if rs != [] {
      var last := rs[|rs| - 1];
      DownloadErrorCount(required, rs[..|rs| - 1], isFile);
      assert Fetcher(isFile)(last) == Fetch(last, isFile);
    }
  }

  /** Both workbook formats are written under `.xlsx`, but the consolidation step reads a file
      from `<name>.<format>`: an `xls` workbook is never read back from where it was written,
      and an `xlsx` one only when its name does not start with `imported_data`. */
  lemma SavedWorkbookReadBack(r: Resource, isFile: set<string>)
    requires IsWorkbookFormat(Lower(r.format))
    ensures Fetch(r, isFile) == Ok(Downloaded([FileInfo(r.name, Lower(r.format))], 0, [Join(OutputPath, r.name) + ".xlsx"]))
    ensures !StartsWith(r.name, "/") ==> Fetch(r, isFile).value.saved == [OutputPath + "/" + r.name + ".xlsx"]
    ensures
      var d := Fetch(r, isFile).value;
      |d.files| == 1 && |d.saved| == 1 &&
      (FullPath(d.files[0]) == d.saved[0] <==> Lower(r.format) == "xlsx" && !StartsWith(r.name, OutputPath))
  {
    WorkbookReadIff(r.name, Lower(r.format));
    LowerIdempotent(r.format);
  }

  /** The path a workbook is written to against the path it is read back from. */
  lemma WorkbookReadIff(name: string, format: string)
    requires IsWorkbookFormat(format)
    ensures FullPath(FileInfo(name, format)) == Join(OutputPath, name) + ".xlsx" <==> format == "xlsx" && !StartsWith(name, OutputPath)
  {
    var saved := Join(OutputPath, name) + ".xlsx";
    var read := FullPath(FileInfo(name, format));
    LowerIdempotent(format);
    if format == "xls" {
      assert read[|read| - 1] == 's';
      assert saved[|saved| - 1] == 'x';
    } else if StartsWith(name, OutputPath) {
      assert !StartsWith(name, "/") by { assert name[0] == OutputPath[0]; }
      assert |saved| == |name| + 6 + |OutputPath|;
      assert |read| == |name| + 5;
    } else {
      FirstOfFile(name, format);
      assert saved == read;
    }
  }

  /** A descriptor extracted from a downloaded archive comes from a reachable member that does
      not end in `.zip`. When neither the resource nor the member name is absolute, the
      consolidation step reads it from the path it was split from (less a final line break)
      exactly when its format is lower-case: `TRIPS.CSV` is written there but read from
      `TRIPS.csv`. */
  lemma ExtractedReadBack(r: Resource, isFile: set<string>, x: FileInfo)
    requires Lower(r.format) == "zip" && r.content.Archive?
    requires Fetch(r, isFile).Ok? && x in Fetch(r, isFile).value.files
    ensures exists e :: e in PlainNames(r.content.zip, 0) &&
              GetFileInfo(isFile, Join(Join(OutputPath, r.name), e)) == Some(x) &&
              (!StartsWith(r.name, "/") && !StartsWith(e, "/") ==>
                 (FullPath(x) == Anchored(Join(Join(OutputPath, r.name), e)) <==> Lower(x.format) == x.format))
  {
    var loc := Join(OutputPath, r.name);
    var z := r.content.zip;
    assert x in ExtractFilesResult(Archive(z), loc, isFile).value;
    ExtractFilesContents(z, loc, isFile, x);
    var e :| e in PlainNames(z, 0) && !EndsWith(e, ".zip") && GetFileInfo(isFile, Join(loc, e)) == Some(x);
    if !StartsWith(r.name, "/") && !StartsWith(e, "/") {
      ReadBackPath(isFile, r.name, e, x);
    }
  }

  lemma ReadBackPath(isFile: set<string>, name: string, member: string, x: FileInfo)
    requires !StartsWith(name, "/") && !StartsWith(member, "/")
    requires GetFileInfo(isFile, Join(Join(OutputPath, name), member)) == Some(x)
    ensures FullPath(x) == Anchored(Join(Join(OutputPath, name), member)) <==> Lower(x.format) == x.format
  {
    ExtractedName(isFile, name, member, x);
    SuffixDecides(x.name + ".", Lower(x.format), x.format);
  }

  /** An extracted descriptor's name starts with `imported_data`, so the read path keeps it. */
  lemma ExtractedName(isFile: set<string>, name: string, member: string, x: FileInfo)
    requires !StartsWith(name, "/") && !StartsWith(member, "/")
    requires GetFileInfo(isFile, Join(Join(OutputPath, name), member)) == Some(x)
    ensures StartsWith(x.name, OutputPath)
    ensures FullPath(x) == x.name + "." + Lower(x.format)
  {
    var path := Join(Join(OutputPath, name), member);
    var top := OutputPath + "/";
    DownloadedPathPrefix(name, member);
    TopHasNoDot();
    NameKeepsPrefix(x.name, x.format, Anchored(path), top);
    PrefixOfPrefix(x.name, top, OutputPath);
  }

  lemma TopHasNoDot()
    ensures '.' !in OutputPath + "/"
  {
    var top := OutputPath + "/";
    assert |top| == 14;
    assert forall k | 0 <= k < 14 :: top[k] != '.';
  }

  /** Two strings with the same head are equal exactly when their tails are. */
  lemma SuffixDecides(head: string, a: string, b: string)
    ensures head + a == head + b <==> a == b
  {
    if head + a == head + b {
      assert a == (head + a)[|head|..];
    }
  }

  /** A member `TRIPS.CSV` of `rides.zip` is written to `imported_data/rides/TRIPS.CSV`, and
      its descriptor sends the consolidation step to `imported_data/rides/TRIPS.csv`. */
  lemma UpperCaseMemberExample(isFile: set<string>)
    requires "imported_data/rides/TRIPS.CSV" in isFile
    ensures
      var x := FileInfo("imported_data/rides/TRIPS", "CSV");
      GetFileInfo(isFile, Join(Join(OutputPath, "rides"), "TRIPS.CSV")) == Some(x) &&
      FullPath(x) == "imported_data/rides/TRIPS.csv"
  {
    UpperCaseMemberWritten(isFile);
    UpperCaseMemberRead();
  }

  lemma UpperCaseMemberWritten(isFile: set<string>)
    requires "imported_data/rides/TRIPS.CSV" in isFile
    ensures GetFileInfo(isFile, Join(Join(OutputPath, "rides"), "TRIPS.CSV")) == Some(FileInfo("imported_data/rides/TRIPS", "CSV"))
  {
    UpperCaseMemberPath();
    GetFileInfoSplit(isFile, "imported_data/rides/TRIPS", "CSV");
  }

  lemma UpperCaseMemberPath()
    ensures Join(Join(OutputPath, "rides"), "TRIPS.CSV") == "imported_data/rides/TRIPS" + "." + "CSV" == "imported_data/rides/TRIPS.CSV"
  {
    assert Join(OutputPath, "rides") == "imported_data/rides";
  }

  lemma UpperCaseMemberRead()
    ensures FullPath(FileInfo("imported_data/rides/TRIPS", "CSV")) == "imported_data/rides/TRIPS.csv"
  {
    assert StartsWith("imported_data/rides/TRIPS", OutputPath);
    assert Lower("CSV") == "csv" by {
      var s := Lower("CSV");
      assert |s| == 3 && s[0] == 'c' && s[1] == 's' && s[2] == 'v';
    }
  }

  /** A path extracted under `imported_data/<name>` starts with `imported_data/`. */
  lemma DownloadedPathPrefix(name: string, member: string)
    requires !StartsWith(name, "/") && !StartsWith(member, "/")
    ensures StartsWith(Anchored(Join(Join(OutputPath, name), member)), OutputPath + "/")
  {
    var top := OutputPath + "/";
    var loc := Join(OutputPath, name);
    var path := Join(loc, member);
    assert loc == top + name;
    assert StartsWith(loc, top);
    PrefixOfPrefix(path, loc, top);
    AnchoredKeepsPrefix(path, top);
  }

  lemma PrefixOfPrefix(s: string, p: string, q: string)
    requires StartsWith(s, p) && StartsWith(p, q)
    ensures StartsWith(s, q)
  {
    assert s[..|q|] == p[..|q|];
  }

  /** Dropping a final line break keeps a prefix that does not end in one. */
  lemma AnchoredKeepsPrefix(path: string, prefix: string)
    requires StartsWith(path, prefix) && prefix != [] && prefix[|prefix| - 1] != '\n'
    ensures StartsWith(Anchored(path), prefix)
  {
    if |path| > 0 && path[|path| - 1] == '\n' {
      assert |path| > |prefix|;
      assert Anchored(path)[..|prefix|] == path[..|prefix|];
    }
  }

  /** When the split path starts with a prefix free of dots, so does the name part. */
  lemma NameKeepsPrefix(name: string, format: string, path: string, prefix: string)
    requires name + "." + format == path && StartsWith(path, prefix) && '.' !in prefix
    ensures StartsWith(name, prefix)
  {
    assert path[|name|] == '.';
    assert forall k :: 0 <= k < |prefix| ==> path[k] == prefix[k];
    assert |name| >= |prefix|;
    assert name[..|prefix|] == path[..|prefix|];
  }

  /** One more resource is one more loop step. */
  lemma DownloadPrefix(required: seq<string>, rs: seq<Resource>, i: nat, fetch: Handler)
    requires i < |rs|
    ensures DownloadAll(required, rs[..i + 1], fetch) == Step(required, DownloadAll(required, rs[..i], fetch), rs[i], fetch)
  {
    assert rs[..i + 1][..i] == rs[..i];
  }

  /** `download_ridership_data`: the loop over the package's resources. */
  method DownloadRidershipData(required: seq<string>, rs: seq<Resource>, isFile: set<string>)
    returns (r: Result<Downloaded, ExtractError>)
    ensures r == DownloadAll(required, rs, Fetcher(isFile))
  {
    var files: seq<FileInfo> := [];
    var errors := 0;
    var saved: seq<string> := [];
    for i := 0 to |rs|
      invariant DownloadAll(required, rs[..i], Fetcher(isFile)) == Ok(Downloaded(files, errors, saved))
    {
      DownloadPrefix(required, rs, i, Fetcher(isFile));
      var resource := rs[i];
      var before := Downloaded(files, errors, saved);
      var format := Lower(resource.format);
      var matchFound := exists k :: 0 <= k < |required| && Contains(resource.name, required[k]);
      if required != [] && !matchFound {
        SkipStep(required, before, resource, Fetcher(isFile));
        continue;
      }
      var path := Join(OutputPath, resource.name);
      if format == "zip" {
        var extracted := ExtractFiles(resource.content, path, isFile);
        if extracted.Err? {
          assert Step(required, Ok(before), resource, Fetcher(isFile)) == Err(extracted.error);
          DownloadStopsAtError(required, rs, Fetcher(isFile), i + 1);
          return Err(extracted.error);
        }
        ZipStep(required, before, resource, isFile, extracted.value);
        files := files + extracted.value;
      } else if format == "xlsx" || format == "xls" {
        WorkbookStep(required, before, resource, isFile);
        saved := saved + [path + ".xlsx"];
        files := files + [FileInfo(resource.name, format)];
      } else {
        UnhandledStep(required, before, resource, isFile);
        errors := errors + 1;
      }
    }
    assert rs[..|rs|] == rs;
    r := Ok(Downloaded(files, errors, saved));
  }

  /** A resource the filter rejects leaves the state as it is. */
  lemma SkipStep(required: seq<string>, d: Downloaded, r: Resource, fetch: Handler)
    requires !Admitted(required, r.name)
    ensures Step(required, Ok(d), r, fetch) == Ok(d)
  {
  }

  /** An admitted archive that opens appends what it extracts. */
  lemma ZipStep(required: seq<string>, d: Downloaded, r: Resource, isFile: set<string>, v: seq<FileInfo>)
    requires Admitted(required, r.name) && Lower(r.format) == "zip"
    requires ExtractFilesResult(r.content, Join(OutputPath, r.name), isFile) == Ok(v)
    ensures Step(required, Ok(d), r, Fetcher(isFile)) == Ok(Downloaded(d.files + v, d.errors, d.saved))
  {
    assert Fetcher(isFile)(r) == Fetch(r, isFile);
    assert d.saved + [] == d.saved;
  }

  /** An admitted workbook appends its descriptor and its written path. */
  lemma WorkbookStep(required: seq<string>, d: Downloaded, r: Resource, isFile: set<string>)
    requires Admitted(required, r.name) && IsWorkbookFormat(Lower(r.format))
    ensures Step(required, Ok(d), r, Fetcher(isFile)) ==
      Ok(Downloaded(d.files + [FileInfo(r.name, Lower(r.format))], d.errors, d.saved + [Join(OutputPath, r.name) + ".xlsx"]))
  {
    assert Fetcher(isFile)(r) == Fetch(r, isFile);
  }

  /** An admitted resource of any other format counts one error. */
  lemma UnhandledStep(required: seq<string>, d: Downloaded, r: Resource, isFile: set<string>)
    requires Admitted(required, r.name) && Lower(r.format) != "zip" && !IsWorkbookFormat(Lower(r.format))
    ensures Step(required, Ok(d), r, Fetcher(isFile)) == Ok(Downloaded(d.files, d.errors + 1, d.saved))
  {
    assert Fetcher(isFile)(r) == Fetch(r, isFile);
    assert d.files + [] == d.files && d.saved + [] == d.saved;
  }

  // ---------------------------------------------------------------- consolidate_ridership_data

  type Cell = string

  type Row = seq<Cell>

  /** A data frame: its column labels and its rows, cell `k` of a row under column `k`. */
  datatype Frame = Frame(columns: seq<string>, rows: seq<Row>)

  datatype Encoding = Utf8 | Latin1

  /** What the CSV reader does with the file at a path in one encoding. */
  datatype Parse = Parsed(frame: Frame) | UndecodableBytes | Unparsable

  /** A sheet of a workbook, and what parsing it yields (`None` when it raises). */
  datatype Sheet = Sheet(name: string, parse: Option<Frame>)

  /** The files on disk as the readers see them: `pd.read_csv` per path and encoding, and the
      sheets of `pd.ExcelFile` per path in `sheet_names` order (`None` when it raises). */
  datatype Disk = Disk(csv: (string, Encoding) -> Parse, workbook: string -> Option<seq<Sheet>>)

  /** The exceptions that end the consolidation. */
  datatype ConsolidateError = ReadFailed(path: string) | NoObjectsToConcatenate

  const BadFiles: seq<string> := ["readme"]

  const BadFormats: seq<string> := ["docx"]

  /** The column labels the readers keep, compared with the lower-cased name. */
  const SearchCols: seq<string> := [
    "trip id", "trip  duration", "start station id", "start time", "start station name",
    "end station id", "end time", "end station name", "bike id", "user type",
    "trip_id", "trip_start_time", "trip_stop_time", "trip_duration_seconds",
    "from_station_name", "to_station_name", "user_type"
  ]

  /** The `usecols` predicate passed to both readers. */
  predicate Allowed(column: string) {
    Lower(column) in SearchCols
  }

  /** A descriptor is skipped when its name is exactly `readme` or its format is `docx`. */
  predicate Skipped(d: FileInfo) {
    d.name in BadFiles || Lower(d.format) in BadFormats
  }

  /** Where a descriptor is read from: a name already under `imported_data` gets only its
      format appended, any other name is first placed under `imported_data`. */
  function FullPath(d: FileInfo): (r: string)
    ensures StartsWith(d.name, OutputPath) ==> r == d.name + "." + Lower(d.format)
    ensures !StartsWith(d.name, OutputPath) && !StartsWith(d.name, "/") ==> r == OutputPath + "/" + d.name + "." + Lower(d.format)
  {
    var file := d.name + "." + Lower(d.format);
    FirstOfFile(d.name, Lower(d.format));
    if !StartsWith(d.name, OutputPath) then Join(OutputPath, file) else file
  }

  /** `<name>.<format>` is absolute exactly when the name is. */
  lemma FirstOfFile(name: string, format: string)
    ensures StartsWith(name + "." + format, "/") <==> StartsWith(name, "/")
  {
    var file := name + "." + format;
    if |name| > 0 {
      assert file[0] == name[0];
      assert file[..1] == [file[0]] && name[..1] == [name[0]];
    } else {
      assert file[..1] == ".";
    }
  }

  /** The labels `usecols` keeps, in their order. */
  function KeepColumns(columns: seq<string>): (r: seq<string>)
    ensures forall c :: c in r <==> c in columns && Allowed(c)
    ensures |r| <= |columns|
  {
    if columns == [] then []
    else (if Allowed(columns[0]) then [columns[0]] else []) + KeepColumns(columns[1..])
  }

  /** The cells of a row that sit under kept columns. */
  function Keep(columns: seq<string>, cells: Row): Row {
    if columns == [] || cells == [] then []
    else (if Allowed(columns[0]) then [cells[0]] else []) + Keep(columns[1..], cells[1..])
  }

  /** `usecols` keeps labels in their order: selecting from `a + b` is selecting from `a`, then
      from `b`. */
  lemma {:induction false} KeepColumnsAppend(a: seq<string>, b: seq<string>)
    ensures KeepColumns(a + b) == KeepColumns(a) + KeepColumns(b)
    decreases |a|
  {
    if a == [] {
      assert a + b == b;
    } else {
      assert (a + b)[0] == a[0] && (a + b)[1..] == a[1..] + b;
      KeepColumnsAppend(a[1..], b);
    }
  }

  /** A row keeps its cells in order, the cells of `x` under the labels of `a` first. */
  lemma {:induction false} KeepAppend(a: seq<string>, b: seq<string>, x: Row, y: Row)
    requires |x| == |a|
    ensures Keep(a + b, x + y) == Keep(a, x) + Keep(b, y)
    decreases |a|
  {
    if a == [] {
      assert a + b == b && x + y == y;
    } else {
      assert (a + b)[0] == a[0] && (a + b)[1..] == a[1..] + b;
      assert (x + y)[0] == x[0] && (x + y)[1..] == x[1..] + y;
      KeepAppend(a[1..], b, x[1..], y);
    }
  }

  /** One label and the cell under it: the cell is kept exactly when the label is allowed. */
  lemma KeepOne(c: string, x: Cell)
    ensures KeepColumns([c]) == (if Allowed(c) then [c] else [])
    ensures Keep([c], [x]) == (if Allowed(c) then [x] else [])
  {
    assert [c][1..] == [] && [x][1..] == [];
  }

  /** A frame read with the `usecols` predicate. */
  function Select(f: Frame): Frame {
    Frame(KeepColumns(f.columns), seq(|f.rows|, i requires 0 <= i < |f.rows| => Keep(f.columns, f.rows[i])))
  }

  /** A row with one cell per column keeps one cell per kept column. */
  lemma {:induction false} KeepAligned(columns: seq<string>, cells: Row)
    requires |cells| == |columns|
    ensures |Keep(columns, cells)| == |KeepColumns(columns)|
    decreases |columns|
  {
    if columns != [] {
      KeepAligned(columns[1..], cells[1..]);
    }
  }

  /** Reading keeps every row, each row aligned with the kept columns when it was aligned with
      the file's, and only allowed columns. */
  lemma SelectKeepsRows(f: Frame)
    ensures |Select(f).rows| == |f.rows|
    ensures forall c :: c in Select(f).columns <==> c in f.columns && Allowed(c)
    ensures forall i :: 0 <= i < |f.rows| && |f.rows[i]| == |f.columns| ==> |Select(f).rows[i]| == |Select(f).columns|
  {
    forall i | 0 <= i < |f.rows| && |f.rows[i]| == |f.columns|
      ensures |Select(f).rows[i]| == |Select(f).columns|
    {
      KeepAligned(f.columns, f.rows[i]);
    }
  }

  /** The search list holds `trip  duration` with two spaces, so a `Trip Duration` column is
      never read, while the underscore spelling is. */
  lemma TripDurationNotRead(c: string)
    requires Lower(c) == "trip duration"
    ensures !Allowed(c)
    ensures Allowed("trip_duration_seconds")
  {
    assert Lower("trip_duration_seconds") == "trip_duration_seconds" by {
      LowerOfLowercase("trip_duration_seconds");
    }
    assert SearchCols[13] == "trip_duration_seconds";
  }

  /** `pd.read_csv` with UTF-8, retried once with ISO-8859-1 only on a decoding error. */
  function ReadCsv(disk: Disk, path: string): Result<Frame, ConsolidateError> {
    match disk.csv(path, Utf8)
    case Parsed(f) => Ok(Select(f))
    case UndecodableBytes =>
      (match disk.csv(path, Latin1)
       case Parsed(f) => Ok(Select(f))
       case _ => Err(ReadFailed(path)))
    case Unparsable => Err(ReadFailed(path))
  }

  /** The ISO-8859-1 reading matters only after a UTF-8 decoding error: two disks that agree
      on the UTF-8 reading, and do not fail to decode it, read the same. */
  lemma CsvLatin1OnlyOnDecodeError(d1: Disk, d2: Disk, path: string)
    requires d1.csv(path, Utf8) == d2.csv(path, Utf8) && !d1.csv(path, Utf8).UndecodableBytes?
    ensures ReadCsv(d1, path) == ReadCsv(d2, path)
  {
  }

  /** After a UTF-8 decoding error the result is what the ISO-8859-1 reading alone gives, and
      the file is read with one retry at most. */
  lemma CsvFallback(disk: Disk, path: string)
    requires disk.csv(path, Utf8).UndecodableBytes?
    ensures ReadCsv(disk, path).Ok? <==> disk.csv(path, Latin1).Parsed?
    ensures ReadCsv(disk, path).Ok? ==> ReadCsv(disk, path).value == Select(disk.csv(path, Latin1).frame)
  {
  }

  /** The names of `s`, each once, in the order of their first occurrence. */
  function Distinct(s: seq<string>): (r: seq<string>)
    ensures forall x :: x in r <==> x in s
    ensures forall i, j :: 0 <= i < j < |r| ==> r[i] != r[j]
    decreases |s|
  {
    if s == [] then []
    else
      var init := s[..|s| - 1];
      var last := s[|s| - 1];
      assert s == init + [last];
      Distinct(init) + (if last in init then [] else [last])
  }

  function AllColumns(fs: seq<Frame>): (r: seq<string>)
    ensures forall c :: c in r <==> exists k :: 0 <= k < |fs| && c in fs[k].columns
    decreases |fs|
  {
    if fs == [] then []
    else
      var init := fs[..|fs| - 1];
      assert forall k :: 0 <= k < |init| ==> init[k] == fs[k];
      AllColumns(init) + fs[|fs| - 1].columns
  }

  function AllRows(fs: seq<Frame>): seq<Row>
    decreases |fs|
  {
    if fs == [] then [] else AllRows(fs[..|fs| - 1]) + fs[|fs| - 1].rows
  }

  /** `pd.concat`: the frames' rows stacked in order; the labels of the first frame when all
      frames share them, otherwise every name once. An empty list raises. */
  function Concat(fs: seq<Frame>): (r: Result<Frame, ConsolidateError>)
    ensures r.Err? <==> fs == []
    ensures r.Ok? ==> forall c :: c in r.value.columns <==> exists k :: 0 <= k < |fs| && c in fs[k].columns
    ensures r.Ok? ==> r.value.rows == AllRows(fs)
  {
    if fs == [] then Err(NoObjectsToConcatenate)
    else
      var columns :=
        if forall k :: 0 <= k < |fs| ==> fs[k].columns == fs[0].columns then fs[0].columns
        else Distinct(AllColumns(fs));
      Ok(Frame(columns, AllRows(fs)))
  }

  /** Stacking keeps the order of the frames and of their rows. */
  lemma {:induction false} AllRowsAppend(a: seq<Frame>, b: seq<Frame>)
    ensures AllRows(a + b) == AllRows(a) + AllRows(b)
    decreases |b|
  {
    if b == [] {
      assert a + b == a;
    } else {
      var init := b[..|b| - 1];
      assert (a + b)[..|a + b| - 1] == a + init;
      assert (a + b)[|a + b| - 1] == b[|b| - 1];
      AllRowsAppend(a, init);
    }
  }

  /** Stacking one frame gives its rows. */
  lemma AllRowsOne(f: Frame)
    ensures AllRows([f]) == f.rows
  {
    assert [f][..0] == [];
  }

  /** The frames parsed from the sheets, in order; `None` if some sheet raises. */
  function ParsedSheets(sheets: seq<Sheet>): Option<seq<Frame>>
    decreases |sheets|
  {
    if sheets == [] then Some([])
    else
      match ParsedSheets(sheets[..|sheets| - 1])
      case None => None
      case Some(fs) =>
        match sheets[|sheets| - 1].parse
        case None => None
        case Some(f) => Some(fs + [Select(f)])
  }

  lemma {:induction false} SheetsStopAtError(sheets: seq<Sheet>, i: nat)
    requires i <= |sheets| && ParsedSheets(sheets[..i]).None?
    ensures ParsedSheets(sheets).None?
    decreases |sheets| - i
  {
    if i < |sheets| {
      assert sheets[..i + 1][..i] == sheets[..i];
      SheetsStopAtError(sheets, i + 1);
    } else {
      assert sheets[..i] == sheets;
    }
  }

  /** One frame per sheet, in `sheet_names` order, when no sheet raises. */
  lemma {:induction false} ParsedSheetsOrder(sheets: seq<Sheet>)
    requires ParsedSheets(sheets).Some?
    ensures |ParsedSheets(sheets).value| == |sheets|
    ensures forall k :: 0 <= k < |sheets| ==> sheets[k].parse.Some? && ParsedSheets(sheets).value[k] == Select(sheets[k].parse.value)
    decreases |sheets|
  {
    if sheets != [] {
      var init := sheets[..|sheets| - 1];
      ParsedSheetsOrder(init);
      assert forall k :: 0 <= k < |init| ==> init[k] == sheets[k];
    }
  }

  /** `pd.ExcelFile` on the path, each sheet parsed with the `usecols` predicate, the sheets
      stacked with `pd.concat`. */
  function ReadWorkbook(disk: Disk, path: string): Result<Frame, ConsolidateError> {
    match disk.workbook(path)
    case None => Err(ReadFailed(path))
    case Some(sheets) =>
      match ParsedSheets(sheets)
      case None => Err(ReadFailed(path))
      case Some(fs) => Concat(fs)
  }

  /** The sheet loop of the workbook branch. */
  method ParseSheets(disk: Disk, path: string) returns (r: Result<Frame, ConsolidateError>)
    ensures r == ReadWorkbook(disk, path)
  {
    var workbook := disk.workbook(path);
    if workbook.None? {
      return Err(ReadFailed(path));
    }
    var sheets := workbook.value;
    var frames: seq<Frame> := [];
    for i := 0 to |sheets|
      invariant ParsedSheets(sheets[..i]) == Some(frames)
    {
      assert sheets[..i + 1][..i] == sheets[..i];
      var parsed := sheets[i].parse;
      if parsed.None? {
        SheetsStopAtError(sheets, i + 1);
        return Err(ReadFailed(path));
      }
      frames := frames + [Select(parsed.value)];
    }
    assert sheets[..|sheets|] == sheets;
    r := Concat(frames);
  }

  /** What one descriptor contributes: nothing when it is skipped or has another format,
      otherwise exactly one frame. */
  function ReadFile(disk: Disk, d: FileInfo): (r: Result<Option<Frame>, ConsolidateError>)
    ensures r.Ok? && r.value.Some? ==> Contributes(d)
    ensures Contributes(d) ==> r.Err? || r.value.Some?
    ensures !Contributes(d) ==> r == Ok(None)
  {
    if Skipped(d) then Ok(None)
    else
      var format := Lower(d.format);
      var path := FullPath(d);
      if format == "csv" then
        match ReadCsv(disk, path)
        case Ok(f) => Ok(Some(f))
        case Err(e) => Err(e)
      else if IsWorkbookFormat(format) then
        match ReadWorkbook(disk, path)
        case Ok(f) => Ok(Some(f))
        case Err(e) => Err(e)
      else Ok(None)
  }

  /** Only the file at `FullPath(d)` is read: two disks that agree there give the same result. */
  lemma ReadFileReadsFullPath(d1: Disk, d2: Disk, d: FileInfo)
    requires d1.workbook(FullPath(d)) == d2.workbook(FullPath(d))
    requires d1.csv(FullPath(d), Utf8) == d2.csv(FullPath(d), Utf8) && d1.csv(FullPath(d), Latin1) == d2.csv(FullPath(d), Latin1)
    ensures ReadFile(d1, d) == ReadFile(d2, d)
  {
  }

  predicate Contributes(d: FileInfo) {
    !Skipped(d) && (Lower(d.format) == "csv" || IsWorkbookFormat(Lower(d.format)))
  }

  /** The descriptors that contribute a frame, in order. */
  function Contributing(ds: seq<FileInfo>): (r: seq<FileInfo>)
    ensures forall d :: d in r <==> d in ds && Contributes(d)
    decreases |ds|
  {
    if ds == [] then []
    else
      var init := ds[..|ds| - 1];
      var last := ds[|ds| - 1];
      assert ds == init + [last];
      Contributing(init) + (if Contributes(last) then [last] else [])
  }

  /** The contributing descriptors keep their input order. */
  lemma {:induction false} ContributingAppend(a: seq<FileInfo>, b: seq<FileInfo>)
    ensures Contributing(a + b) == Contributing(a) + Contributing(b)
    decreases |b|
  {
    if b == [] {
      assert a + b == a;
    } else {
      var init, last := b[..|b| - 1], b[|b| - 1];
      assert (a + b)[..|a + b| - 1] == a + init;
      assert (a + b)[|a + b| - 1] == last;
      ContributingAppend(a, init);
    }
  }

  /** `df_list` after the loop over the descriptors, or the exception a reader raised. */
  function CollectFrames(disk: Disk, ds: seq<FileInfo>): Result<seq<Frame>, ConsolidateError>
    decreases |ds|
  {
    if ds == [] then Ok([])
    else
      match CollectFrames(disk, ds[..|ds| - 1])
      case Err(e) => Err(e)
      case Ok(fs) =>
        match ReadFile(disk, ds[|ds| - 1])
        case Err(e) => Err(e)
        case Ok(None) => Ok(fs)
        case Ok(Some(f)) => Ok(fs + [f])
  }

  lemma {:induction false} CollectStopsAtError(disk: Disk, ds: seq<FileInfo>, i: nat)
    requires i <= |ds| && CollectFrames(disk, ds[..i]).Err?
    ensures CollectFrames(disk, ds) == CollectFrames(disk, ds[..i])
    decreases |ds| - i
  {
    if i < |ds| {
      assert ds[..i + 1][..i] == ds[..i];
      CollectStopsAtError(disk, ds, i + 1);
    } else {
      assert ds[..i] == ds;
    }
  }

  /** Exactly one frame per contributing descriptor, in input order: the frame its own
      reader yields. */
  lemma {:induction false} CollectFramesOrder(disk: Disk, ds: seq<FileInfo>)
    requires CollectFrames(disk, ds).Ok?
    ensures |CollectFrames(disk, ds).value| == |Contributing(ds)|
    ensures forall k :: 0 <= k < |Contributing(ds)| ==>
              ReadFile(disk, Contributing(ds)[k]) == Ok(Some(CollectFrames(disk, ds).value[k]))
    decreases |ds|
  {
    if ds != [] {
      var init := ds[..|ds| - 1];
      CollectFramesOrder(disk, init);
      var fs := CollectFrames(disk, init).value;
      var cs := Contributing(init);
      assert forall k :: 0 <= k < |cs| ==> ReadFile(disk, cs[k]) == Ok(Some(fs[k]));
    }
  }

  /** Every frame read holds only allowed columns. */
  lemma {:induction false} CollectedColumnsAllowed(disk: Disk, ds: seq<FileInfo>)
    requires CollectFrames(disk, ds).Ok?
    ensures forall k, c :: 0 <= k < |CollectFrames(disk, ds).value| && c in CollectFrames(disk, ds).value[k].columns ==> Allowed(c)
    decreases |ds|
  {
    if ds != [] {
      var init := ds[..|ds| - 1];
      CollectedColumnsAllowed(disk, init);
      var d := ds[|ds| - 1];
      match ReadFile(disk, d)
      case Ok(Some(f)) =>
        ReadFileColumnsAllowed(disk, d);
      case _ =>
    }
  }

  lemma ReadFileColumnsAllowed(disk: Disk, d: FileInfo)
    requires ReadFile(disk, d).Ok? && ReadFile(disk, d).value.Some?
    ensures forall c :: c in ReadFile(disk, d).value.value.columns ==> Allowed(c)
  {
    var path := FullPath(d);
    if Lower(d.format) != "csv" {
      var sheets := disk.workbook(path).value;
      var fs := ParsedSheets(sheets).value;
      ParsedSheetsOrder(sheets);
      forall c | c in Concat(fs).value.columns
        ensures Allowed(c)
      {
        var k :| 0 <= k < |fs| && c in fs[k].columns;
        SelectKeepsRows(sheets[k].parse.value);
      }
    } else {
      match disk.csv(path, Utf8)
      case Parsed(f) => SelectKeepsRows(f);
      case UndecodableBytes => SelectKeepsRows(disk.csv(path, Latin1).frame);
      case Unparsable =>
    }
  }

  /** The skip lists compare exactly: a file named `readme` is skipped whatever its format,
      any capitalisation of `docx` is skipped, but `README` is not skipped. */
  lemma SkipListsExact(disk: Disk, format: string, name: string)
    ensures ReadFile(disk, FileInfo("readme", format)) == Ok(None)
    ensures Lower(format) == "docx" ==> ReadFile(disk, FileInfo(name, format)) == Ok(None)
    ensures ReadFile(disk, FileInfo(name, "DOCX")) == Ok(None)
    ensures !Skipped(FileInfo("README", "csv")) && Contributes(FileInfo("README", "csv"))
  {
    assert Lower("DOCX") == "docx";
    assert Lower("csv") == "csv";
    assert "README" != "readme";
  }

  /** The master frame: the frames concatenated, then validated. */
  function Consolidation(disk: Disk, ds: seq<FileInfo>, parseTime: Cell -> Option<Cell>): Result<Frame, ConsolidateError> {
    match CollectFrames(disk, ds)
    case Err(e) => Err(e)
    case Ok(fs) =>
      match Concat(fs)
      case Err(e) => Err(e)
      case Ok(master) => Ok(ValidateData(master, parseTime))
  }

  /** The master frame holds the collected frames' rows stacked in order, one for one, each
      row with the same cells except under `start time` and `end time`. */
  lemma ConsolidationRows(disk: Disk, ds: seq<FileInfo>, parseTime: Cell -> Option<Cell>)
    requires Consolidation(disk, ds, parseTime).Ok?
    ensures CollectFrames(disk, ds).Ok?
    ensures
      var all := AllRows(CollectFrames(disk, ds).value);
      var v := Consolidation(disk, ds, parseTime).value;
      |v.rows| == |all| &&
      (forall i :: 0 <= i < |all| ==> |v.rows[i]| == |all[i]|) &&
      (forall i, k ::
         (0 <= i < |all| && 0 <= k < |all[i]| &&
          (k >= |v.columns| || (v.columns[k] != "start time" && v.columns[k] != "end time"))) ==>
         v.rows[i][k] == all[i][k])
  {
  }

  /** When no descriptor is a readable format the concatenation raises. */
  lemma NothingContributes(disk: Disk, ds: seq<FileInfo>, parseTime: Cell -> Option<Cell>)
    requires forall d :: d in ds ==> !Contributes(d)
    ensures Consolidation(disk, ds, parseTime) == Err(NoObjectsToConcatenate)
  {
    NoFramesCollected(disk, ds);
  }

  lemma {:induction false} NoFramesCollected(disk: Disk, ds: seq<FileInfo>)
    requires forall d :: d in ds ==> !Contributes(d)
    ensures CollectFrames(disk, ds) == Ok([])
    decreases |ds|
  {
    if ds != [] {
      var init := ds[..|ds| - 1];
      assert forall d :: d in init ==> d in ds;
      NoFramesCollected(disk, init);
      assert ds[|ds| - 1] in ds;
    }
  }

  /** Every column of the master frame is the standard name of some name in the search list. */
  lemma MasterColumnsCanonical(disk: Disk, ds: seq<FileInfo>, parseTime: Cell -> Option<Cell>)
    requires Consolidation(disk, ds, parseTime).Ok?
    ensures forall c :: c in Consolidation(disk, ds, parseTime).value.columns ==>
              exists s :: s in SearchCols && c == NormalizeName(s)
  {
    var fs := CollectFrames(disk, ds).value;
    CollectedColumnsAllowed(disk, ds);
    var master := Concat(fs).value;
    var v := ValidateData(master, parseTime);
    forall c | c in v.columns
      ensures exists s :: s in SearchCols && c == NormalizeName(s)
    {
      var j :| 0 <= j < |v.columns| && v.columns[j] == c;
      var orig := master.columns[j];
      assert orig in master.columns;
      var k :| 0 <= k < |fs| && orig in fs[k].columns;
      assert Allowed(orig);
      NormalizeLower(orig);
    }
  }

  /** `consolidate_ridership_data`: the loop over the descriptors, then the concatenation and
      the validation of the master frame. */
  method ConsolidateRidershipData(disk: Disk, ds: seq<FileInfo>, parseTime: Cell -> Option<Cell>)
    returns (r: Result<Frame, ConsolidateError>)
    ensures r == Consolidation(disk, ds, parseTime)
  {
    var frames: seq<Frame> := [];
    for i := 0 to |ds|
      invariant CollectFrames(disk, ds[..i]) == Ok(frames)
    {
      assert ds[..i + 1][..i] == ds[..i];
      var d := ds[i];
      var format := Lower(d.format);
      if d.name in BadFiles || format in BadFormats {
        continue;
      }
      var path := FullPath(d);
      if format == "csv" || format == "xlsx" || format == "xls" {
        var read: Result<Frame, ConsolidateError>;
        if format == "csv" {
          read := ReadCsv(disk, path);
        } else {
          read := ParseSheets(disk, path);
        }
        if read.Err? {
          CollectStopsAtError(disk, ds, i + 1);
          return Err(read.error);
        }
        frames := frames + [read.value];
      }
    }
    assert ds[..|ds|] == ds;
    var master := Concat(frames);
    if master.Err? {
      return Err(master.error);
    }
    r := Ok(ValidateData(master.value, parseTime));
  }

  // ---------------------------------------------------------------- validate_data

  /** The seven source spellings renamed to the standard column names. */
  const Renames: map<string, string> := map[
    "trip_id" := "trip id",
    "trip_start_time" := "start time",
    "trip_stop_time" := "end time",
    "trip_duration_seconds" := "trip duration",
    "from_station_name" := "start station name",
    "to_station_name" := "end station name",
    "user_type" := "user type"
  ]

  /** A column name lower-cased, then renamed when it is one of the seven spellings. */
  function NormalizeName(c: string): string {
    var l := Lower(c);
    if l in Renames then Renames[l] else l
  }

  predicate IsLowercase(s: string) {
    forall k :: 0 <= k < |s| ==> !('A' <= s[k] <= 'Z')
  }

  lemma LowerOfLowercase(s: string)
    requires IsLowercase(s)
    ensures Lower(s) == s
  {
  }

  lemma LowerIdempotent(s: string)
    ensures IsLowercase(Lower(s)) && Lower(Lower(s)) == Lower(s)
  {
  }

  /** Lower-casing first changes nothing. */
  lemma NormalizeLower(c: string)
    ensures NormalizeName(Lower(c)) == NormalizeName(c)
  {
    LowerIdempotent(c);
  }

  /** Normalising twice is normalising once: the standard names are lower-case and are not
      themselves renamed. */
  lemma NormalizeIdempotent(c: string)
    ensures NormalizeName(NormalizeName(c)) == NormalizeName(c)
  {
    var l := Lower(c);
    LowerIdempotent(c);
    if l in Renames {
      var v := Renames[l];
      RenamedStandard(l);
      LowerOfLowercase(v);
    }
  }

  /** Every standard name is lower-case and is not itself renamed. */
  lemma RenamedStandard(l: string)
    requires l in Renames
    ensures IsLowercase(Renames[l]) && Renames[l] !in Renames
  {
  }

  /** Any capitalisation of the seven spellings reaches its standard name; a name already
      standard stays as it is. */
  lemma NormalizeAliases(c: string)
    requires Lower(c) in Renames
    ensures NormalizeName(c) == Renames[Lower(c)]
    ensures NormalizeName(Renames[Lower(c)]) == Renames[Lower(c)]
  {
    NormalizeIdempotent(c);
  }

  /** Validating a validated frame leaves its labels as they are. */
  lemma ValidateTwiceSameColumns(f: Frame, parseTime: Cell -> Option<Cell>)
    ensures ValidateData(ValidateData(f, parseTime), parseTime).columns == ValidateData(f, parseTime).columns
  {
    var once := ValidateData(f, parseTime);
    var twice := ValidateData(once, parseTime);
    forall k | 0 <= k < |f.columns|
      ensures twice.columns[k] == once.columns[k]
    {
      NormalizeIdempotent(f.columns[k]);
    }
  }

  function IndexOf(s: seq<string>, x: string): (r: nat)
    requires x in s
    ensures r < |s| && s[r] == x
  {
    if s[0] == x then 0 else 1 + IndexOf(s[1..], x)
  }

  /** Two positions holding `x` make it occur at least twice. */
  lemma TwoOccurrences(s: seq<string>, x: string, j: nat, k: nat)
    requires j < k < |s| && s[j] == x && s[k] == x
    ensures multiset(s)[x] >= 2
  {
    assert s == s[..k] + s[k..];
    assert multiset(s) == multiset(s[..k]) + multiset(s[k..]);
    assert s[..k][j] == x;
    assert s[k..][0] == x;
  }

  /** A label that occurs once sits at exactly one index. */
  lemma OnlyIndex(s: seq<string>, x: string, k: nat)
    requires multiset(s)[x] == 1 && k < |s| && s[k] == x
    ensures forall j :: 0 <= j < |s| && s[j] == x ==> j == k
  {
    forall j | 0 <= j < |s| && s[j] == x
      ensures j == k
    {
      if j < k {
        TwoOccurrences(s, x, j, k);
      } else if k < j {
        TwoOccurrences(s, x, k, j);
      }
    }
  }

  /** `df[name] = pd.to_datetime(df[name])`: `None` when it raises, because the name is
      missing, is not unique, or some cell under it does not parse as a time; otherwise every
      cell under the name is parsed and nothing else changes. */
  function ConvertColumn(f: Frame, name: string, parseTime: Cell -> Option<Cell>): (r: Option<Frame>)
    ensures r.Some? <==>
              multiset(f.columns)[name] == 1 &&
              forall i, k :: 0 <= i < |f.rows| && 0 <= k < |f.rows[i]| && k < |f.columns| && f.columns[k] == name ==>
                parseTime(f.rows[i][k]).Some?
    ensures r.Some? ==> r.value.columns == f.columns && |r.value.rows| == |f.rows|
    ensures r.Some? ==> forall i :: 0 <= i < |f.rows| ==> |r.value.rows[i]| == |f.rows[i]|
    ensures r.Some? ==> forall i, k :: 0 <= i < |f.rows| && 0 <= k < |f.rows[i]| && k < |f.columns| && f.columns[k] == name ==>
              r.value.rows[i][k] == parseTime(f.rows[i][k]).value
    ensures r.Some? ==> forall i, k :: 0 <= i < |f.rows| && 0 <= k < |f.rows[i]| && (k >= |f.columns| || f.columns[k] != name) ==>
              r.value.rows[i][k] == f.rows[i][k]
  {
    if multiset(f.columns)[name] != 1 then None
    else
      var k := IndexOf(f.columns, name);
      OnlyIndex(f.columns, name, k);
      if forall i :: 0 <= i < |f.rows| && k < |f.rows[i]| ==> parseTime(f.rows[i][k]).Some? then
        Some(Frame(f.columns, seq(|f.rows|, i requires 0 <= i < |f.rows| =>
          if k < |f.rows[i]| then f.rows[i][k := parseTime(f.rows[i][k]).value] else f.rows[i])))
      else None
  }

  /** The frame after `str.lower` and `rename`, before the `try`. */
  function Renamed(f: Frame): Frame {
    Frame(seq(|f.columns|, k requires 0 <= k < |f.columns| => NormalizeName(f.columns[k])), f.rows)
  }

  /** `validate_data` as it runs: the labels are normalised; `start time` and then `end time`
      are converted while that succeeds; then `.upper()` on a column raises before any row
      filter, and the frame is returned as it stands. */
  function ValidateData(f: Frame, parseTime: Cell -> Option<Cell>): (r: Frame)
    ensures |r.rows| == |f.rows|
    ensures |r.columns| == |f.columns| && forall k :: 0 <= k < |f.columns| ==> r.columns[k] == NormalizeName(f.columns[k])
    ensures forall i :: 0 <= i < |f.rows| ==> |r.rows[i]| == |f.rows[i]|
    ensures forall i, k ::
              (0 <= i < |f.rows| && 0 <= k < |f.rows[i]| &&
               (k >= |r.columns| || (r.columns[k] != "start time" && r.columns[k] != "end time"))) ==>
              r.rows[i][k] == f.rows[i][k]
  {
    var renamed := Renamed(f);
    match ConvertColumn(renamed, "start time", parseTime)
    case None => renamed
    case Some(started) =>
      match ConvertColumn(started, "end time", parseTime)
      case None => started
      case Some(ended) => ended
  }

  /** The timestamp fix: when converting `start time` succeeds, every cell under the one
      label that normalises to `start time` is the parsed original cell. */
  lemma ValidateConvertsStart(f: Frame, parseTime: Cell -> Option<Cell>)
    requires ConvertColumn(Renamed(f), "start time", parseTime).Some?
    ensures forall i, k ::
              (0 <= i < |f.rows| && 0 <= k < |f.rows[i]| && k < |f.columns| &&
               NormalizeName(f.columns[k]) == "start time") ==>
              ValidateData(f, parseTime).rows[i][k] == parseTime(f.rows[i][k]).value
  {
    var renamed := Renamed(f);
    var started := ConvertColumn(renamed, "start time", parseTime).value;
    var r := ValidateData(f, parseTime);
    forall i, k | 0 <= i < |f.rows| && 0 <= k < |f.rows[i]| && k < |f.columns| && NormalizeName(f.columns[k]) == "start time"
      ensures r.rows[i][k] == parseTime(f.rows[i][k]).value
    {
      assert renamed.columns[k] == "start time";
      assert started.rows[i][k] == parseTime(f.rows[i][k]).value;
      match ConvertColumn(started, "end time", parseTime)
      case None =>
      case Some(ended) =>
        assert ended.rows[i][k] == started.rows[i][k];
    }
  }

  /** When both conversions succeed, every cell under the one label that normalises to
      `end time` is the parsed original cell. */
  lemma ValidateConvertsEnd(f: Frame, parseTime: Cell -> Option<Cell>)
    requires ConvertColumn(Renamed(f), "start time", parseTime).Some?
    requires ConvertColumn(ConvertColumn(Renamed(f), "start time", parseTime).value, "end time", parseTime).Some?
    ensures forall i, k ::
              (0 <= i < |f.rows| && 0 <= k < |f.rows[i]| && k < |f.columns| &&
               NormalizeName(f.columns[k]) == "end time") ==>
              ValidateData(f, parseTime).rows[i][k] == parseTime(f.rows[i][k]).value
  {
    var renamed := Renamed(f);
    var started := ConvertColumn(renamed, "start time", parseTime).value;
    var ended := ConvertColumn(started, "end time", parseTime).value;
    forall i, k | 0 <= i < |f.rows| && 0 <= k < |f.rows[i]| && k < |f.columns| && NormalizeName(f.columns[k]) == "end time"
      ensures ValidateData(f, parseTime).rows[i][k] == parseTime(f.rows[i][k]).value
    {
      assert renamed.columns[k] == "end time";
      assert started.rows[i][k] == f.rows[i][k];
      assert ended.rows[i][k] == parseTime(started.rows[i][k]).value;
    }
  }

  /** `end time` is converted only after `start time`: when the first conversion raises, the
      renamed frame is returned with no cell changed. */
  lemma ValidateStartFails(f: Frame, parseTime: Cell -> Option<Cell>)
    requires ConvertColumn(Renamed(f), "start time", parseTime).None?
    ensures ValidateData(f, parseTime) == Renamed(f)
  {
  }
}
