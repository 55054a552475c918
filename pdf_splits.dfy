/**
 * `process_pdf_splits`: walks the pages of the uploaded payslip PDF in order,
 * extracts each page's code and period, looks the code up in the employee
 * directory, writes the page to its own file under the output directory and
 * records what it did.
 *
 * The PDF is given as the sequence of its page texts (`extract_text()`,
 * with `None` read as the empty text); the files written are kept by an
 * `OutputStore`.
 */
module PdfSplits {
  import opened Wrappers
  import opened Text
  import opened PageText
  import opened Filenames
  import opened DirectoryLoader

  /** `"TROUVE"` or `"NON TROUVE"`. */
  datatype Status = Trouve | NonTrouve

  /** One entry of `processed_files`. */
  datatype PageResult = PageResult(
    id: string,
    originalIndex: nat,
    name: string,
    email: string,
    filename: string,
    status: Status,
    path: string)

  /** The exception that stops the run: page `page` has text but no code. */
  datatype RunError = NoCodeOnPage(page: nat)

  // ---------------------------------------------------------------- the output directory

  /**
   * The files written so far: `files` maps each path to the page last
   * written there (a later write replaces the file), `writes` lists every
   * write in order.
   */
  class OutputStore {
    var files: map<string, nat>
    var writes: seq<string>

    constructor ()
      ensures files == map[] && writes == []
    {
      files := map[];
      writes := [];
    }

    /** `open(path, "wb")` and `writer.write(f)` for page `page`. */
    method Write(path: string, page: nat)
      modifies this
      ensures files == old(files)[path := page]
      ensures writes == old(writes) + [path]
    {
      files := files[path := page];
      writes := writes + [path];
    }
  }

  /**
   * `os.path.join(output_dir, file_name)` on POSIX: an absolute file name
   * replaces the directory; otherwise one '/' separates them unless the
   * directory is empty or already ends with one.
   */
  function Join(dir: string, file: string): (path: string)
    ensures |file| <= |path| && path[|path| - |file|..] == file
    ensures (file == [] || file[0] != '/') ==> |dir| <= |path| && path[..|dir|] == dir
  {
    if file != [] && file[0] == '/' then file
    else if dir == [] || dir[|dir| - 1] == '/' then dir + file
    else dir + "/" + file
  }

  /** Below one directory, different relative file names give different paths. */
  lemma JoinInjective(dir: string, f1: string, f2: string)
    requires f1 != [] && f1[0] != '/' && f2 != [] && f2[0] != '/'
    requires Join(dir, f1) == Join(dir, f2)
    ensures f1 == f2
  {
    var p := Join(dir, f1);
    var sep := if dir == [] || dir[|dir| - 1] == '/' then dir else dir + "/";
    assert Join(dir, f1) == sep + f1 && Join(dir, f2) == sep + f2;
    assert f1 == p[|sep|..];
  }

  // ---------------------------------------------------------------- one page

  /** `f"page_{i+1}.pdf"`: the file name of a page that was not matched. */
  function NotFoundName(i: nat): string {
    "page_" + NatToString(i + 1) + ".pdf"
  }

  /** `f"UNKNOWN_{i}"`: the id of a page without text. */
  function UnknownId(i: nat): string {
    "UNKNOWN_" + NatToString(i)
  }

  /** Reading page `text` raises. */
  predicate Crashes(text: string) {
    ExtractInfo(text).Err?
  }

  /**
   * The record of page `i`, and the file it is written to: a page whose
   * code is in the directory is named after the employee, any other page
   * after its position.
   */
  function Record(i: nat, text: string, employees: map<string, Employee>, outputDir: string): (r: PageResult)
    requires !Crashes(text)
    ensures r.originalIndex == i
    ensures r.path == Join(outputDir, r.filename)
    ensures var info := ExtractInfo(text).value;
      r.status == Trouve <==> info.Extracted? && info.code in employees
    ensures r.status == Trouve ==>
      var info := ExtractInfo(text).value;
      r.id == info.code && employees[info.code] == Employee(r.name, r.email) &&
      r.filename == GenerateFilename(info.code, r.name, info.period) + ".pdf"
    ensures r.status == NonTrouve ==> r.name == "" && r.email == "" && r.filename == NotFoundName(i)
    ensures ExtractInfo(text).value.Extracted? ==> r.id == ExtractInfo(text).value.code
    ensures r.id == UnknownId(i) <==> text == []
  {
    var info := ExtractInfo(text).value;
    var id := if info.Extracted? then info.code else UnknownId(i);
    assert info.Extracted? ==> id[..4] == "PERC" && UnknownId(i)[..4] == "UNKN";
    if info.Extracted? && info.code in employees then
      var employee := employees[info.code];
      var file := GenerateFilename(info.code, employee.name, info.period) + ".pdf";
      PageResult(id, i, employee.name, employee.email, file, Trouve, Join(outputDir, file))
    else
      var file := NotFoundName(i);
      PageResult(id, i, "", "", file, NonTrouve, Join(outputDir, file))
  }

  // ---------------------------------------------------------------- the run

  /** The first page at or after `from` that raises, or `|pages|` when none does. */
  function FirstCrash(pages: seq<string>, from: nat): (k: nat)
    requires from <= |pages|
    ensures from <= k <= |pages|
    ensures forall j :: from <= j < k ==> !Crashes(pages[j])
    ensures k < |pages| ==> Crashes(pages[k])
    decreases |pages| - from
  {
    if from == |pages| then from
    else if Crashes(pages[from]) then from
    else FirstCrash(pages, from + 1)
  }

  /** The records of the first `n` pages, none of which raises, in page order. */
  function Records(pages: seq<string>, n: nat, employees: map<string, Employee>, outputDir: string): (rs: seq<PageResult>)
    requires n <= FirstCrash(pages, 0)
    ensures |rs| == n
  {
    if n == 0 then [] else Records(pages, n - 1, employees, outputDir) + [Record(n - 1, pages[n - 1], employees, outputDir)]
  }

  /** The record at position `j` is that of page `j`. */
  lemma {:induction false} RecordAt(pages: seq<string>, n: nat, employees: map<string, Employee>, outputDir: string, j: nat)
    requires n <= FirstCrash(pages, 0) && j < n
    ensures Records(pages, n, employees, outputDir)[j] == Record(j, pages[j], employees, outputDir)
  {
    if j < n - 1 {
      RecordAt(pages, n - 1, employees, outputDir, j);
      var front := Records(pages, n - 1, employees, outputDir);
      assert Records(pages, n, employees, outputDir) == front + [Record(n - 1, pages[n - 1], employees, outputDir)];
    }
  }

  /** Every record is that of the page at its position. */
  lemma RecordsAt(pages: seq<string>, n: nat, employees: map<string, Employee>, outputDir: string)
    requires n <= FirstCrash(pages, 0)
    ensures forall j :: 0 <= j < n ==> Records(pages, n, employees, outputDir)[j] == Record(j, pages[j], employees, outputDir)
  {
    forall j | 0 <= j < n
      ensures Records(pages, n, employees, outputDir)[j] == Record(j, pages[j], employees, outputDir)
    {
      RecordAt(pages, n, employees, outputDir, j);
    }
  }

  /** The path of every record, in order: the files the run writes. */
  function Paths(records: seq<PageResult>): (paths: seq<string>)
    ensures |paths| == |records|
    ensures forall j :: 0 <= j < |records| ==> paths[j] == records[j].path
  {
    if records == [] then []
    else Paths(records[..|records| - 1]) + [records[|records| - 1].path]
  }

  /** The directory after `records` have been written in order on top of `files`. */
  function Store(files: map<string, nat>, records: seq<PageResult>): map<string, nat> {
    if records == [] then files
    else
      var last := records[|records| - 1];
      Store(files, records[..|records| - 1])[last.path := last.originalIndex]
  }

  /** A page that does not raise, reached before the first crash, moves the first crash past it. */
  lemma PassPage(pages: seq<string>, i: nat)
    requires i < |pages| && i <= FirstCrash(pages, 0) && !Crashes(pages[i])
    ensures i + 1 <= FirstCrash(pages, 0)
  {
  }

  /** The run ends with the error of page `i` when `i` is the first page that raises. */
  lemma RunStopsAt(pages: seq<string>, employees: map<string, Employee>, outputDir: string, i: nat)
    requires i < |pages| && i <= FirstCrash(pages, 0) && Crashes(pages[i])
    ensures FirstCrash(pages, 0) == i
    ensures Run(pages, employees, outputDir) == Err(NoCodeOnPage(i))
  {
  }

  /** The run returns the records of every page when none raises. */
  lemma RunCompletes(pages: seq<string>, employees: map<string, Employee>, outputDir: string)
    requires |pages| <= FirstCrash(pages, 0)
    ensures FirstCrash(pages, 0) == |pages|
    ensures Run(pages, employees, outputDir) == Ok(Records(pages, |pages|, employees, outputDir))
  {
  }

  lemma StoreAppend(files: map<string, nat>, records: seq<PageResult>, r: PageResult)
    ensures Store(files, records + [r]) == Store(files, records)[r.path := r.originalIndex]
    ensures Paths(records + [r]) == Paths(records) + [r.path]
  {
    assert (records + [r])[..|records|] == records;
  }

  /** Writing the file of one more record keeps the disk in step with the records. */
  lemma WriteAppended(files0: map<string, nat>, writes0: seq<string>, processed: seq<PageResult>, record: PageResult, disk: OutputStore)
    requires disk.writes == writes0 + Paths(processed) + [record.path]
    requires disk.files == Store(files0, processed)[record.path := record.originalIndex]
    ensures disk.writes == writes0 + Paths(processed + [record])
    ensures disk.files == Store(files0, processed + [record])
  {
    StoreAppend(files0, processed, record);
    assert writes0 + Paths(processed) + [record.path] == writes0 + (Paths(processed) + [record.path]);
  }

  /**
   * What `process_pdf_splits` returns: one record per page, in page order,
   * or the error of the first page that raises.
   */
  function Run(pages: seq<string>, employees: map<string, Employee>, outputDir: string): Result<seq<PageResult>, RunError> {
    var k := FirstCrash(pages, 0);
    if k < |pages| then Err(NoCodeOnPage(k)) else Ok(Records(pages, |pages|, employees, outputDir))
  }

  /**
   * The run succeeds exactly when no page raises, and then holds the record
   * of every page at its own position; otherwise it names the first page
   * that raises.
   */
  lemma RunOutcome(pages: seq<string>, employees: map<string, Employee>, outputDir: string)
    ensures var r := Run(pages, employees, outputDir);
      (r.Ok? <==> forall j :: 0 <= j < |pages| ==> !Crashes(pages[j])) &&
      (r.Err? ==>
        var k := r.error.page;
        k < |pages| && Crashes(pages[k]) && forall j :: 0 <= j < k ==> !Crashes(pages[j])) &&
      (r.Ok? ==>
        |r.value| == |pages| &&
        forall j :: 0 <= j < |pages| ==>
          r.value[j].originalIndex == j && r.value[j] == Record(j, pages[j], employees, outputDir))
  {
    if FirstCrash(pages, 0) == |pages| {
      RecordsAt(pages, |pages|, employees, outputDir);
    }
  }

  /**
   * The body of the loop of `process_pdf_splits` for page `i`: read the
   * page, decide status, name and file, write the page, build its record.
   * A page that raises writes nothing.
   */
  method ProcessPage(i: nat, text: string, employees: map<string, Employee>, outputDir: string, disk: OutputStore)
    returns (r: Result<PageResult, RunError>)
    modifies disk
    ensures r.Err? <==> Crashes(text)
    ensures r.Err? ==> r.error == NoCodeOnPage(i) && disk.writes == old(disk.writes) && disk.files == old(disk.files)
    ensures r.Ok? ==> !Crashes(text) && r.value == Record(i, text, employees, outputDir)
    ensures r.Ok? ==> disk.writes == old(disk.writes) + [r.value.path]
    ensures r.Ok? ==> disk.files == old(disk.files)[r.value.path := i]
  {
    var extracted := ExtractInfo(text);
    if extracted.Err? {
      return Err(NoCodeOnPage(i));
    }
    var info := extracted.value;
    var status := NonTrouve;
    var fileName := NotFoundName(i);
    var email := "";
    var employeeName := "";
    if info.Extracted? && info.code in employees {
      var employee := employees[info.code];
      employeeName := employee.name;
      email := employee.email;
      fileName := GenerateFilename(info.code, employeeName, info.period) + ".pdf";
      status := Trouve;
    }
    var outputPath := Join(outputDir, fileName);
    disk.Write(outputPath, i);
    var id := if info.Extracted? then info.code else UnknownId(i);
    r := Ok(PageResult(id, i, employeeName, email, fileName, status, outputPath));
  }

  /**
   * `process_pdf_splits`: one write per page, then one record per page;
   * a page that raises ends the run, the pages before it already written.
   */
  method ProcessPdfSplits(pages: seq<string>, employees: map<string, Employee>, outputDir: string, disk: OutputStore)
    returns (r: Result<seq<PageResult>, RunError>)
    modifies disk
    ensures r == Run(pages, employees, outputDir)
    ensures var written := Records(pages, FirstCrash(pages, 0), employees, outputDir);
      disk.writes == old(disk.writes) + Paths(written) &&
      disk.files == Store(old(disk.files), written)
  {
    ghost var files0, writes0 := disk.files, disk.writes;
    var processed: seq<PageResult> := [];
    var i := 0;
    while i < |pages|
      invariant i <= FirstCrash(pages, 0)
      invariant processed == Records(pages, i, employees, outputDir)
      invariant disk.writes == writes0 + Paths(processed)
      invariant disk.files == Store(files0, processed)
    {
      var page := ProcessPage(i, pages[i], employees, outputDir, disk);
      if page.Err? {
        RunStopsAt(pages, employees, outputDir, i);
        return Err(page.error);
      }
      var record := page.value;
      PassPage(pages, i);
      WriteAppended(files0, writes0, processed, record, disk);
      processed := processed + [record];
      i := i + 1;
    }
    RunCompletes(pages, employees, outputDir);
    return Ok(processed);
  }

  // ---------------------------------------------------------------- properties

  /** The file name tells the outcome: "page_..." exactly for the pages that were not matched. */
  lemma FilenameShowsStatus(i: nat, text: string, employees: map<string, Employee>, outputDir: string)
    requires !Crashes(text)
    ensures var r := Record(i, text, employees, outputDir);
      |r.filename| >= 5 && r.filename[0] != '/' &&
      (r.filename[..5] == "page_" <==> r.status == NonTrouve)
  {
    var r := Record(i, text, employees, outputDir);
    if r.status == Trouve {
      var info := ExtractInfo(text).value;
      var g := GenerateFilename(info.code, r.name, info.period);
      assert r.filename[0] == g[0];
      assert IsDigit(g[0]);
      assert r.filename[..5][0] == g[0];
    }
  }

  /** Different pages never share the name "page_<n>.pdf". */
  lemma NotFoundNamesDistinct(i: nat, j: nat)
    requires NotFoundName(i) == NotFoundName(j)
    ensures i == j
  {
    var a := NatToString(i + 1);
    var b := NatToString(j + 1);
    var s := NotFoundName(i);
    assert |a| == |b|;
    assert a == s[5..5 + |a|];
    assert b == NotFoundName(j)[5..5 + |b|];
  }

  /** A page that was not matched has a file of its own: no other page of the run is written to its path. */
  lemma NotFoundPageKept(pages: seq<string>, employees: map<string, Employee>, outputDir: string, i: nat, j: nat)
    requires i < |pages| && j < |pages| && i != j
    requires !Crashes(pages[i]) && !Crashes(pages[j])
    requires Record(i, pages[i], employees, outputDir).status == NonTrouve
    ensures Record(i, pages[i], employees, outputDir).path != Record(j, pages[j], employees, outputDir).path
  {
    var ri := Record(i, pages[i], employees, outputDir);
    var rj := Record(j, pages[j], employees, outputDir);
    FilenameShowsStatus(i, pages[i], employees, outputDir);
    FilenameShowsStatus(j, pages[j], employees, outputDir);
    if ri.path == rj.path {
      JoinInjective(outputDir, ri.filename, rj.filename);
      NotFoundNamesDistinct(i, j);
    }
  }

  /**
   * Two matched pages with the same code and the same period get the same
   * file: the later one replaces the earlier one on disk.
   */
  lemma SameCodeSamePath(i: nat, ti: string, j: nat, tj: string, employees: map<string, Employee>, outputDir: string)
    requires !Crashes(ti) && !Crashes(tj)
    requires Record(i, ti, employees, outputDir).status == Trouve && Record(j, tj, employees, outputDir).status == Trouve
    requires ExtractInfo(ti) == ExtractInfo(tj)
    ensures Record(i, ti, employees, outputDir).path == Record(j, tj, employees, outputDir).path
  {
  }

  /** The last write to a path decides which page it holds. */
  lemma {:induction false} StoreLastWriteWins(files: map<string, nat>, records: seq<PageResult>, j: nat)
    requires j < |records|
    requires forall k :: j < k < |records| ==> records[k].path != records[j].path
    ensures records[j].path in Store(files, records)
    ensures Store(files, records)[records[j].path] == records[j].originalIndex
  {
    var n := |records| - 1;
    if j < n {
      var front := records[..n];
      assert front[j] == records[j];
      StoreLastWriteWins(files, front, j);
    }
  }

  /** A path no record names keeps what it held: nothing else on disk changes. */
  lemma {:induction false} StoreElsewhereUnchanged(files: map<string, nat>, records: seq<PageResult>, path: string)
    requires forall k :: 0 <= k < |records| ==> records[k].path != path
    ensures path in Store(files, records) <==> path in files
    ensures path in files ==> Store(files, records)[path] == files[path]
  {
    if records != [] {
      var front := records[..|records| - 1];
      assert forall k :: 0 <= k < |front| ==> front[k] == records[k];
      StoreElsewhereUnchanged(files, front, path);
    }
  }

  /**
   * When no page raises, every page that was not matched ends up on disk
   * under its own path, holding that page.
   */
  lemma UnmatchedPagesKept(pages: seq<string>, employees: map<string, Employee>, outputDir: string,
                           files: map<string, nat>, i: nat)
    requires forall j :: 0 <= j < |pages| ==> !Crashes(pages[j])
    requires i < |pages| && Record(i, pages[i], employees, outputDir).status == NonTrouve
    ensures var record := Record(i, pages[i], employees, outputDir);
      var written := Store(files, Records(pages, |pages|, employees, outputDir));
      record.path in written && written[record.path] == i
  {
    var records := Records(pages, |pages|, employees, outputDir);
    RecordsAt(pages, |pages|, employees, outputDir);
    assert records[i] == Record(i, pages[i], employees, outputDir);
    forall k | i < k < |records| ensures records[k].path != records[i].path {
      assert records[k] == Record(k, pages[k], employees, outputDir);
      NotFoundPageKept(pages, employees, outputDir, i, k);
    }
    StoreLastWriteWins(files, records, i);
  }
}
