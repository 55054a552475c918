/**
 * `parse_excel`: builds the employee directory, code ("matricule") to name
 * and e-mail address, from the sheet "EMAIL SALAIRE " of the spreadsheet.
 *
 * The workbook arrives already read: each sheet is its header names and its
 * rows of cells, each cell the text `str()` gives for it (an empty cell
 * reads "nan").
 */
module DirectoryLoader {
  import opened Wrappers
  import opened Text

  /** One directory entry, `{"name": ..., "email": ...}`. */
  datatype Employee = Employee(name: string, email: string)

  /** A sheet: its header names and its rows of cells. */
  datatype Sheet = Sheet(headers: seq<string>, rows: seq<seq<string>>)

  /** The errors `parse_excel` raises. */
  datatype LoadError =
    | SheetNotFound(sheet: string)           // from `pd.read_excel(..., sheet_name=...)`
    | MissingColumns(columns: seq<string>)   // "Missing columns in Excel: [...]"

  const SheetName: string := "EMAIL SALAIRE "
  const IdColumn: string := "MATRICULE"
  const NameColumn: string := "NOM ET PERENOM"
  const EmailColumn: string := "EMAIL"
  const RequiredColumns: seq<string> := [IdColumn, NameColumn, EmailColumn]

  /** `str(NaN)`: the text of an empty cell; a row with this code is skipped. */
  const Placeholder: string := "nan"

  // ---------------------------------------------------------------- columns

  /** `df.columns.str.strip()`. */
  function StripAll(headers: seq<string>): (columns: seq<string>)
    ensures |columns| == |headers|
    ensures forall j :: 0 <= j < |headers| ==> columns[j] == Strip(headers[j])
  {
    seq(|headers|, j requires 0 <= j < |headers| => Strip(headers[j]))
  }

  /** `xs` can be obtained from `ys` by deleting elements: same order. */
  predicate Subsequence(xs: seq<string>, ys: seq<string>)
    decreases |ys|
  {
    if xs == [] then true
    else if ys == [] then false
    else (xs[0] == ys[0] && Subsequence(xs[1..], ys[1..])) || Subsequence(xs, ys[1..])
  }

  /**
   * `[col for col in required_columns if col not in df.columns]`: the
   * required names that are absent, in the order they are required.
   */
  function Missing(required: seq<string>, columns: seq<string>): (missing: seq<string>)
    ensures forall c :: c in missing <==> c in required && c !in columns
    ensures Subsequence(missing, required)
  {
    if required == [] then []
    else
      var rest := Missing(required[1..], columns);
      if required[0] in columns then rest
      else
        assert ([required[0]] + rest)[1..] == rest;
        [required[0]] + rest
  }

  /** Nothing is missing when every required name is among the columns. */
  lemma {:induction false} MissingNone(required: seq<string>, columns: seq<string>)
    requires forall c :: c in required ==> c in columns
    ensures Missing(required, columns) == []
  {
    if required != [] {
      assert required[0] in required;
      assert forall c :: c in required[1..] ==> c in required;
      MissingNone(required[1..], columns);
    }
  }

  /** The first position of `name` among `columns`. */
  function ColumnIndex(columns: seq<string>, name: string): (j: nat)
    requires name in columns
    ensures j < |columns| && columns[j] == name
    ensures forall k :: 0 <= k < j ==> columns[k] != name
  {
    if columns[0] == name then 0 else 1 + ColumnIndex(columns[1..], name)
  }

  /** Where `row["MATRICULE"]`, `row["NOM ET PERENOM"]` and `row["EMAIL"]` are read. */
  datatype Positions = Positions(id: nat, name: nat, email: nat)

  function PositionsOf(columns: seq<string>): Positions
    requires Missing(RequiredColumns, columns) == []
  {
    assert IdColumn in RequiredColumns && NameColumn in RequiredColumns && EmailColumn in RequiredColumns;
    Positions(ColumnIndex(columns, IdColumn), ColumnIndex(columns, NameColumn), ColumnIndex(columns, EmailColumn))
  }

  // ---------------------------------------------------------------- rows

  /** `str(row[column])`: a cell past the end of a short row is empty, so "nan". */
  function Cell(row: seq<string>, j: nat): string {
    if j < |row| then row[j] else Placeholder
  }

  /** `str(row["MATRICULE"]).strip()`. */
  function RowKey(row: seq<string>, at: Positions): string {
    Strip(Cell(row, at.id))
  }

  /** The entry a row stores: its stripped name and e-mail, whatever they hold. */
  function RowEntry(row: seq<string>, at: Positions): Employee {
    Employee(Strip(Cell(row, at.name)), Strip(Cell(row, at.email)))
  }

  /** The update each row asks for, in row order: its code and its entry. */
  function Updates(rows: seq<seq<string>>, at: Positions): (us: seq<(string, Employee)>)
    ensures |us| == |rows|
    ensures forall j :: 0 <= j < |rows| ==> us[j] == (RowKey(rows[j], at), RowEntry(rows[j], at))
  {
    seq(|rows|, j requires 0 <= j < |rows| => (RowKey(rows[j], at), RowEntry(rows[j], at)))
  }

  /**
   * The map after the first `n` updates: an update whose code is "nan" is
   * skipped, any other sets its code to its entry, a later update
   * overwriting an earlier one.
   */
  function Fold(us: seq<(string, Employee)>, n: nat): map<string, Employee>
    requires n <= |us|
  {
    if n == 0 then map[]
    else
      var before := Fold(us, n - 1);
      if us[n - 1].0 == Placeholder then before else before[us[n - 1].0 := us[n - 1].1]
  }

  /** The map after the loop has seen the first `n` rows. */
  function Directory(rows: seq<seq<string>>, n: nat, at: Positions): map<string, Employee>
    requires n <= |rows|
  {
    Fold(Updates(rows, at), n)
  }

  /** One more row: skipped when its code is "nan", otherwise stored under its code. */
  lemma DirectoryStep(rows: seq<seq<string>>, n: nat, at: Positions)
    requires n < |rows|
    ensures var key := RowKey(rows[n], at);
      Directory(rows, n + 1, at) ==
        if key == Placeholder then Directory(rows, n, at)
        else Directory(rows, n, at)[key := RowEntry(rows[n], at)]
  {
    var us := Updates(rows, at);
    assert us[n] == (RowKey(rows[n], at), RowEntry(rows[n], at));
  }

  /** What `parse_excel` returns or raises for a workbook. */
  function Load(workbook: map<string, Sheet>): Result<map<string, Employee>, LoadError> {
    if SheetName !in workbook then Err(SheetNotFound(SheetName))
    else
      var sheet := workbook[SheetName];
      var columns := StripAll(sheet.headers);
      var missing := Missing(RequiredColumns, columns);
      if missing != [] then Err(MissingColumns(missing))
      else Ok(Directory(sheet.rows, |sheet.rows|, PositionsOf(columns)))
  }

  /**
   * `parse_excel`: checks the sheet and its columns, then folds the rows
   * into a map, one row at a time.
   */
  method ParseExcel(workbook: map<string, Sheet>) returns (r: Result<map<string, Employee>, LoadError>)
    ensures r == Load(workbook)
    ensures r.Err? <==>
              SheetName !in workbook ||
              exists c :: c in RequiredColumns && c !in StripAll(workbook[SheetName].headers)
  {
    if SheetName !in workbook {
      return Err(SheetNotFound(SheetName));
    }
    var sheet := workbook[SheetName];
    var columns := StripAll(sheet.headers);
    var missing := Missing(RequiredColumns, columns);
    LoadFails(workbook);
    if missing != [] {
      return Err(MissingColumns(missing));
    }
    var at := PositionsOf(columns);
    var employees: map<string, Employee> := map[];
    var i := 0;
    while i < |sheet.rows|
      invariant i <= |sheet.rows|
      invariant employees == Directory(sheet.rows, i, at)
    {
      var row := sheet.rows[i];
      var id := Strip(Cell(row, at.id));
      var name := Strip(Cell(row, at.name));
      var email := Strip(Cell(row, at.email));
      DirectoryStep(sheet.rows, i, at);
      if id != Placeholder {
        employees := employees[id := Employee(name, email)];
      }
      i := i + 1;
    }
    return Ok(employees);
  }

  // ---------------------------------------------------------------- properties

  /** The codes of the first `n` rows that are kept: stripped, and not "nan". */
  function KeptKeys(rows: seq<seq<string>>, n: nat, at: Positions): set<string>
    requires n <= |rows|
  {
    set j | 0 <= j < n && RowKey(rows[j], at) != Placeholder :: RowKey(rows[j], at)
  }

  /** The codes of the first `n` updates that are not "nan". */
  function FoldKeys(us: seq<(string, Employee)>, n: nat): set<string>
    requires n <= |us|
  {
    set j | 0 <= j < n && us[j].0 != Placeholder :: us[j].0
  }

  /** The fold keeps a key for every code it is given other than "nan", and no other. */
  lemma {:induction false} FoldKeysExact(us: seq<(string, Employee)>, n: nat)
    requires n <= |us|
    ensures Fold(us, n).Keys == FoldKeys(us, n)
  {
    if n > 0 {
      FoldKeysExact(us, n - 1);
      forall key | key in FoldKeys(us, n) ensures key in Fold(us, n) {
        var j :| 0 <= j < n && us[j].0 != Placeholder && us[j].0 == key;
        if j < n - 1 {
          assert key in FoldKeys(us, n - 1);
        }
      }
      forall key | key in Fold(us, n) ensures key in FoldKeys(us, n) {
        if key in Fold(us, n - 1) {
          var j :| 0 <= j < n - 1 && us[j].0 != Placeholder && us[j].0 == key;
        }
      }
    }
  }

  /** The entry of a code is that of its last update: later updates overwrite earlier ones. */
  lemma {:induction false} FoldLastWins(us: seq<(string, Employee)>, n: nat, j: nat)
    requires n <= |us| && j < n && us[j].0 != Placeholder
    requires forall k :: j < k < n ==> us[k].0 != us[j].0
    ensures us[j].0 in Fold(us, n) && Fold(us, n)[us[j].0] == us[j].1
  {
    if j < n - 1 {
      FoldLastWins(us, n - 1, j);
    }
  }

  /** The directory has exactly one key per distinct kept code: no row is lost, none invented. */
  lemma DirectoryKeys(rows: seq<seq<string>>, n: nat, at: Positions)
    requires n <= |rows|
    ensures Directory(rows, n, at).Keys == KeptKeys(rows, n, at)
  {
    var us := Updates(rows, at);
    FoldKeysExact(us, n);
    forall key | key in KeptKeys(rows, n, at) ensures key in FoldKeys(us, n) {
      var j :| 0 <= j < n && RowKey(rows[j], at) != Placeholder && RowKey(rows[j], at) == key;
      assert us[j].0 == key;
    }
    forall key | key in FoldKeys(us, n) ensures key in KeptKeys(rows, n, at) {
      var j :| 0 <= j < n && us[j].0 != Placeholder && us[j].0 == key;
      assert RowKey(rows[j], at) == key;
    }
  }

  /**
   * Last row wins: the entry for a code is the one of the last row that
   * carries it. Duplicates are not an error.
   */
  lemma DirectoryLastRowWins(rows: seq<seq<string>>, n: nat, at: Positions, j: nat)
    requires n <= |rows| && j < n && RowKey(rows[j], at) != Placeholder
    requires forall k :: j < k < n ==> RowKey(rows[k], at) != RowKey(rows[j], at)
    ensures RowKey(rows[j], at) in Directory(rows, n, at)
    ensures Directory(rows, n, at)[RowKey(rows[j], at)] == RowEntry(rows[j], at)
  {
    var us := Updates(rows, at);
    FoldLastWins(us, n, j);
  }

  /** Every key is trimmed and is never the empty-cell text "nan". */
  lemma DirectoryKeysTrimmed(rows: seq<seq<string>>, n: nat, at: Positions, key: string)
    requires n <= |rows| && key in Directory(rows, n, at)
    ensures Strip(key) == key && key != Placeholder
  {
    DirectoryKeys(rows, n, at);
    var j :| 0 <= j < n && RowKey(rows[j], at) != Placeholder && RowKey(rows[j], at) == key;
    StripIdempotent(Cell(rows[j], at.id));
  }

  /** A whitespace-only code is not skipped: it becomes the key "". */
  lemma BlankCodeKept(rows: seq<seq<string>>, n: nat, at: Positions, j: nat)
    requires n <= |rows| && j < n
    requires forall k :: 0 <= k < |Cell(rows[j], at.id)| ==> IsSpace(Cell(rows[j], at.id)[k])
    requires forall k :: j < k < n ==> RowKey(rows[k], at) != ""
    ensures "" in Directory(rows, n, at) && Directory(rows, n, at)[""] == RowEntry(rows[j], at)
  {
    StripAllSpace(Cell(rows[j], at.id));
    DirectoryLastRowWins(rows, n, at, j);
  }

  /** Name and e-mail are stored as read, even when they are the empty-cell text "nan". */
  lemma PlaceholderValuesStored(rows: seq<seq<string>>, at: Positions)
    requires rows == [["PERC001", Placeholder, Placeholder]] && at == Positions(0, 1, 2)
    ensures Directory(rows, 1, at) == map["PERC001" := Employee(Placeholder, Placeholder)]
  {
    StripOfStripped("PERC001");
    StripOfStripped(Placeholder);
    assert RowKey(rows[0], at) == "PERC001";
    assert RowEntry(rows[0], at) == Employee(Placeholder, Placeholder);
    var us := Updates(rows, at);
    assert us[0] == ("PERC001", Employee(Placeholder, Placeholder));
    assert us[0].0[0] != Placeholder[0];
    assert Fold(us, 1) == map[][us[0].0 := us[0].1];
  }

  /** The load fails exactly when the sheet is absent or a required column is missing after stripping. */
  lemma LoadFails(workbook: map<string, Sheet>)
    ensures Load(workbook).Err? <==>
              SheetName !in workbook ||
              exists c :: c in RequiredColumns && c !in StripAll(workbook[SheetName].headers)
  {
    if SheetName in workbook {
      var columns := StripAll(workbook[SheetName].headers);
      var missing := Missing(RequiredColumns, columns);
      if missing != [] {
        assert missing[0] in RequiredColumns && missing[0] !in columns;
      }
    }
  }

  // ---------------------------------------------------------------- examples

  /** A header "NOM ET PERENOM " with a trailing space still counts as "NOM ET PERENOM". */
  lemma TrailingSpaceHeader(headers: seq<string>)
    requires headers == [IdColumn, NameColumn + " ", EmailColumn]
    ensures Missing(RequiredColumns, StripAll(headers)) == []
  {
    var columns := StripAll(headers);
    StripOfStripped(IdColumn);
    StripTrailingSpace(NameColumn);
    StripOfStripped(EmailColumn);
    assert columns == RequiredColumns;
    MissingNone(RequiredColumns, columns);
  }

  /** Of the required names, only "EMAIL" is missing from `[MATRICULE, NOM ET PERENOM]`. */
  lemma MissingFromIdAndName()
    ensures Missing(RequiredColumns, [IdColumn, NameColumn]) == [EmailColumn]
  {
    var columns := [IdColumn, NameColumn];
    assert EmailColumn !in columns by {
      assert EmailColumn[0] != IdColumn[0] && EmailColumn != NameColumn;
    }
    assert RequiredColumns[1..] == [NameColumn, EmailColumn];
    assert RequiredColumns[1..][1..] == [EmailColumn];
    assert [EmailColumn][1..] == [];
    assert Missing([EmailColumn], columns) == [EmailColumn];
  }

  /** A sheet without the "EMAIL" column is refused, naming that column only. */
  lemma MissingEmail(workbook: map<string, Sheet>)
    requires SheetName in workbook && workbook[SheetName].headers == [IdColumn, NameColumn]
    ensures Load(workbook) == Err(MissingColumns([EmailColumn]))
  {
    assert StripAll(workbook[SheetName].headers) == [IdColumn, NameColumn] by {
      StripOfStripped(IdColumn);
      StripOfStripped(NameColumn);
    }
    MissingFromIdAndName();
  }
}
