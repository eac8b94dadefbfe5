/** Applying the SSNIT mapping to payroll schedules: the row loop that
    overwrites a schedule's identity columns and collects the rows whose
    SSNIT the mapping lacks, the pass over a folder's schedules around it,
    and `process_dataframe`, which turns a schedule into the fixed output
    layout. */
module Annotation {
  import opened Text
  import opened Mapping
  import opened FileNames

  /** A schedule row: the columns the passes read or write, and every other
      column by name. */
  datatype ScheduleRow = ScheduleRow(
    ssnit: Option<string>, accountno: Option<string>, surname: Option<string>,
    firstName: Option<string>, otherName: Option<string>, salary: Option<string>,
    others: map<string, Option<string>>)

  /** A schedule workbook as read: its column names and its rows. */
  datatype Sheet = Sheet(columns: set<string>, rows: seq<ScheduleRow>)

  /** An entry of the unmapped list: `{'file', 'ssnit', 'row'}`, where `row`
      is the row's 0-based index plus one. */
  datatype UnmappedRecord = UnmappedRecord(file: string, ssnit: string, row: nat)

  /** The row after the `ssnit` column has been normalised. The source writes
      `.str.strip().upper()`, which raises AttributeError on a pandas Series;
      the model follows the evident intent, as for the mapping keys. */
  function Normalized(r: ScheduleRow): ScheduleRow {
    r.(ssnit := Some(Key(r.ssnit)))
  }

  /** The row loop overwrites this row: its key is not 'NAN', 'NONE' or '',
      and its mapping entry has a non-empty account number. */
  predicate Updates(r: ScheduleRow, mapping: SsnitMap) {
    var k := Key(r.ssnit);
    ValidKey(k) && k in mapping && mapping[k].accountno != ""
  }

  /** The row loop reports this row as unmapped. */
  predicate IsUnmapped(r: ScheduleRow, mapping: SsnitMap) {
    var k := Key(r.ssnit);
    ValidKey(k) && k !in mapping
  }

  /** A row as the row loop leaves it. */
  function Annotated(r: ScheduleRow, mapping: SsnitMap): ScheduleRow {
    var n := Normalized(r);
    if Updates(r, mapping) then
      var e := mapping[Key(r.ssnit)];
      n.(accountno := Some(e.accountno), surname := Some(e.surname),
         firstName := Some(e.firstName), otherName := Some(e.otherName))
    else n
  }

  function AnnotateRows(rows: seq<ScheduleRow>, mapping: SsnitMap): (r: seq<ScheduleRow>)
    ensures |r| == |rows|
    ensures forall i :: 0 <= i < |rows| ==> r[i] == Annotated(rows[i], mapping)
  {
    seq(|rows|, i requires 0 <= i < |rows| => Annotated(rows[i], mapping))
  }

  /** The unmapped list the row loop builds for the file `file`. */
  function UnmappedRecords(file: string, rows: seq<ScheduleRow>, mapping: SsnitMap): seq<UnmappedRecord>
    decreases |rows|
  {
    if rows == [] then []
    else
      UnmappedRecords(file, rows[..|rows| - 1], mapping) + UnmappedTail(file, rows, mapping)
  }

  /** What the last row adds to the unmapped list. */
  function UnmappedTail(file: string, rows: seq<ScheduleRow>, mapping: SsnitMap): seq<UnmappedRecord>
    requires rows != []
  {
    var last := rows[|rows| - 1];
    if IsUnmapped(last, mapping) then [UnmappedRecord(file, Key(last.ssnit), |rows|)] else []
  }

  predicate AnyUpdate(rows: seq<ScheduleRow>, mapping: SsnitMap) {
    exists i :: 0 <= i < |rows| && Updates(rows[i], mapping)
  }

  /** Replaces every row's `ssnit` cell by its text, stripped and
      upper-cased, in place. */
  method NormalizeSsnitColumn(df: array<ScheduleRow>)
    modifies df
    ensures forall j :: 0 <= j < df.Length ==> df[j] == Normalized(old(df[j]))
  {
    var i := 0;
    while i < df.Length
      invariant 0 <= i <= df.Length
      invariant forall j :: 0 <= j < i ==> df[j] == Normalized(old(df[j]))
      invariant forall j :: i <= j < df.Length ==> df[j] == old(df[j])
    {
      df[i] := df[i].(ssnit := Some(Key(df[i].ssnit)));
      i := i + 1;
    }
  }

  lemma UnmappedRecordsSnoc(file: string, rows: seq<ScheduleRow>, mapping: SsnitMap, idx: int)
    requires 0 <= idx < |rows|
    ensures UnmappedRecords(file, rows[..idx + 1], mapping) ==
      UnmappedRecords(file, rows[..idx], mapping)
        + (if IsUnmapped(rows[idx], mapping) then [UnmappedRecord(file, Key(rows[idx].ssnit), idx + 1)] else [])
  {
    assert rows[..idx + 1][..idx] == rows[..idx];
  }

  /** One visit of the row loop, in terms of the row as read. */
  lemma RowStep(r: ScheduleRow, mapping: SsnitMap)
    ensures CellText(Normalized(r).ssnit) == Key(r.ssnit)
    ensures Updates(r, mapping) <==>
      (var k := Key(r.ssnit); k != "NAN" && k != "NONE" && k != "" && k in mapping && mapping[k].accountno != "")
    ensures IsUnmapped(r, mapping) <==>
      (var k := Key(r.ssnit); k != "NAN" && k != "NONE" && k != "" && k !in mapping)
    ensures Updates(r, mapping) ==>
      var e := mapping[Key(r.ssnit)];
      Annotated(r, mapping) == Normalized(r).(accountno := Some(e.accountno), surname := Some(e.surname),
                                               firstName := Some(e.firstName), otherName := Some(e.otherName))
    ensures !Updates(r, mapping) ==> Annotated(r, mapping) == Normalized(r)
  {
  }

  /** The body of `process_schedule_files` for one schedule: normalise the
      `ssnit` column, then visit the rows in order, overwriting the four
      identity columns of each row the mapping covers with an account
      number and listing each row whose SSNIT it lacks. */
  method AnnotateSheet(file: string, df: array<ScheduleRow>, mapping: SsnitMap)
    returns (changesMade: bool, fileUnmapped: seq<UnmappedRecord>)
    modifies df
    ensures df[..] == AnnotateRows(old(df[..]), mapping)
    ensures changesMade <==> AnyUpdate(old(df[..]), mapping)
    ensures fileUnmapped == UnmappedRecords(file, old(df[..]), mapping)
  {
    ghost var original := df[..];
    ghost var target := AnnotateRows(original, mapping);
    NormalizeSsnitColumn(df);
    changesMade := false;
    fileUnmapped := [];
    var idx := 0;
    while idx < df.Length
      invariant 0 <= idx <= df.Length
      invariant forall j :: 0 <= j < idx ==> df[j] == target[j]
      invariant forall j :: idx <= j < df.Length ==> df[j] == Normalized(original[j])
      invariant changesMade <==> exists j :: 0 <= j < idx && Updates(original[j], mapping)
      invariant fileUnmapped == UnmappedRecords(file, original[..idx], mapping)
    {
      label Visit:
      var ssnit := CellText(df[idx].ssnit);
      RowStep(original[idx], mapping);
      ghost var before := changesMade;
      if ssnit != "NAN" && ssnit != "NONE" && ssnit != "" {
        if ssnit in mapping {
          var data := mapping[ssnit];
          if data.accountno != "" {
            df[idx] := df[idx].(accountno := Some(data.accountno), surname := Some(data.surname),
                                firstName := Some(data.firstName), otherName := Some(data.otherName));
            changesMade := true;
          }
        } else {
          fileUnmapped := fileUnmapped + [UnmappedRecord(file, ssnit, idx + 1)];
        }
      }
      assert df[idx] == target[idx];
      assert forall j :: 0 <= j < df.Length && j != idx ==> df[j] == old@Visit(df[j]);
      assert changesMade == (before || Updates(original[idx], mapping));
      UnmappedRecordsSnoc(file, original, mapping, idx);
      idx := idx + 1;
    }
    assert original[..idx] == original;
    assert df[..] == target;
  }

  // ---------------------------------------------------------------------
  // One row, one schedule

  /** Only the identity columns of a row change: `ssnit` is normalised; the
      four identity columns take the mapping entry's values exactly when the
      entry has an account number; salary and every other column stay. */
  lemma AnnotatedColumns(r: ScheduleRow, mapping: SsnitMap)
    ensures var a := Annotated(r, mapping);
      && a.ssnit == Some(Key(r.ssnit))
      && a.salary == r.salary && a.others == r.others
      && (Updates(r, mapping) ==>
            var e := mapping[Key(r.ssnit)];
            && a.accountno == Some(e.accountno) && a.surname == Some(e.surname)
            && a.firstName == Some(e.firstName) && a.otherName == Some(e.otherName))
      && (!Updates(r, mapping) ==> a == r.(ssnit := Some(Key(r.ssnit))))
  {
  }

  /** A row whose mapping entry has no account number keeps its identity
      columns, and it is not reported as unmapped either. */
  lemma EmptyAccountRowKept(r: ScheduleRow, mapping: SsnitMap)
    requires Key(r.ssnit) in mapping && mapping[Key(r.ssnit)].accountno == ""
    ensures Annotated(r, mapping) == Normalized(r)
    ensures !IsUnmapped(r, mapping)
  {
  }

  /** `rec` names the file, and the position plus one of an unmapped row
      of `rows` carrying the record's SSNIT. */
  predicate RecordOf(file: string, rows: seq<ScheduleRow>, mapping: SsnitMap, rec: UnmappedRecord) {
    && rec.file == file && 1 <= rec.row <= |rows|
    && rec.ssnit == Key(rows[rec.row - 1].ssnit)
    && IsUnmapped(rows[rec.row - 1], mapping)
  }

  lemma RecordOfPrefix(file: string, rows: seq<ScheduleRow>, mapping: SsnitMap, rec: UnmappedRecord)
    requires rows != [] && RecordOf(file, rows[..|rows| - 1], mapping, rec)
    ensures RecordOf(file, rows, mapping, rec)
  {
    assert rows[..|rows| - 1][rec.row - 1] == rows[rec.row - 1];
  }

  /** Every record of the unmapped list stands for an unmapped row. */
  lemma {:induction false} UnmappedRecordsSound(file: string, rows: seq<ScheduleRow>, mapping: SsnitMap)
    ensures forall rec :: rec in UnmappedRecords(file, rows, mapping) ==> RecordOf(file, rows, mapping, rec)
    decreases |rows|
  {
    if rows != [] {
      var pre := rows[..|rows| - 1];
      UnmappedRecordsSound(file, pre, mapping);
      forall rec | rec in UnmappedRecords(file, pre, mapping)
        ensures RecordOf(file, rows, mapping, rec)
      {
        RecordOfPrefix(file, rows, mapping, rec);
      }
    }
  }

  predicate RowsIncreasing(recs: seq<UnmappedRecord>) {
    forall j, l :: 0 <= j < l < |recs| ==> recs[j].row < recs[l].row
  }

  /** The unmapped list is in row order, one record per row. */
  lemma {:induction false} UnmappedRecordsOrdered(file: string, rows: seq<ScheduleRow>, mapping: SsnitMap)
    ensures RowsIncreasing(UnmappedRecords(file, rows, mapping))
    decreases |rows|
  {
    if rows != [] {
      var pre := rows[..|rows| - 1];
      UnmappedRecordsOrdered(file, pre, mapping);
      UnmappedRecordsSound(file, pre, mapping);
      var recs := UnmappedRecords(file, rows, mapping);
      var earlier := UnmappedRecords(file, pre, mapping);
      assert recs == earlier + UnmappedTail(file, rows, mapping);
      forall j, l | 0 <= j < l < |recs|
        ensures recs[j].row < recs[l].row
      {
        assert recs[j] == earlier[j];
        assert RecordOf(file, pre, mapping, earlier[j]);
        if l < |earlier| {
          assert recs[l] == earlier[l];
          assert earlier[j].row < earlier[l].row;
        } else {
          assert recs[l] == UnmappedTail(file, rows, mapping)[l - |earlier|];
          assert recs[l].row == |rows|;
          assert earlier[j].row <= |pre|;
        }
      }
    }
  }

  /** Every unmapped row has its record. */
  lemma UnmappedRecordsComplete(file: string, rows: seq<ScheduleRow>, mapping: SsnitMap)
    ensures forall i :: 0 <= i < |rows| && IsUnmapped(rows[i], mapping) ==>
      UnmappedRecord(file, Key(rows[i].ssnit), i + 1) in UnmappedRecords(file, rows, mapping)
  {
    forall i | 0 <= i < |rows| && IsUnmapped(rows[i], mapping)
      ensures UnmappedRecord(file, Key(rows[i].ssnit), i + 1) in UnmappedRecords(file, rows, mapping)
    {
      UnmappedRecordAt(file, rows, mapping, i);
    }
  }

  lemma {:induction false} UnmappedRecordAt(file: string, rows: seq<ScheduleRow>, mapping: SsnitMap, i: int)
    requires 0 <= i < |rows| && IsUnmapped(rows[i], mapping)
    ensures UnmappedRecord(file, Key(rows[i].ssnit), i + 1) in UnmappedRecords(file, rows, mapping)
    decreases |rows|
  {
    var pre := rows[..|rows| - 1];
    var rec := UnmappedRecord(file, Key(rows[i].ssnit), i + 1);
    var earlier, tail := UnmappedRecords(file, pre, mapping), UnmappedTail(file, rows, mapping);
    assert UnmappedRecords(file, rows, mapping) == earlier + tail;
    if i < |pre| {
      assert pre[i] == rows[i];
      UnmappedRecordAt(file, pre, mapping, i);
      assert rec in earlier;
    } else {
      assert rows[|rows| - 1] == rows[i];
      assert tail == [rec];
    }
  }

  /** With the mapping built from a lookup table and a master report, a
      schedule row is reported as unmapped exactly when neither source has a
      row with its normalised SSNIT. */
  lemma UnmappedIffNoSourceRow(r: ScheduleRow, lookup: seq<LookupRow>, master: seq<MasterRow>)
    requires ValidKey(Key(r.ssnit))
    ensures IsUnmapped(r, ComprehensiveMapping(lookup, master)) <==>
      && (forall i :: 0 <= i < |lookup| ==> Key(lookup[i].ssnit) != Key(r.ssnit))
      && (forall i :: 0 <= i < |master| ==> Key(master[i].ssnit) != Key(r.ssnit))
  {
    MappingKeySet(lookup, master);
  }

  // ---------------------------------------------------------------------
  // The pass over a folder's schedules

  /** A workbook found under the folder: its name, its content (`None` when
      reading it raises), and whether writing it back succeeds. */
  datatype ScheduleFile = ScheduleFile(name: string, sheet: Option<Sheet>, saveSucceeds: bool)

  /** What one file adds to the results: whether it lands in the modified
      list, the rows written back, and its unmapped records. A file that
      raises while being read or written adds nothing. */
  datatype FileResult = FileResult(modified: bool, saved: seq<ScheduleRow>, unmapped: seq<UnmappedRecord>)

  function ProcessFile(f: ScheduleFile, mapping: SsnitMap): FileResult {
    if !IsScheduleFile(f.name) || f.sheet.None? || "ssnit" !in f.sheet.value.columns then
      FileResult(false, [], [])
    else
      var rows := f.sheet.value.rows;
      var changes := AnyUpdate(rows, mapping);
      if changes && !f.saveSucceeds then FileResult(false, [], [])
      else FileResult(changes, if changes then AnnotateRows(rows, mapping) else [],
                      UnmappedRecords(f.name, rows, mapping))
  }

  /** The pass's results: `modified_files`, the contents written to them,
      and `unmapped_records`. */
  datatype Results = Results(modifiedFiles: seq<string>, saved: seq<seq<ScheduleRow>>, unmapped: seq<UnmappedRecord>)

  /** The results of a pass whose files have the outcomes `outcome`
      gives, gathered in file order. */
  function Gather(files: seq<ScheduleFile>, outcome: ScheduleFile -> FileResult): Results
    decreases |files|
  {
    if files == [] then Results([], [], [])
    else
      var acc := Gather(files[..|files| - 1], outcome);
      var f := files[|files| - 1];
      var res := outcome(f);
      Results(acc.modifiedFiles + (if res.modified then [f.name] else []),
              acc.saved + (if res.modified then [res.saved] else []),
              acc.unmapped + res.unmapped)
  }

  function ProcessFiles(files: seq<ScheduleFile>, mapping: SsnitMap): Results {
    Gather(files, f => ProcessFile(f, mapping))
  }

  /** `process_schedule_files` over the workbooks `os.walk` yields. */
  method ProcessScheduleFiles(files: seq<ScheduleFile>, mapping: SsnitMap)
    returns (modifiedFiles: seq<string>, saved: seq<seq<ScheduleRow>>, unmappedRecords: seq<UnmappedRecord>)
    ensures Results(modifiedFiles, saved, unmappedRecords) == ProcessFiles(files, mapping)
  {
    modifiedFiles, saved, unmappedRecords := [], [], [];
    var n := 0;
    while n < |files|
      invariant 0 <= n <= |files|
      invariant Results(modifiedFiles, saved, unmappedRecords) == ProcessFiles(files[..n], mapping)
    {
      var file := files[n];
      assert files[..n + 1][..n] == files[..n];
      if IsScheduleFile(file.name) && file.sheet.Some? && "ssnit" in file.sheet.value.columns {
        var rows := file.sheet.value.rows;
        var df := new ScheduleRow[|rows|](i requires 0 <= i < |rows| => rows[i]);
        assert df[..] == rows;
        var changesMade, fileUnmapped := AnnotateSheet(file.name, df, mapping);
        if changesMade {
          if file.saveSucceeds {
            modifiedFiles := modifiedFiles + [file.name];
            saved := saved + [df[..]];
            unmappedRecords := unmappedRecords + fileUnmapped;
          }
        } else {
          unmappedRecords := unmappedRecords + fileUnmapped;
        }
      }
      n := n + 1;
    }
    assert files[..n] == files;
  }

  /** A file lands in the modified list exactly when it is a schedule file,
      can be read, has an `ssnit` column, has a row the mapping updates,
      and can be written back; one written sheet goes with each name. */
  lemma ModifiedFilesSpec(files: seq<ScheduleFile>, mapping: SsnitMap)
    ensures var res := ProcessFiles(files, mapping);
      && |res.saved| == |res.modifiedFiles|
      && forall name :: name in res.modifiedFiles <==>
           exists i :: 0 <= i < |files| && files[i].name == name && ProcessFile(files[i], mapping).modified
  {
    GatherModified(files, f => ProcessFile(f, mapping));
  }

  /** `GatherModified` for any outcomes. */
  lemma {:induction false} GatherModified(files: seq<ScheduleFile>, outcome: ScheduleFile -> FileResult)
    ensures var res := Gather(files, outcome);
      && |res.saved| == |res.modifiedFiles|
      && forall name :: name in res.modifiedFiles <==>
           exists i :: 0 <= i < |files| && files[i].name == name && outcome(files[i]).modified
    decreases |files|
  {
    if files != [] {
      var pre := files[..|files| - 1];
      GatherModified(pre, outcome);
      assert forall i :: 0 <= i < |pre| ==> pre[i] == files[i];
    }
  }

  /** Only schedule files are modified or reported. */
  lemma {:induction false} ResultsFromScheduleFiles(files: seq<ScheduleFile>, mapping: SsnitMap)
    ensures var res := ProcessFiles(files, mapping);
      && (forall name :: name in res.modifiedFiles ==> IsScheduleFile(name))
      && (forall r :: r in res.unmapped ==> IsScheduleFile(r.file))
    decreases |files|
  {
    if files != [] {
      var pre := files[..|files| - 1];
      ResultsFromScheduleFiles(pre, mapping);
      UnmappedRecordsFile(files[|files| - 1], mapping);
      assert ProcessFiles(files, mapping) == Gather(files, f => ProcessFile(f, mapping));
      assert ProcessFiles(pre, mapping) == Gather(pre, f => ProcessFile(f, mapping));
    }
  }

  lemma UnmappedRecordsFile(f: ScheduleFile, mapping: SsnitMap)
    ensures forall r :: r in ProcessFile(f, mapping).unmapped ==> r.file == f.name && IsScheduleFile(f.name)
  {
    if IsScheduleFile(f.name) && f.sheet.Some? && "ssnit" in f.sheet.value.columns {
      UnmappedRecordsSound(f.name, f.sheet.value.rows, mapping);
    }
  }

  // ---------------------------------------------------------------------
  // process_dataframe

  /** The output layout, in this order. */
  const OutputColumns: seq<string> := ["accountno", "surname", "first_name", "other_name", "ssnit", "tier1", "tier2"]

  /** An output row. `tier2` is five percent of the number `pd.to_numeric`
      reads from `salaryText`; the floating-point parse and product are not
      part of this model, so the row carries the text. */
  datatype OutRow = OutRow(
    accountno: string, surname: string, firstName: string, otherName: string,
    ssnit: string, tier1: int, salaryText: string)

  datatype Table = Table(columns: seq<string>, rows: seq<OutRow>)

  /** A missing column raises KeyError; the model names the column. */
  datatype Outcome = Ok(table: Table) | MissingColumn(column: string)

  /** The salary text after removing thousands separators and stripping. */
  function SalaryText(c: Option<string>): string {
    Trim(RemoveChar(CellText(c), ','))
  }

  /** An output row: the entry's four identity fields when the key is
      mapped, otherwise `#N/A` as the account number and empty names; the
      key itself, a zero `tier1` and the row's cleaned salary text. */
  function OutputRow(mapping: SsnitMap, key: string, salary: Option<string>): OutRow {
    if key in mapping then
      var e := mapping[key];
      OutRow(e.accountno, e.surname, e.firstName, e.otherName, key, 0, SalaryText(salary))
    else OutRow("#N/A", "", "", "", key, 0, SalaryText(salary))
  }

  /** `process_dataframe` with the schedule's `ssnit` cell turned into a
      lookup key by `key`: a missing `ssnit` or `salary` column raises, and
      otherwise each row is looked up in the mapping. */
  function ProcessDataframeBy(sheet: Sheet, mapping: SsnitMap, key: Option<string> -> string): Outcome {
    if "ssnit" !in sheet.columns then MissingColumn("ssnit")
    else if "salary" !in sheet.columns then MissingColumn("salary")
    else Ok(Table(OutputColumns,
      seq(|sheet.rows|, i requires 0 <= i < |sheet.rows| =>
        OutputRow(mapping, key(sheet.rows[i].ssnit), sheet.rows[i].salary))))
  }

  /** `astype(str).str.strip()` on the `ssnit` column, without upper-casing. */
  function StrippedSsnit(c: Option<string>): string {
    Trim(CellText(c))
  }

  /** `process_dataframe` as written: the schedule's `ssnit` is stripped
      but not upper-cased before it is looked up. */
  function ProcessDataframe(sheet: Sheet, lookup: seq<LookupRow>, master: seq<MasterRow>): Outcome {
    ProcessDataframeBy(sheet, ComprehensiveMapping(lookup, master), StrippedSsnit)
  }

  /** `process_dataframe` with the schedule's `ssnit` normalised the way the
      mapping's keys are. */
  function ProcessDataframeNormalized(sheet: Sheet, lookup: seq<LookupRow>, master: seq<MasterRow>): Outcome {
    ProcessDataframeBy(sheet, ComprehensiveMapping(lookup, master), Key)
  }

  /** The output has the fixed columns, one row per input row and `tier1`
      zero throughout; a missing `ssnit` column is reported before a missing
      `salary` column. */
  predicate OutputShape(sheet: Sheet, out: Outcome) {
    && ("ssnit" !in sheet.columns ==> out == MissingColumn("ssnit"))
    && ("ssnit" in sheet.columns && "salary" !in sheet.columns ==> out == MissingColumn("salary"))
    && ("ssnit" in sheet.columns && "salary" in sheet.columns ==>
          && out.Ok?
          && out.table.columns == ["accountno", "surname", "first_name", "other_name", "ssnit", "tier1", "tier2"]
          && |out.table.rows| == |sheet.rows|
          && forall i :: 0 <= i < |sheet.rows| ==> out.table.rows[i].tier1 == 0)
  }

  /** An output row for lookup key `k`: a key the mapping lacks gets account
      number '#N/A' and empty names, a mapped one its entry's four fields. */
  predicate RowFor(mapping: SsnitMap, k: string, salary: Option<string>, row: OutRow) {
    && row.ssnit == k
    && row.tier1 == 0
    && row.salaryText == SalaryText(salary)
    && (k !in mapping ==> row.accountno == "#N/A" && row.surname == "" && row.firstName == "" && row.otherName == "")
    && (k in mapping ==>
          && row.accountno == mapping[k].accountno && row.surname == mapping[k].surname
          && row.firstName == mapping[k].firstName && row.otherName == mapping[k].otherName)
  }

  lemma ShapeBy(sheet: Sheet, mapping: SsnitMap, key: Option<string> -> string)
    ensures OutputShape(sheet, ProcessDataframeBy(sheet, mapping, key))
  {
    if "ssnit" in sheet.columns && "salary" in sheet.columns {
      var rows := ProcessDataframeBy(sheet, mapping, key).table.rows;
      forall i | 0 <= i < |sheet.rows| ensures rows[i].tier1 == 0 {
        RowBy(sheet, mapping, key, i);
      }
    }
  }

  lemma RowBy(sheet: Sheet, mapping: SsnitMap, key: Option<string> -> string, i: int)
    requires "ssnit" in sheet.columns && "salary" in sheet.columns
    requires 0 <= i < |sheet.rows|
    ensures ProcessDataframeBy(sheet, mapping, key).Ok?
    ensures |ProcessDataframeBy(sheet, mapping, key).table.rows| == |sheet.rows|
    ensures RowFor(mapping, key(sheet.rows[i].ssnit), sheet.rows[i].salary, ProcessDataframeBy(sheet, mapping, key).table.rows[i])
  {
  }

  /** Both the function as written and the corrected one have the fixed
      output shape. */
  lemma ProcessDataframeShape(sheet: Sheet, lookup: seq<LookupRow>, master: seq<MasterRow>)
    ensures OutputShape(sheet, ProcessDataframe(sheet, lookup, master))
    ensures OutputShape(sheet, ProcessDataframeNormalized(sheet, lookup, master))
  {
    ShapeBy(sheet, ComprehensiveMapping(lookup, master), StrippedSsnit);
    ShapeBy(sheet, ComprehensiveMapping(lookup, master), Key);
  }

  /** Each output row of the function as written is looked up under the
      stripped SSNIT; each of the corrected one under the normalised SSNIT. */
  lemma ProcessDataframeRow(sheet: Sheet, lookup: seq<LookupRow>, master: seq<MasterRow>, i: int)
    requires "ssnit" in sheet.columns && "salary" in sheet.columns
    requires 0 <= i < |sheet.rows|
    ensures RowFor(ComprehensiveMapping(lookup, master), StrippedSsnit(sheet.rows[i].ssnit), sheet.rows[i].salary,
                   ProcessDataframe(sheet, lookup, master).table.rows[i])
    ensures RowFor(ComprehensiveMapping(lookup, master), Key(sheet.rows[i].ssnit), sheet.rows[i].salary,
                   ProcessDataframeNormalized(sheet, lookup, master).table.rows[i])
  {
    RowBy(sheet, ComprehensiveMapping(lookup, master), StrippedSsnit, i);
    RowBy(sheet, ComprehensiveMapping(lookup, master), Key, i);
  }

  /** The normalised lookup agrees with the schedule annotation: a row the
      row loop updates gets the same identity values in both, and a row it
      reports as unmapped gets '#N/A'. */
  lemma ProcessDataframeAgreesWithAnnotation(sheet: Sheet, lookup: seq<LookupRow>, master: seq<MasterRow>, i: int)
    requires "ssnit" in sheet.columns && "salary" in sheet.columns
    requires 0 <= i < |sheet.rows|
    ensures var mapping := ComprehensiveMapping(lookup, master);
      var row := ProcessDataframeNormalized(sheet, lookup, master).table.rows[i];
      var a := Annotated(sheet.rows[i], mapping);
      && (Updates(sheet.rows[i], mapping) ==>
            && Some(row.accountno) == a.accountno && Some(row.surname) == a.surname
            && Some(row.firstName) == a.firstName && Some(row.otherName) == a.otherName)
      && (IsUnmapped(sheet.rows[i], mapping) ==> row.accountno == "#N/A")
  {
    ProcessDataframeRow(sheet, lookup, master, i);
  }

  /** As written, a schedule SSNIT in lower case is never found, although the
      mapping holds it in upper case: here the lookup table maps 'p1' to
      account 'A1' and the output still reads '#N/A'. */
  lemma LowercaseSsnitMissed()
    ensures var lookup := [LookupRow(Some("p1"), Some("A1"), None, None, None)];
      var sheet := Sheet({"ssnit", "salary"}, [ScheduleRow(Some("p1"), None, None, None, None, None, map[])]);
      && "P1" in ComprehensiveMapping(lookup, [])
      && ComprehensiveMapping(lookup, [])["P1"].accountno == "A1"
      && ProcessDataframe(sheet, lookup, []).table.rows[0].accountno == "#N/A"
      && ProcessDataframeNormalized(sheet, lookup, []).table.rows[0].accountno == "A1"
  {
    var lookup := [LookupRow(Some("p1"), Some("A1"), None, None, None)];
    var sheet := Sheet({"ssnit", "salary"}, [ScheduleRow(Some("p1"), None, None, None, None, None, map[])]);
    ProcessDataframeRow(sheet, lookup, [], 0);
    TrimStripped("p1");
    TrimStripped("A1");
    assert Key(Some("p1")) == "P1";
    LookupRowWins(lookup, [], 0);
    MappingKeySet(lookup, []);
    assert "p1" !in LookupKeys(lookup);
  }

  /** With the normalisation, every schedule row whose SSNIT the lookup table
      supplies gets the lookup table's account number when it has one. */
  lemma NormalizedFindsLookupRows(sheet: Sheet, lookup: seq<LookupRow>, master: seq<MasterRow>, i: int, j: int)
    requires "ssnit" in sheet.columns && "salary" in sheet.columns
    requires 0 <= i < |sheet.rows|
    requires 0 <= j < |lookup| && ValidKey(Key(lookup[j].ssnit))
    requires forall n :: j < n < |lookup| ==> Key(lookup[n].ssnit) != Key(lookup[j].ssnit)
    requires Key(sheet.rows[i].ssnit) == Key(lookup[j].ssnit)
    requires FieldText(lookup[j].accountno) != ""
    ensures ProcessDataframeNormalized(sheet, lookup, master).table.rows[i].accountno == FieldText(lookup[j].accountno)
  {
    LookupRowWins(lookup, master, j);
    ProcessDataframeRow(sheet, lookup, master, i);
  }
}
