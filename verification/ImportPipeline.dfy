/** From the text of a CSV file to the import preview (frontend/app/admin/vehicles/page.tsx). */
module ImportPipeline {
  import opened JsText
  import opened Csv
  import opened CsvTheorems
  import opened ImportPreview

  // ---------------------------------------------------------------------------
  // The columns of a table, read by name
  // ---------------------------------------------------------------------------

  /** The last of the first n columns with this header; n itself if there is none. */
  function ColumnOf(headers: Row, n: nat, name: string): (i: nat)
    requires n <= |headers|
    ensures i < n ==> LastColumn(headers, n, name, i)
    ensures i < n <==> name in headers[..n]
    ensures i <= |headers|
  {
    if n == 0 then |headers|
    else
      assert headers[..n] == headers[..n - 1] + [headers[n - 1]];
      if headers[n - 1] == name then n - 1
      else
        var i := ColumnOf(headers, n - 1, name);
        if i < n - 1 then i else |headers|
  }

  /** The cell of a data row below the mapped header, as the parser returns it. */
  function TableCell(headers: Row, raw: Row, mapping: Mapping, column: Column): string {
    if column in mapping && mapping[column] != "" && mapping[column] in headers then
      var i := ColumnOf(headers, |headers|, mapping[column]);
      if i < |raw| then raw[i] else ""
    else ""
  }

  function DataRows(table: seq<Row>): nat {
    if table == [] then 0 else |table| - 1
  }

  /** A mapped column of a table: the first row names the columns, the other rows are data. */
  function TableColumn(table: seq<Row>, mapping: Mapping, column: Column): seq<string> {
    seq(DataRows(table), i requires 0 <= i < DataRows(table) => TableCell(table[0], table[i + 1], mapping, column))
  }

  lemma TrimmedIsFixed(s: string)
    requires Trimmed(s)
    ensures Trim(s) == s
  {
    TrimIsCore("", s, "");
    assert "" + s + "" == s;
  }

  /** On clean rows, looking a field up in the row object and trimming it again is reading the column. */
  lemma FieldIsTableCell(o: RowObject, headers: Row, raw: Row, mapping: Mapping, column: Column)
    requires Reads(o, headers, |headers|, raw) && TrimmedRow(raw)
    ensures Field(o, mapping, column) == TableCell(headers, raw, mapping, column)
  {
    assert headers[..|headers|] == headers;
    if Mapped(mapping, column) && mapping[column] in headers {
      var i := ColumnOf(headers, |headers|, mapping[column]);
      assert LastColumn(headers, |headers|, mapping[column], i);
      TrimmedIsFixed(if i < |raw| then raw[i] else "");
    }
  }

  /** One object for each data row of the table, read under the header row. */
  ghost predicate ObjectsOf(objects: seq<RowObject>, table: seq<Row>) {
    && |objects| == DataRows(table)
    && forall r | 0 <= r < |objects| :: Reads(objects[r], table[0], |table[0]|, table[r + 1])
  }

  lemma FieldsAreColumn(objects: seq<RowObject>, table: seq<Row>, mapping: Mapping, column: Column)
    requires Clean(table) && ObjectsOf(objects, table)
    ensures Fields(objects, mapping, column) == TableColumn(table, mapping, column)
  {
    forall r | 0 <= r < |objects| ensures Fields(objects, mapping, column)[r] == TableColumn(table, mapping, column)[r] {
      FieldIsTableCell(objects[r], table[0], table[r + 1], mapping, column);
    }
  }

  // ---------------------------------------------------------------------------
  // The document behind a text
  // ---------------------------------------------------------------------------

  /** The document a text stands for: it prints to the text, its open quote closed at the end. */
  ghost predicate StandsFor(text: string, d: Document) {
    ProperDocument(d) && Print(d) == if Balanced(text) then text else text + "\""
  }

  lemma DocumentOf(text: string) returns (d: Document)
    ensures StandsFor(text, d) && Rows(text) == Table(d) && Clean(Table(d))
  {
    ParserMeaning(text);
    OutputIsClean(text);
    var closed := if Balanced(text) then text else text + "\"";
    d :| ProperDocument(d) && Print(d) == closed && Rows(text) == Table(d);
  }

  /** A text has one meaning: all documents that print to it have the same table. */
  lemma MeaningIsUnique(text: string, d: Document)
    requires StandsFor(text, d)
    ensures Table(d) == Rows(text)
  {
    ParseOfPrint(d);
    if !Balanced(text) {
      CloseAtEnd(text);
    }
  }

  /** What the parser returns for any text: the first row of its document as the headers, the other
      rows as the data, and nothing at all if there is no row. */
  method ReadCsv(content: string) returns (parsed: ParsedCsv)
    ensures exists d :: StandsFor(content, d)
    ensures forall d :: StandsFor(content, d) ==>
      if Table(d) == [] then parsed.headers == [] && parsed.rows == []
      else parsed.headers == Table(d)[0] && parsed.rows == Table(d)[1..]
    ensures forall d :: StandsFor(content, d) ==> Clean(Table(d))
  {
    parsed := ParseCsv(content);
    ghost var d0 := DocumentOf(content);
    forall d | StandsFor(content, d) ensures Table(d) == Rows(content) {
      MeaningIsUnique(content, d);
    }
  }

  /** The columns matched against the header row of a document. */
  function MappingOf(d: Document, autoMap: Row -> Mapping): Mapping {
    autoMap(if Table(d) == [] then [] else Table(d)[0])
  }

  // ---------------------------------------------------------------------------
  // Vehicles
  // ---------------------------------------------------------------------------

  /** value || default, on strings. */
  function Default(value: string, default: string): string {
    if value == "" then default else value
  }

  /** The column was matched to a header. */
  predicate Found(mapping: Mapping, column: Column) {
    column in mapping && mapping[column] != ""
  }

  /** The value is present and occurs, up to case, in an earlier row. */
  ghost predicate Again(values: seq<string>, lower: string -> string, i: nat)
    requires i < |values|
  {
    values[i] != "" && exists j | 0 <= j < i :: values[j] != "" && lower(values[j]) == lower(values[i])
  }

  lemma AgainIsRepeats(values: seq<string>, lower: string -> string, i: nat)
    requires i < |values|
    ensures Again(values, lower, i) <==> Repeats(values, lower, i)
  {}

  /** The issue a vehicle file deserves, in terms of the columns of its document. */
  ghost predicate VehicleIssueHolds(x: Issue, table: seq<Row>, mapping: Mapping, lower: string -> string) {
    var units, vins := TableColumn(table, mapping, UnitNumber), TableColumn(table, mapping, Vin);
    match x.row
    case WholeFile => x == Issue(Error, ColumnMapping, WholeFile) && !Found(mapping, UnitNumber)
    case AtRow(i) =>
      i < |units|
      && (|| (x == Issue(Error, RequiredFields, AtRow(i)) && units[i] == "")
          || (x == Issue(Error, DuplicateValues, AtRow(i)) && Again(units, lower, i))
          || (x == Issue(Warning, DataCompleteness, AtRow(i)) && vins[i] == ""))
  }

  /** The preview rows show the columns, data row by data row. */
  ghost predicate VehicleRowsShow(table: seq<Row>, mapping: Mapping, previewRows: seq<VehiclePreviewRow>) {
    && |previewRows| == DataRows(table)
    && forall i | 0 <= i < |previewRows| ::
         && previewRows[i].unitNumber == TableColumn(table, mapping, UnitNumber)[i]
         && previewRows[i].vin == TableColumn(table, mapping, Vin)[i]
         && previewRows[i].providerVehicleId == TableColumn(table, mapping, ProviderVehicleId)[i]
         && previewRows[i].isActive == Default(TableColumn(table, mapping, IsActive)[i], "true")
  }

  ghost predicate VehicleErrorFree(table: seq<Row>, mapping: Mapping, lower: string -> string) {
    var units := TableColumn(table, mapping, UnitNumber);
    && Found(mapping, UnitNumber) && (forall i | 0 <= i < |units| :: units[i] != "")
    && forall i, j | 0 <= i < j < |units| :: lower(units[i]) != lower(units[j])
  }

  ghost predicate VehiclePreviewOf(d: Document, mapping: Mapping, lower: string -> string,
                                   previewRows: seq<VehiclePreviewRow>, issues: seq<Issue>) {
    && VehicleRowsShow(Table(d), mapping, previewRows)
    && InRowOrder(issues) && (forall x :: x in issues <==> VehicleIssueHolds(x, Table(d), mapping, lower))
    && (!HasErrors(issues) <==> VehicleErrorFree(Table(d), mapping, lower))
  }

  lemma VehicleRowsMean(table: seq<Row>, objects: seq<RowObject>, mapping: Mapping)
    requires Clean(table) && ObjectsOf(objects, table)
    ensures VehicleRowsShow(table, mapping, VehicleRows(objects, mapping))
  {
    hide Clean, Field, Reads;
    FieldsAreColumn(objects, table, mapping, UnitNumber);
    FieldsAreColumn(objects, table, mapping, Vin);
    FieldsAreColumn(objects, table, mapping, ProviderVehicleId);
    FieldsAreColumn(objects, table, mapping, IsActive);
    forall i | 0 <= i < |objects|
      ensures Field(objects[i], mapping, UnitNumber) == TableColumn(table, mapping, UnitNumber)[i]
      ensures Field(objects[i], mapping, Vin) == TableColumn(table, mapping, Vin)[i]
      ensures Field(objects[i], mapping, ProviderVehicleId) == TableColumn(table, mapping, ProviderVehicleId)[i]
      ensures Field(objects[i], mapping, IsActive) == TableColumn(table, mapping, IsActive)[i]
    {
      hide TableColumn;
      assert Fields(objects, mapping, UnitNumber)[i] == Field(objects[i], mapping, UnitNumber);
      assert Fields(objects, mapping, Vin)[i] == Field(objects[i], mapping, Vin);
      assert Fields(objects, mapping, ProviderVehicleId)[i] == Field(objects[i], mapping, ProviderVehicleId);
      assert Fields(objects, mapping, IsActive)[i] == Field(objects[i], mapping, IsActive);
    }
  }

  lemma VehicleIssuesMean(table: seq<Row>, objects: seq<RowObject>, mapping: Mapping, lower: string -> string, x: Issue)
    requires Clean(table) && ObjectsOf(objects, table)
    ensures InRowOrder(VehicleIssues(objects, mapping, lower))
    ensures x in VehicleIssues(objects, mapping, lower) <==> VehicleIssueHolds(x, table, mapping, lower)
  {
    hide Clean, Field, VehicleIssues, Repeats, Again, Reads, InRowOrder;
    FieldsAreColumn(objects, table, mapping, UnitNumber);
    FieldsAreColumn(objects, table, mapping, Vin);
    VehicleIssuesExactly(objects, mapping, lower, x);
    if x.row.AtRow? && x.row.index < |objects| {
      AgainIsRepeats(TableColumn(table, mapping, UnitNumber), lower, x.row.index);
    }
  }

  lemma VehicleErrorsMean(table: seq<Row>, objects: seq<RowObject>, mapping: Mapping, lower: string -> string)
    requires Clean(table) && ObjectsOf(objects, table)
    ensures !HasErrors(VehicleIssues(objects, mapping, lower)) <==> VehicleErrorFree(table, mapping, lower)
  {
    hide Clean, Field, VehicleIssues, TableColumn, Reads, HasErrors;
    FieldsAreColumn(objects, table, mapping, UnitNumber);
    VehicleErrorFreeExactly(objects, mapping, lower);
  }

  lemma VehiclePreviewMeans(d: Document, objects: seq<RowObject>, mapping: Mapping, lower: string -> string)
    requires Clean(Table(d)) && ObjectsOf(objects, Table(d))
    ensures VehiclePreviewOf(d, mapping, lower, VehicleRows(objects, mapping), VehicleIssues(objects, mapping, lower))
  {
    hide Table, Clean, ObjectsOf, VehicleRowsShow, VehicleIssues, VehicleRows, VehicleIssueHolds, VehicleErrorFree, InRowOrder,
         HasErrors;
    VehicleRowsMean(Table(d), objects, mapping);
    VehicleErrorsMean(Table(d), objects, mapping, lower);
    VehicleIssuesMean(Table(d), objects, mapping, lower, Issue(Error, ColumnMapping, WholeFile));
    forall x ensures x in VehicleIssues(objects, mapping, lower) <==> VehicleIssueHolds(x, Table(d), mapping, lower) {
      VehicleIssuesMean(Table(d), objects, mapping, lower, x);
    }
  }

  /** End to end: for any text, the preview is that of the document the text stands for. */
  method PreviewVehicleCsv(vehicleCsv: string, autoMap: Row -> Mapping, lower: string -> string)
      returns (previewRows: seq<VehiclePreviewRow>, issues: seq<Issue>)
    ensures forall d :: StandsFor(vehicleCsv, d) ==> VehiclePreviewOf(d, MappingOf(d, autoMap), lower, previewRows, issues)
    ensures exists d :: StandsFor(vehicleCsv, d)
  {
    hide Table, StandsFor, Clean, Reads, VehiclePreviewOf, VehicleRows, VehicleIssues;
    var parsed := ReadCsv(vehicleCsv);
    var mapping := autoMap(parsed.headers);
    var rowObjects := BuildRowObjects(parsed.headers, parsed.rows);
    previewRows, issues := BuildVehiclePreview(rowObjects, mapping, lower);
    forall d | StandsFor(vehicleCsv, d) ensures VehiclePreviewOf(d, MappingOf(d, autoMap), lower, previewRows, issues) {
      VehiclePreviewMeans(d, rowObjects, mapping, lower);
    }
  }

  // ---------------------------------------------------------------------------
  // Drivers
  // ---------------------------------------------------------------------------

  predicate RowIncomplete(table: seq<Row>, mapping: Mapping, i: nat)
    requires i < DataRows(table)
  {
    || TableColumn(table, mapping, FirstName)[i] == "" || TableColumn(table, mapping, LastName)[i] == ""
    || TableColumn(table, mapping, Phone)[i] == ""
  }

  ghost predicate DriverIssueHolds(x: Issue, table: seq<Row>, mapping: Mapping, lower: string -> string) {
    var phones := TableColumn(table, mapping, Phone);
    match x.row
    case WholeFile => x == Issue(Error, ColumnMapping, WholeFile) && !Found(mapping, Phone)
    case AtRow(i) =>
      i < |phones|
      && (|| (x == Issue(Error, RequiredFields, AtRow(i)) && RowIncomplete(table, mapping, i))
          || (x == Issue(Warning, PhoneFormatting, AtRow(i)) && phones[i] != "" && !E164(StripPhone(phones[i])))
          || (x == Issue(Error, DuplicateValues, AtRow(i)) && Again(phones, lower, i)))
  }

  ghost predicate DriverRowsShow(table: seq<Row>, mapping: Mapping, previewRows: seq<DriverPreviewRow>) {
    && |previewRows| == DataRows(table)
    && forall i | 0 <= i < |previewRows| ::
         && previewRows[i].firstName == TableColumn(table, mapping, FirstName)[i]
         && previewRows[i].lastName == TableColumn(table, mapping, LastName)[i]
         && previewRows[i].phone == TableColumn(table, mapping, Phone)[i]
         && previewRows[i].providerDriverId == TableColumn(table, mapping, ProviderDriverId)[i]
         && previewRows[i].isActive == Default(TableColumn(table, mapping, IsActive)[i], "true")
  }

  ghost predicate DriverErrorFree(table: seq<Row>, mapping: Mapping, lower: string -> string) {
    var phones := TableColumn(table, mapping, Phone);
    && Found(mapping, Phone) && (forall i | 0 <= i < |phones| :: !RowIncomplete(table, mapping, i))
    && forall i, j | 0 <= i < j < |phones| :: lower(phones[i]) != lower(phones[j])
  }

  ghost predicate DriverPreviewOf(d: Document, mapping: Mapping, lower: string -> string,
                                  previewRows: seq<DriverPreviewRow>, issues: seq<Issue>) {
    && DriverRowsShow(Table(d), mapping, previewRows)
    && InRowOrder(issues) && (forall x :: x in issues <==> DriverIssueHolds(x, Table(d), mapping, lower))
    && (!HasErrors(issues) <==> DriverErrorFree(Table(d), mapping, lower))
  }

  lemma DriverRowsMean(table: seq<Row>, objects: seq<RowObject>, mapping: Mapping)
    requires Clean(table) && ObjectsOf(objects, table)
    ensures DriverRowsShow(table, mapping, DriverRows(objects, mapping))
    ensures forall i | 0 <= i < |objects| :: Incomplete(objects[i], mapping) <==> RowIncomplete(table, mapping, i)
  {
    hide Clean, Field, Reads;
    FieldsAreColumn(objects, table, mapping, FirstName);
    FieldsAreColumn(objects, table, mapping, LastName);
    FieldsAreColumn(objects, table, mapping, Phone);
    FieldsAreColumn(objects, table, mapping, ProviderDriverId);
    FieldsAreColumn(objects, table, mapping, IsActive);
    forall i | 0 <= i < |objects|
      ensures Field(objects[i], mapping, FirstName) == TableColumn(table, mapping, FirstName)[i]
      ensures Field(objects[i], mapping, LastName) == TableColumn(table, mapping, LastName)[i]
      ensures Field(objects[i], mapping, Phone) == TableColumn(table, mapping, Phone)[i]
      ensures Field(objects[i], mapping, ProviderDriverId) == TableColumn(table, mapping, ProviderDriverId)[i]
      ensures Field(objects[i], mapping, IsActive) == TableColumn(table, mapping, IsActive)[i]
    {
      hide TableColumn;
      assert Fields(objects, mapping, FirstName)[i] == Field(objects[i], mapping, FirstName);
      assert Fields(objects, mapping, LastName)[i] == Field(objects[i], mapping, LastName);
      assert Fields(objects, mapping, Phone)[i] == Field(objects[i], mapping, Phone);
      assert Fields(objects, mapping, ProviderDriverId)[i] == Field(objects[i], mapping, ProviderDriverId);
      assert Fields(objects, mapping, IsActive)[i] == Field(objects[i], mapping, IsActive);
    }
  }

  lemma DriverIssuesMean(table: seq<Row>, objects: seq<RowObject>, mapping: Mapping, lower: string -> string, x: Issue)
    requires Clean(table) && ObjectsOf(objects, table)
    ensures InRowOrder(DriverIssues(objects, mapping, lower))
    ensures x in DriverIssues(objects, mapping, lower) <==> DriverIssueHolds(x, table, mapping, lower)
  {
    hide Clean, Field, DriverIssues, Repeats, Again, Reads, InRowOrder, E164, StripPhone, Incomplete, RowIncomplete,
         DriverRowsShow;
    FieldsAreColumn(objects, table, mapping, Phone);
    DriverRowsMean(table, objects, mapping);
    DriverIssuesExactly(objects, mapping, lower, x);
    if x.row.AtRow? && x.row.index < |objects| {
      AgainIsRepeats(TableColumn(table, mapping, Phone), lower, x.row.index);
    }
  }

  lemma DriverErrorsMean(table: seq<Row>, objects: seq<RowObject>, mapping: Mapping, lower: string -> string)
    requires Clean(table) && ObjectsOf(objects, table)
    ensures !HasErrors(DriverIssues(objects, mapping, lower)) <==> DriverErrorFree(table, mapping, lower)
  {
    hide Clean, Field, DriverIssues, TableColumn, Reads, HasErrors, Incomplete, RowIncomplete, DriverRowsShow;
    FieldsAreColumn(objects, table, mapping, Phone);
    DriverRowsMean(table, objects, mapping);
    DriverErrorFreeExactly(objects, mapping, lower);
  }

  lemma DriverPreviewMeans(d: Document, objects: seq<RowObject>, mapping: Mapping, lower: string -> string)
    requires Clean(Table(d)) && ObjectsOf(objects, Table(d))
    ensures DriverPreviewOf(d, mapping, lower, DriverRows(objects, mapping), DriverIssues(objects, mapping, lower))
  {
    hide Table, Clean, ObjectsOf, DriverRowsShow, DriverIssues, DriverRows, DriverIssueHolds, DriverErrorFree, InRowOrder,
         HasErrors;
    DriverRowsMean(Table(d), objects, mapping);
    DriverErrorsMean(Table(d), objects, mapping, lower);
    DriverIssuesMean(Table(d), objects, mapping, lower, Issue(Error, ColumnMapping, WholeFile));
    forall x ensures x in DriverIssues(objects, mapping, lower) <==> DriverIssueHolds(x, Table(d), mapping, lower) {
      DriverIssuesMean(Table(d), objects, mapping, lower, x);
    }
  }

  method PreviewDriverCsv(driverCsv: string, autoMap: Row -> Mapping, lower: string -> string)
      returns (previewRows: seq<DriverPreviewRow>, issues: seq<Issue>)
    ensures forall d :: StandsFor(driverCsv, d) ==> DriverPreviewOf(d, MappingOf(d, autoMap), lower, previewRows, issues)
    ensures exists d :: StandsFor(driverCsv, d)
  {
    hide Table, StandsFor, Clean, Reads, DriverPreviewOf, DriverRows, DriverIssues;
    var parsed := ReadCsv(driverCsv);
    var mapping := autoMap(parsed.headers);
    var rowObjects := BuildRowObjects(parsed.headers, parsed.rows);
    previewRows, issues := BuildDriverPreview(rowObjects, mapping, lower);
    forall d | StandsFor(driverCsv, d) ensures DriverPreviewOf(d, MappingOf(d, autoMap), lower, previewRows, issues) {
      DriverPreviewMeans(d, rowObjects, mapping, lower);
    }
  }
}
