/** Row objects and import previews built from parsed CSV rows (frontend/lib/csvImport.ts). */
module ImportPreview {
  import opened JsText

  type RowObject = map<string, string>

  /** JavaScript's truthiness test for strings, negated. */
  predicate Empty(s: string) {
    |s| == 0
  }

  /** The canonical columns an import asks for. */
  datatype Column =
    UnitNumber | Vin | ProviderVehicleId | IsActive | FirstName | LastName | Phone | ProviderDriverId

  type Mapping = map<Column, string>

  datatype Severity = Error | Warning
  datatype Category = ColumnMapping | RequiredFields | DuplicateValues | DataCompleteness | PhoneFormatting
  datatype RowRef = WholeFile | AtRow(index: nat)
  datatype Issue = Issue(severity: Severity, category: Category, row: RowRef)

  datatype VehiclePreviewRow = VehiclePreviewRow(
    unitNumber: string, vin: string, providerVehicleId: string, isActive: string)
  datatype DriverPreviewRow = DriverPreviewRow(
    firstName: string, lastName: string, phone: string, providerDriverId: string, isActive: string)

  // ---------------------------------------------------------------------------
  // Row objects
  // ---------------------------------------------------------------------------

  function CellAt(raw: seq<string>, i: nat): string {
    if i < |raw| then raw[i] else ""
  }

  /** i is the last column, among the first n, whose header is h. */
  predicate LastColumn(headers: seq<string>, n: nat, h: string, i: nat)
    requires n <= |headers|
  {
    i < n && headers[i] == h && forall j | i < j < n :: headers[j] != h
  }

  /** out holds, for the first n headers, the cell of the last column so named, or nothing if the row
      is too short. */
  ghost predicate Reads(out: RowObject, headers: seq<string>, n: nat, raw: seq<string>)
    requires n <= |headers|
  {
    && out.Keys == (set h | h in headers[..n])
    && forall h: string, i: nat :: LastColumn(headers, n, h, i) ==> h in out && out[h] == (if i < |raw| then raw[i] else "")
  }

  method BuildRowObjects(headers: seq<string>, rows: seq<seq<string>>) returns (objects: seq<RowObject>)
    ensures |objects| == |rows|
    ensures forall r | 0 <= r < |rows| :: Reads(objects[r], headers, |headers|, rows[r])
  {
    objects := [];
    for r := 0 to |rows|
      invariant |objects| == r
      invariant forall k | 0 <= k < r :: Reads(objects[k], headers, |headers|, rows[k])
    {
      var out: RowObject := map[];
      for i := 0 to |headers|
        invariant Reads(out, headers, i, rows[r])
      {
        ghost var before := out;
        out := out[headers[i] := CellAt(rows[r], i)];
        assert headers[..i + 1] == headers[..i] + [headers[i]];
        forall h, j | LastColumn(headers, i + 1, h, j) ensures h in out && out[h] == CellAt(rows[r], j) {
          if h != headers[i] {
            assert LastColumn(headers, i, h, j);
          }
        }
      }
      objects := objects + [out];
    }
  }

  /** Every header has a last column, so the row object is fully determined. */
  lemma {:induction false} LastColumnExists(headers: seq<string>, n: nat, h: string) returns (i: nat)
    requires n <= |headers| && h in headers[..n]
    ensures LastColumn(headers, n, h, i)
    decreases n
  {
    if headers[n - 1] == h {
      i := n - 1;
    } else {
      assert headers[..n] == headers[..n - 1] + [headers[n - 1]];
      i := LastColumnExists(headers, n - 1, h);
    }
  }

  lemma RowObjectIsDetermined(a: RowObject, b: RowObject, headers: seq<string>, raw: seq<string>)
    requires Reads(a, headers, |headers|, raw) && Reads(b, headers, |headers|, raw)
    ensures a == b
  {
    assert headers[..|headers|] == headers;
    forall h | h in a ensures a[h] == b[h] {
      var i := LastColumnExists(headers, |headers|, h);
    }
  }

  // ---------------------------------------------------------------------------
  // Fields, keys and duplicates
  // ---------------------------------------------------------------------------

  predicate Mapped(mapping: Mapping, column: Column) {
    column in mapping && !Empty(mapping[column])
  }

  /** The trimmed field of a canonical column; empty if the column or the value is missing. */
  function Field(row: RowObject, mapping: Mapping, column: Column): string {
    if Mapped(mapping, column) && mapping[column] in row then Trim(row[mapping[column]]) else ""
  }

  /** A field is the looked-up value without the white space around it; it is empty if the column is
      unmapped or the row has no such value. */
  lemma FieldExactly(row: RowObject, mapping: Mapping, column: Column)
    ensures if column in mapping && mapping[column] != "" && mapping[column] in row
            then exists pre, post :: AllWhite(pre) && AllWhite(post) && Trimmed(Field(row, mapping, column))
                                     && row[mapping[column]] == pre + Field(row, mapping, column) + post
            else Field(row, mapping, column) == ""
  {
    if column in mapping && mapping[column] != "" && mapping[column] in row {
      var pre, post := TrimSplits(row[mapping[column]]);
    }
  }

  function OrTrue(s: string): string {
    if Empty(s) then "true" else s
  }

  function Fields(rows: seq<RowObject>, mapping: Mapping, column: Column): seq<string> {
    seq(|rows|, i requires 0 <= i < |rows| => Field(rows[i], mapping, column))
  }

  /** An earlier row has the same non-empty key. */
  predicate Repeats(keys: seq<string>, lower: string -> string, i: nat)
    requires i < |keys|
  {
    !Empty(keys[i]) && exists j | 0 <= j < i :: !Empty(keys[j]) && lower(keys[j]) == lower(keys[i])
  }

  predicate AllPresent(keys: seq<string>) {
    forall i | 0 <= i < |keys| :: !Empty(keys[i])
  }

  ghost predicate PairwiseDistinct(keys: seq<string>, lower: string -> string) {
    forall i, j | 0 <= i < j < |keys| :: lower(keys[i]) != lower(keys[j])
  }

  /** A check of one row, and the issue it pushes when it fails. */
  datatype Check = Check(fails: bool, issue: Issue)

  /** The issues of the failed checks, in order. */
  function Raised(checks: seq<Check>): seq<Issue> {
    if checks == [] then [] else (if checks[0].fails then [checks[0].issue] else []) + Raised(checks[1..])
  }

  /** The issues of the first n rows, given every row's checks. */
  function Issues(table: seq<seq<Check>>, n: nat): seq<Issue>
    requires n <= |table|
  {
    if n == 0 then [] else Issues(table, n - 1) + Raised(table[n - 1])
  }

  lemma {:induction false} RaisedIn(x: Issue, checks: seq<Check>)
    ensures x in Raised(checks) <==> exists k | 0 <= k < |checks| :: checks[k] == Check(true, x)
  {
    if checks != [] {
      RaisedIn(x, checks[1..]);
      if k :| 0 <= k < |checks| - 1 && checks[1..][k] == Check(true, x) {
        assert checks[k + 1] == Check(true, x);
      }
      if k :| 1 <= k < |checks| && checks[k] == Check(true, x) {
        assert checks[1..][k - 1] == Check(true, x);
      }
    }
  }

  ghost predicate FailsAt(table: seq<seq<Check>>, i: nat, k: nat, x: Issue)
    requires i < |table|
  {
    k < |table[i]| && table[i][k] == Check(true, x)
  }

  lemma {:induction false} IssueIn(x: Issue, table: seq<seq<Check>>, n: nat)
    requires n <= |table|
    ensures x in Issues(table, n) <==> exists i: nat, k: nat | i < n :: FailsAt(table, i, k, x)
  {
    if n > 0 {
      IssueIn(x, table, n - 1);
      RaisedIn(x, table[n - 1]);
      var a, b, b' := Issues(table, n - 1), Raised(table[n - 1]), table[n - 1];
      assert x in a + b <==> x in a || x in b;
      assert forall k: nat :: FailsAt(table, n - 1, k, x) <==> k < |b'| && b'[k] == Check(true, x);
    }
  }

  /** The checks of one row, pushed one after the other. */
  method PushRowIssues(checks: seq<Check>, pushed: seq<Issue>) returns (issues: seq<Issue>)
    ensures issues == pushed + Raised(checks)
  {
    issues := pushed;
    for k := 0 to |checks|
      invariant issues + Raised(checks[k..]) == pushed + Raised(checks)
    {
      assert checks[k..][1..] == checks[k + 1..];
      if checks[k].fails {
        issues := issues + [checks[k].issue];
      }
    }
  }

  predicate HasErrors(issues: seq<Issue>) {
    exists i | 0 <= i < |issues| :: issues[i].severity == Error
  }

  lemma ErrorsComeFromChecks(table: seq<seq<Check>>)
    ensures HasErrors(Issues(table, |table|))
       <==> exists i: nat, k: nat, x: Issue | i < |table| :: FailsAt(table, i, k, x) && x.severity == Error
  {
    var all := Issues(table, |table|);
    if HasErrors(all) {
      var j :| 0 <= j < |all| && all[j].severity == Error;
      IssueIn(all[j], table, |table|);
      var i: nat, k: nat :| i < |table| && FailsAt(table, i, k, all[j]);
    }
    if i: nat, k: nat, x: Issue :| i < |table| && FailsAt(table, i, k, x) && x.severity == Error {
      IssueIn(x, table, |table|);
    }
  }

  /** Position of an issue in the report: the whole-file issue, then the rows in order. */
  function Place(x: Issue): int {
    match x.row case WholeFile => -1 case AtRow(i) => i
  }

  predicate InRowOrder(issues: seq<Issue>) {
    forall a, b | 0 <= a < b < |issues| :: Place(issues[a]) <= Place(issues[b])
  }

  /** Every check of row i reports row i. */
  ghost predicate OwnRows(table: seq<seq<Check>>) {
    forall i, k | 0 <= i < |table| && 0 <= k < |table[i]| :: table[i][k].issue.row == AtRow(i)
  }

  lemma {:induction false} IssuesInRowOrder(table: seq<seq<Check>>, n: nat)
    requires n <= |table| && OwnRows(table)
    ensures InRowOrder(Issues(table, n))
    ensures forall a | 0 <= a < |Issues(table, n)| :: 0 <= Place(Issues(table, n)[a]) < n
    decreases n
  {
    if n > 0 {
      IssuesInRowOrder(table, n - 1);
      var added := Raised(table[n - 1]);
      forall a | 0 <= a < |added| ensures Place(added[a]) == n - 1 {
        RaisedIn(added[a], table[n - 1]);
      }
    }
  }

  /** With three checks a row, an issue is reported exactly when one of its row's checks raises it. */
  lemma ReportedExactly(table: seq<seq<Check>>, x: Issue)
    requires OwnRows(table) && forall i | 0 <= i < |table| :: |table[i]| == 3
    ensures x in Issues(table, |table|)
      <==> x.row.AtRow? && x.row.index < |table|
           && var checks := table[x.row.index];
              checks[0] == Check(true, x) || checks[1] == Check(true, x) || checks[2] == Check(true, x)
  {
    IssueIn(x, table, |table|);
    if i: nat, k: nat :| i < |table| && FailsAt(table, i, k, x) {
      assert table[i][k].issue.row == AtRow(i);
    }
    if x.row.AtRow? && x.row.index < |table| {
      var i := x.row.index;
      assert table[i][0] == Check(true, x) ==> FailsAt(table, i, 0, x);
      assert table[i][1] == Check(true, x) ==> FailsAt(table, i, 1, x);
      assert table[i][2] == Check(true, x) ==> FailsAt(table, i, 2, x);
    }
  }

  function MappingIssue(mapping: Mapping, column: Column): seq<Issue> {
    if Mapped(mapping, column) then [] else [Issue(Error, ColumnMapping, WholeFile)]
  }

  lemma RepeatsExactly(keys: seq<string>, lower: string -> string)
    requires AllPresent(keys)
    ensures PairwiseDistinct(keys, lower) <==> forall i | 0 <= i < |keys| :: !Repeats(keys, lower, i)
  {
    if j, i :| 0 <= j < i < |keys| && lower(keys[j]) == lower(keys[i]) {
      assert !Empty(keys[j]);
      assert Repeats(keys, lower, i);
    }
  }

  ghost function SeenKeys(keys: seq<string>, lower: string -> string, n: nat): set<string>
    requires n <= |keys|
  {
    set j | 0 <= j < n && !Empty(keys[j]) :: lower(keys[j])
  }

  predicate SeenBefore(key: string, lower: string -> string, seen: set<string>) {
    !Empty(key) && lower(key) in seen
  }

  function AddSeen(key: string, lower: string -> string, seen: set<string>): set<string> {
    if Empty(key) then seen else seen + {lower(key)}
  }

  lemma NoneSeen(keys: seq<string>, lower: string -> string)
    ensures SeenKeys(keys, lower, 0) == {}
  {}

  lemma SeenIsRepeat(keys: seq<string>, lower: string -> string, i: nat)
    requires i < |keys|
    ensures SeenBefore(keys[i], lower, SeenKeys(keys, lower, i)) == Repeats(keys, lower, i)
  {}

  lemma SeenNext(keys: seq<string>, lower: string -> string, i: nat)
    requires i < |keys|
    ensures SeenKeys(keys, lower, i + 1) == AddSeen(keys[i], lower, SeenKeys(keys, lower, i))
  {}

  lemma TakeNext<T>(s: seq<T>, i: nat)
    requires i < |s|
    ensures s[..i + 1] == s[..i] + [s[i]]
  {}

  lemma TakeAll<T>(s: seq<T>)
    ensures s[..|s|] == s && [] + s == s
  {}

  // ---------------------------------------------------------------------------
  // Vehicles
  // ---------------------------------------------------------------------------

  function VehicleRow(row: RowObject, mapping: Mapping): VehiclePreviewRow {
    VehiclePreviewRow(
      Field(row, mapping, UnitNumber), Field(row, mapping, Vin),
      Field(row, mapping, ProviderVehicleId), OrTrue(Field(row, mapping, IsActive)))
  }

  /** One preview row per input row, in order. */
  function VehicleRows(rows: seq<RowObject>, mapping: Mapping): seq<VehiclePreviewRow> {
    seq(|rows|, i requires 0 <= i < |rows| => VehicleRow(rows[i], mapping))
  }

  function VehicleChecks(unit: string, vin: string, repeated: bool, index: nat): seq<Check> {
    [ Check(Empty(unit), Issue(Error, RequiredFields, AtRow(index))),
      Check(repeated, Issue(Error, DuplicateValues, AtRow(index))),
      Check(Empty(vin), Issue(Warning, DataCompleteness, AtRow(index))) ]
  }

  function Units(rows: seq<RowObject>, mapping: Mapping): seq<string> {
    Fields(rows, mapping, UnitNumber)
  }

  ghost function VehicleTable(rows: seq<RowObject>, mapping: Mapping, lower: string -> string): seq<seq<Check>> {
    seq(|rows|, i requires 0 <= i < |rows| => VehicleChecks(
      Units(rows, mapping)[i], Fields(rows, mapping, Vin)[i], Repeats(Units(rows, mapping), lower, i), i))
  }

  lemma VehicleTableAt(rows: seq<RowObject>, mapping: Mapping, lower: string -> string, i: nat, seen: set<string>)
    requires i < |rows| && seen == SeenKeys(Units(rows, mapping), lower, i)
    ensures var unit := Field(rows[i], mapping, UnitNumber);
      VehicleTable(rows, mapping, lower)[i]
      == VehicleChecks(unit, Field(rows[i], mapping, Vin), SeenBefore(unit, lower, seen), i)
  {
    SeenIsRepeat(Units(rows, mapping), lower, i);
  }

  ghost function VehicleIssues(rows: seq<RowObject>, mapping: Mapping, lower: string -> string): seq<Issue> {
    MappingIssue(mapping, UnitNumber) + Issues(VehicleTable(rows, mapping, lower), |rows|)
  }

  lemma VehicleRowsAt(rows: seq<RowObject>, mapping: Mapping, i: nat, row: VehiclePreviewRow)
    requires i < |rows| && row == VehicleRow(rows[i], mapping)
    ensures VehicleRows(rows, mapping)[..i + 1] == VehicleRows(rows, mapping)[..i] + [row]
  {
    TakeNext(VehicleRows(rows, mapping), i);
  }

  method BuildVehiclePreview(rows: seq<RowObject>, mapping: Mapping, lower: string -> string)
      returns (previewRows: seq<VehiclePreviewRow>, issues: seq<Issue>)
    ensures previewRows == VehicleRows(rows, mapping)
    ensures issues == VehicleIssues(rows, mapping, lower)
  {
    hide VehicleChecks, SeenBefore, AddSeen, SeenKeys, Raised, Field, OrTrue;
    ghost var units, all := Units(rows, mapping), VehicleRows(rows, mapping);
    ghost var table := VehicleTable(rows, mapping, lower);
    NoneSeen(units, lower);
    previewRows, issues := [], [];
    var seen: set<string> := {};
    for index := 0 to |rows|
      invariant previewRows == all[..index]
      invariant seen == SeenKeys(units, lower, index)
      invariant issues == Issues(table, index)
    {
      var unit := Field(rows[index], mapping, UnitNumber);
      var vin := Field(rows[index], mapping, Vin);
      var previewRow := VehiclePreviewRow(
        unit, vin, Field(rows[index], mapping, ProviderVehicleId), OrTrue(Field(rows[index], mapping, IsActive)));
      VehicleTableAt(rows, mapping, lower, index, seen);
      issues := PushRowIssues(VehicleChecks(unit, vin, SeenBefore(unit, lower, seen), index), issues);
      SeenNext(units, lower, index);
      seen := AddSeen(unit, lower, seen);
      VehicleRowsAt(rows, mapping, index, previewRow);
      previewRows := previewRows + [previewRow];
    }
    TakeAll(all);
    TakeAll(issues);
    if !Mapped(mapping, UnitNumber) {
      issues := [Issue(Error, ColumnMapping, WholeFile)] + issues;
    }
  }

  /** Which issues the vehicle preview reports: the mapping error exactly when the column is unmapped,
      and at a row exactly the checks that fail there. They are listed in row order. */
  lemma VehicleIssuesExactly(rows: seq<RowObject>, mapping: Mapping, lower: string -> string, x: Issue)
    ensures x in VehicleIssues(rows, mapping, lower)
      <==> match x.row
           case WholeFile => x == Issue(Error, ColumnMapping, WholeFile) && !Mapped(mapping, UnitNumber)
           case AtRow(i) =>
             i < |rows|
             && (|| (x == Issue(Error, RequiredFields, AtRow(i)) && Empty(Units(rows, mapping)[i]))
                 || (x == Issue(Error, DuplicateValues, AtRow(i)) && Repeats(Units(rows, mapping), lower, i))
                 || (x == Issue(Warning, DataCompleteness, AtRow(i)) && Empty(Fields(rows, mapping, Vin)[i])))
    ensures InRowOrder(VehicleIssues(rows, mapping, lower))
  {
    hide Repeats, Field;
    var table := VehicleTable(rows, mapping, lower);
    ReportedExactly(table, x);
    IssuesInRowOrder(table, |rows|);
  }

  /** A duplicate error is raised at a row exactly when an earlier row has the same lowercased unit. */
  lemma VehicleDuplicateExactly(rows: seq<RowObject>, mapping: Mapping, lower: string -> string, i: nat)
    requires i < |rows|
    ensures Issue(Error, DuplicateValues, AtRow(i)) in VehicleIssues(rows, mapping, lower)
       <==> Repeats(Units(rows, mapping), lower, i)
  {
    var x, table := Issue(Error, DuplicateValues, AtRow(i)), VehicleTable(rows, mapping, lower);
    IssueIn(x, table, |rows|);
    assert x !in MappingIssue(mapping, UnitNumber);
    assert table[i][1] == Check(Repeats(Units(rows, mapping), lower, i), x);
    if Repeats(Units(rows, mapping), lower, i) {
      assert FailsAt(table, i, 1, x);
    }
  }

  lemma VehicleRowErrors(rows: seq<RowObject>, mapping: Mapping, lower: string -> string, i: nat, k: nat)
    requires i < |rows| && k < |VehicleTable(rows, mapping, lower)[i]|
    ensures var check := VehicleTable(rows, mapping, lower)[i][k];
      check.fails && check.issue.severity == Error
      <==> (k == 0 && Empty(Units(rows, mapping)[i])) || (k == 1 && Repeats(Units(rows, mapping), lower, i))
  {
    assert VehicleTable(rows, mapping, lower)[i][k].issue.row == AtRow(i);
  }

  lemma VehicleErrorsAreRowErrors(rows: seq<RowObject>, mapping: Mapping, lower: string -> string)
    ensures HasErrors(Issues(VehicleTable(rows, mapping, lower), |rows|))
       <==> exists i | 0 <= i < |rows| :: Empty(Units(rows, mapping)[i]) || Repeats(Units(rows, mapping), lower, i)
  {
    var table := VehicleTable(rows, mapping, lower);
    ErrorsComeFromChecks(table);
    if i: nat, k: nat, x: Issue :| i < |table| && FailsAt(table, i, k, x) && x.severity == Error {
      VehicleRowErrors(rows, mapping, lower, i, k);
    }
    if i :| 0 <= i < |rows| && (Empty(Units(rows, mapping)[i]) || Repeats(Units(rows, mapping), lower, i)) {
      var k := if Empty(Units(rows, mapping)[i]) then 0 else 1;
      VehicleRowErrors(rows, mapping, lower, i, k);
      assert FailsAt(table, i, k, table[i][k].issue);
    }
  }

  /** The vehicle preview has no error exactly when the column is mapped and every unit number is
      present and distinct from the others up to case. */
  lemma VehicleErrorFreeExactly(rows: seq<RowObject>, mapping: Mapping, lower: string -> string)
    ensures !HasErrors(VehicleIssues(rows, mapping, lower))
       <==> && Mapped(mapping, UnitNumber)
            && AllPresent(Units(rows, mapping))
            && PairwiseDistinct(Units(rows, mapping), lower)
  {
    var issues := Issues(VehicleTable(rows, mapping, lower), |rows|);
    if Mapped(mapping, UnitNumber) {
      TakeAll(issues);
      VehicleErrorsAreRowErrors(rows, mapping, lower);
      if AllPresent(Units(rows, mapping)) {
        RepeatsExactly(Units(rows, mapping), lower);
      }
    } else {
      assert VehicleIssues(rows, mapping, lower)[0].severity == Error;
    }
  }

  // ---------------------------------------------------------------------------
  // Drivers
  // ---------------------------------------------------------------------------

  function StripPhone(s: string): string {
    if s == "" then ""
    else (if IsWhite(s[0]) || s[0] in "()-" then "" else [s[0]]) + StripPhone(s[1..])
  }

  function WithoutPlus(s: string): string {
    if s != "" && s[0] == '+' then s[1..] else s
  }

  /** The phone pattern: an optional plus sign, and 8 to 15 digits of which the first is not zero. */
  predicate E164(s: string) {
    var digits := WithoutPlus(s);
    8 <= |digits| <= 15 && digits[0] != '0' && forall i | 0 <= i < |digits| :: '0' <= digits[i] <= '9'
  }

  /** An optional plus, one digit from 1 to 9, and 7 to 14 further digits. */
  ghost predicate PhoneParts(s: string, plus: string, first: char, more: string) {
    && (plus == "" || plus == "+") && '1' <= first <= '9'
    && 7 <= |more| <= 14 && (forall i | 0 <= i < |more| :: '0' <= more[i] <= '9')
    && s == plus + [first] + more
  }

  lemma PartsAccepted(s: string, plus: string, first: char, more: string)
    requires PhoneParts(s, plus, first, more)
    ensures E164(s)
  {
    var digits := [first] + more;
    assert s == plus + digits;
    assert plus == "" ==> s == digits;
    assert plus == "+" ==> s[0] == '+' && s[1..] == digits;
    assert digits[1..] == more && forall i | 1 <= i < |digits| :: digits[i] == more[i - 1];
  }

  lemma AcceptedParts(s: string) returns (plus: string, first: char, more: string)
    requires E164(s)
    ensures PhoneParts(s, plus, first, more)
  {
    var digits := WithoutPlus(s);
    plus, first, more := if s[0] == '+' then "+" else "", digits[0], digits[1..];
    assert digits == [first] + more && s == plus + digits;
    Assoc(plus, [first], more);
    forall i | 0 <= i < |more| ensures '0' <= more[i] <= '9' {
      assert more[i] == digits[i + 1];
    }
    assert '0' <= digits[0] <= '9';
  }

  lemma Assoc(a: string, b: string, c: string)
    ensures (a + b) + c == a + (b + c)
  {}

  /** Phones are accepted exactly when they consist of these parts. */
  lemma E164Exactly(s: string)
    ensures E164(s) <==> exists plus, first, more :: PhoneParts(s, plus, first, more)
  {
    hide E164, PhoneParts;
    if E164(s) {
      var plus, first, more := AcceptedParts(s);
    }
    if plus, first, more :| PhoneParts(s, plus, first, more) {
      PartsAccepted(s, plus, first, more);
    }
  }

  /** Stripping works character by character: white space, parentheses and dashes go, the rest stays. */
  lemma {:induction false} StripPhoneAppend(a: string, b: string)
    ensures StripPhone(a + b) == StripPhone(a) + StripPhone(b)
  {
    if a == "" {
      assert a + b == b;
    } else {
      assert (a + b)[1..] == a[1..] + b;
      StripPhoneAppend(a[1..], b);
    }
  }

  lemma StripPhoneChar(c: char)
    ensures StripPhone([c]) == if IsWhite(c) || c == '(' || c == ')' || c == '-' then "" else [c]
  {
    assert [c][1..] == "" && "()-" == ['(', ')', '-'];
  }

  function DriverRow(row: RowObject, mapping: Mapping): DriverPreviewRow {
    DriverPreviewRow(
      Field(row, mapping, FirstName), Field(row, mapping, LastName), Field(row, mapping, Phone),
      Field(row, mapping, ProviderDriverId), OrTrue(Field(row, mapping, IsActive)))
  }

  /** One preview row per input row, in order. */
  function DriverRows(rows: seq<RowObject>, mapping: Mapping): seq<DriverPreviewRow> {
    seq(|rows|, i requires 0 <= i < |rows| => DriverRow(rows[i], mapping))
  }

  function DriverChecks(incomplete: bool, phone: string, repeated: bool, index: nat): seq<Check> {
    [ Check(incomplete, Issue(Error, RequiredFields, AtRow(index))),
      Check(!Empty(phone) && !E164(StripPhone(phone)), Issue(Warning, PhoneFormatting, AtRow(index))),
      Check(repeated, Issue(Error, DuplicateValues, AtRow(index))) ]
  }

  function Phones(rows: seq<RowObject>, mapping: Mapping): seq<string> {
    Fields(rows, mapping, Phone)
  }

  predicate AnyEmpty(a: string, b: string, c: string) {
    Empty(a) || Empty(b) || Empty(c)
  }

  predicate Incomplete(row: RowObject, mapping: Mapping) {
    AnyEmpty(Field(row, mapping, FirstName), Field(row, mapping, LastName), Field(row, mapping, Phone))
  }

  ghost function DriverTable(rows: seq<RowObject>, mapping: Mapping, lower: string -> string): seq<seq<Check>> {
    seq(|rows|, i requires 0 <= i < |rows| => DriverChecks(
      Incomplete(rows[i], mapping), Phones(rows, mapping)[i], Repeats(Phones(rows, mapping), lower, i), i))
  }

  lemma DriverTableAt(rows: seq<RowObject>, mapping: Mapping, lower: string -> string, i: nat, seen: set<string>)
    requires i < |rows| && seen == SeenKeys(Phones(rows, mapping), lower, i)
    ensures var phone := Field(rows[i], mapping, Phone);
      DriverTable(rows, mapping, lower)[i]
      == DriverChecks(Incomplete(rows[i], mapping), phone, SeenBefore(phone, lower, seen), i)
  {
    SeenIsRepeat(Phones(rows, mapping), lower, i);
  }

  ghost function DriverIssues(rows: seq<RowObject>, mapping: Mapping, lower: string -> string): seq<Issue> {
    MappingIssue(mapping, Phone) + Issues(DriverTable(rows, mapping, lower), |rows|)
  }

  lemma DriverRowsAt(rows: seq<RowObject>, mapping: Mapping, i: nat, row: DriverPreviewRow)
    requires i < |rows| && row == DriverRow(rows[i], mapping)
    ensures DriverRows(rows, mapping)[..i + 1] == DriverRows(rows, mapping)[..i] + [row]
  {
    TakeNext(DriverRows(rows, mapping), i);
  }

  method BuildDriverPreview(rows: seq<RowObject>, mapping: Mapping, lower: string -> string)
      returns (previewRows: seq<DriverPreviewRow>, issues: seq<Issue>)
    ensures previewRows == DriverRows(rows, mapping)
    ensures issues == DriverIssues(rows, mapping, lower)
  {
    hide DriverChecks, SeenBefore, AddSeen, SeenKeys, Raised, Field, OrTrue;
    ghost var phones, all := Phones(rows, mapping), DriverRows(rows, mapping);
    ghost var table := DriverTable(rows, mapping, lower);
    NoneSeen(phones, lower);
    previewRows, issues := [], [];
    var seenPhones: set<string> := {};
    for index := 0 to |rows|
      invariant previewRows == all[..index]
      invariant seenPhones == SeenKeys(phones, lower, index)
      invariant issues == Issues(table, index)
    {
      var firstName := Field(rows[index], mapping, FirstName);
      var lastName := Field(rows[index], mapping, LastName);
      var phone := Field(rows[index], mapping, Phone);
      var previewRow := DriverPreviewRow(firstName, lastName, phone,
        Field(rows[index], mapping, ProviderDriverId), OrTrue(Field(rows[index], mapping, IsActive)));
      DriverTableAt(rows, mapping, lower, index, seenPhones);
      var incomplete := AnyEmpty(firstName, lastName, phone);
      issues := PushRowIssues(DriverChecks(incomplete, phone, SeenBefore(phone, lower, seenPhones), index), issues);
      SeenNext(phones, lower, index);
      seenPhones := AddSeen(phone, lower, seenPhones);
      DriverRowsAt(rows, mapping, index, previewRow);
      previewRows := previewRows + [previewRow];
    }
    TakeAll(all);
    TakeAll(issues);
    if !Mapped(mapping, Phone) {
      issues := [Issue(Error, ColumnMapping, WholeFile)] + issues;
    }
  }

  /** Which issues the driver preview reports, and in which order. */
  lemma DriverIssuesExactly(rows: seq<RowObject>, mapping: Mapping, lower: string -> string, x: Issue)
    ensures x in DriverIssues(rows, mapping, lower)
      <==> match x.row
           case WholeFile => x == Issue(Error, ColumnMapping, WholeFile) && !Mapped(mapping, Phone)
           case AtRow(i) =>
             i < |rows|
             && (|| (x == Issue(Error, RequiredFields, AtRow(i)) && Incomplete(rows[i], mapping))
                 || (x == Issue(Warning, PhoneFormatting, AtRow(i))
                     && !Empty(Phones(rows, mapping)[i]) && !E164(StripPhone(Phones(rows, mapping)[i])))
                 || (x == Issue(Error, DuplicateValues, AtRow(i)) && Repeats(Phones(rows, mapping), lower, i)))
    ensures InRowOrder(DriverIssues(rows, mapping, lower))
  {
    hide Repeats, Field, E164, StripPhone, Incomplete;
    var table := DriverTable(rows, mapping, lower);
    ReportedExactly(table, x);
    IssuesInRowOrder(table, |rows|);
  }

  lemma DriverDuplicateExactly(rows: seq<RowObject>, mapping: Mapping, lower: string -> string, i: nat)
    requires i < |rows|
    ensures Issue(Error, DuplicateValues, AtRow(i)) in DriverIssues(rows, mapping, lower)
       <==> Repeats(Phones(rows, mapping), lower, i)
  {
    var x, table := Issue(Error, DuplicateValues, AtRow(i)), DriverTable(rows, mapping, lower);
    IssueIn(x, table, |rows|);
    assert x !in MappingIssue(mapping, Phone);
    assert table[i][2] == Check(Repeats(Phones(rows, mapping), lower, i), x);
    if Repeats(Phones(rows, mapping), lower, i) {
      assert FailsAt(table, i, 2, x);
    }
  }

  lemma DriverRowErrors(rows: seq<RowObject>, mapping: Mapping, lower: string -> string, i: nat, k: nat)
    requires i < |rows| && k < |DriverTable(rows, mapping, lower)[i]|
    ensures var check := DriverTable(rows, mapping, lower)[i][k];
      check.fails && check.issue.severity == Error
      <==> (k == 0 && Incomplete(rows[i], mapping)) || (k == 2 && Repeats(Phones(rows, mapping), lower, i))
  {
    assert DriverTable(rows, mapping, lower)[i][k].issue.row == AtRow(i);
  }

  lemma DriverErrorsAreRowErrors(rows: seq<RowObject>, mapping: Mapping, lower: string -> string)
    ensures HasErrors(Issues(DriverTable(rows, mapping, lower), |rows|))
       <==> exists i | 0 <= i < |rows| :: Incomplete(rows[i], mapping) || Repeats(Phones(rows, mapping), lower, i)
  {
    var table := DriverTable(rows, mapping, lower);
    ErrorsComeFromChecks(table);
    if i: nat, k: nat, x: Issue :| i < |table| && FailsAt(table, i, k, x) && x.severity == Error {
      DriverRowErrors(rows, mapping, lower, i, k);
    }
    if i :| 0 <= i < |rows| && (Incomplete(rows[i], mapping) || Repeats(Phones(rows, mapping), lower, i)) {
      var k := if Incomplete(rows[i], mapping) then 0 else 2;
      DriverRowErrors(rows, mapping, lower, i, k);
      assert FailsAt(table, i, k, table[i][k].issue);
    }
  }

  /** The driver preview has no error exactly when phone is mapped, the three required fields are
      present in every row and the phones are pairwise distinct up to case. */
  lemma DriverErrorFreeExactly(rows: seq<RowObject>, mapping: Mapping, lower: string -> string)
    ensures !HasErrors(DriverIssues(rows, mapping, lower))
       <==> && Mapped(mapping, Phone)
            && (forall i | 0 <= i < |rows| :: !Incomplete(rows[i], mapping))
            && PairwiseDistinct(Phones(rows, mapping), lower)
  {
    var issues := Issues(DriverTable(rows, mapping, lower), |rows|);
    if Mapped(mapping, Phone) {
      TakeAll(issues);
      DriverErrorsAreRowErrors(rows, mapping, lower);
      if forall i | 0 <= i < |rows| :: !Incomplete(rows[i], mapping) {
        assert forall i | 0 <= i < |rows| :: Phones(rows, mapping)[i] == Field(rows[i], mapping, Phone);
        RepeatsExactly(Phones(rows, mapping), lower);
      }
    } else {
      assert DriverIssues(rows, mapping, lower)[0].severity == Error;
    }
  }
}
