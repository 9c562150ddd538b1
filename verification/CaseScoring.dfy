/** Completeness, blockers and readiness of a case (backend/app/case_ops). */
module CaseScoring {
  import opened Statuses

  datatype ArtifactStatus = Pending | Captured | Unavailable
  datatype Artifact = Artifact(artifactType: string, status: ArtifactStatus)

  datatype CompletenessStatus = Incomplete | Partial | MostlyComplete | Complete
  datatype DimensionName = EvidenceCapture | CustodyTimeline | ExportReadiness
  datatype MissingItem =
    | MissingArtifact(artifactType: string, status: ArtifactStatus)
    | MissingCollection | MissingValidation | MissingExportEvent | MissingReadyPackage
  datatype Dimension = Dimension(
    name: DimensionName, earned: nat, possible: nat, percent: int, status: CompletenessStatus, missing: seq<MissingItem>)
  datatype Completeness = Completeness(
    percent: int, status: CompletenessStatus, dimensions: seq<Dimension>, missing: seq<MissingItem>)

  datatype Severity = Critical | Important | Optional
  datatype Code =
    | EvidenceCaptureIncomplete | NoCapturedEvidence | EvidenceUnavailable
    | TimelineValidationMissing | ExportNotRequested | ExportNotReady
  datatype Blocker = Blocker(code: Code, severity: Severity, blocksReadiness: bool)
  datatype BlockerSummary = BlockerSummary(
    total: nat, critical: nat, important: nat, optional: nat, readinessCodes: seq<Code>, items: seq<Blocker>)

  datatype ReadinessState = NotReady | ConditionallyReady | ReadyToExport | ExportedState | ClosedState
  datatype Snapshot = Snapshot(completeness: Completeness, blockers: BlockerSummary, readiness: ReadinessState)

  /** What the case holds; events are given by their types. */
  datatype Case = Case(artifacts: seq<Artifact>, events: seq<string>, exports: seq<ExportStatus>)

  // ---------------------------------------------------------------------------
  // Event classes
  // ---------------------------------------------------------------------------

  function Lower(s: string): string {
    seq(|s|, i requires 0 <= i < |s| => if 'A' <= s[i] <= 'Z' then s[i] - 'A' + 'a' else s[i])
  }

  predicate Contains(s: string, part: string) {
    exists i | 0 <= i <= |s| :: part <= s[i..]
  }

  predicate IsCollection(eventType: string) {
    Contains(Lower(eventType), "capture") || Contains(Lower(eventType), "incident_started")
  }

  predicate IsValidation(eventType: string) {
    Contains(Lower(eventType), "hash") || Contains(Lower(eventType), "validat")
  }

  predicate IsExportEvent(eventType: string) {
    Contains(Lower(eventType), "export")
  }

  predicate AnyCollection(events: seq<string>) {
    exists i | 0 <= i < |events| :: IsCollection(events[i])
  }

  predicate AnyValidation(events: seq<string>) {
    exists i | 0 <= i < |events| :: IsValidation(events[i])
  }

  predicate AnyExportEvent(events: seq<string>) {
    exists i | 0 <= i < |events| :: IsExportEvent(events[i])
  }

  predicate AnyReady(exports: seq<ExportStatus>) {
    exists i | 0 <= i < |exports| :: exports[i] == Ready
  }

  function CountStatus(artifacts: seq<Artifact>, status: ArtifactStatus): nat {
    if artifacts == [] then 0
    else CountStatus(artifacts[1..], status) + if artifacts[0].status == status then 1 else 0
  }

  /** Everything percentages, blockers and readiness depend on. */
  datatype Facts = Facts(
    pending: nat, captured: nat, unavailable: nat,
    collected: bool, validated: bool, exported: bool, anyExport: bool, readyExport: bool)

  function FactsOf(c: Case): Facts {
    Facts(CountStatus(c.artifacts, Pending), CountStatus(c.artifacts, Captured), CountStatus(c.artifacts, Unavailable),
          AnyCollection(c.events), AnyValidation(c.events), AnyExportEvent(c.events),
          c.exports != [], AnyReady(c.exports))
  }

  function Total(f: Facts): nat {
    f.pending + f.captured + f.unavailable
  }

  lemma {:induction false} CountsAddUp(artifacts: seq<Artifact>)
    ensures CountStatus(artifacts, Pending) + CountStatus(artifacts, Captured) + CountStatus(artifacts, Unavailable)
         == |artifacts|
  {
    if artifacts != [] {
      CountsAddUp(artifacts[1..]);
    }
  }

  // ---------------------------------------------------------------------------
  // Percentages
  // ---------------------------------------------------------------------------

  /** Python's round() of the exact quotient num / den. */
  function RoundHalfEven(num: int, den: int): int
    requires den > 0
  {
    var q, r := num / den, num % den;
    if 2 * r < den then q else if 2 * r > den then q + 1 else if q % 2 == 0 then q else q + 1
  }

  function CalcPercent(earned: nat, possible: nat): int {
    if possible == 0 then 100
    else
      var p := RoundHalfEven(100 * earned, possible);
      if p > 100 then 100 else if p < 0 then 0 else p
  }

  function StatusForPercent(percent: int): CompletenessStatus {
    if percent >= 100 then Complete else if percent >= 75 then MostlyComplete
    else if percent >= 40 then Partial else Incomplete
  }

  function OneIf(b: bool): nat {
    if b then 1 else 0
  }

  function ArtifactPercent(f: Facts): int {
    CalcPercent(f.captured, Total(f))
  }

  function ChecksPassed(f: Facts): nat {
    OneIf(f.collected) + OneIf(f.validated) + OneIf(f.exported)
  }

  function TimelinePercent(f: Facts): int {
    CalcPercent(ChecksPassed(f), 3)
  }

  function ExportPercent(f: Facts): int {
    if f.readyExport then 100 else 0
  }

  /** The weights 0.6, 0.25 and 0.15 in hundredths. */
  function WeightedHundredths(a: int, t: int, e: int): int {
    60 * a + 25 * t + 15 * e
  }

  function OverallPercent(f: Facts): int {
    RoundHalfEven(WeightedHundredths(ArtifactPercent(f), TimelinePercent(f), ExportPercent(f)), 100)
  }

  function MissingArtifacts(artifacts: seq<Artifact>): seq<MissingItem> {
    if artifacts == [] then []
    else (if artifacts[0].status == Captured then []
          else [MissingArtifact(artifacts[0].artifactType, artifacts[0].status)]) + MissingArtifacts(artifacts[1..])
  }

  function Unless(ok: bool, item: MissingItem): seq<MissingItem> {
    if ok then [] else [item]
  }

  function EvidenceDimension(c: Case): Dimension {
    var f := FactsOf(c);
    var a := ArtifactPercent(f);
    Dimension(EvidenceCapture, f.captured, |c.artifacts|, a, StatusForPercent(a), MissingArtifacts(c.artifacts))
  }

  function TimelineDimension(f: Facts): Dimension {
    var t := TimelinePercent(f);
    Dimension(CustodyTimeline, ChecksPassed(f), 3, t, StatusForPercent(t),
              Unless(f.collected, MissingCollection) + Unless(f.validated, MissingValidation)
              + Unless(f.exported, MissingExportEvent))
  }

  function ExportDimension(f: Facts): Dimension {
    var e := ExportPercent(f);
    Dimension(ExportReadiness, OneIf(f.readyExport), 1, e, StatusForPercent(e), Unless(f.readyExport, MissingReadyPackage))
  }

  function ScoreDimensions(c: Case): seq<Dimension> {
    [EvidenceDimension(c), TimelineDimension(FactsOf(c)), ExportDimension(FactsOf(c))]
  }

  /** A dimension's share of the overall percent, in hundredths. */
  function Weighted(d: Dimension): int {
    match d.name
    case EvidenceCapture => 60 * d.percent
    case CustodyTimeline => 25 * d.percent
    case ExportReadiness => 15 * d.percent
  }

  function AllMissing(dimensions: seq<Dimension>): seq<MissingItem> {
    if dimensions == [] then [] else dimensions[0].missing + AllMissing(dimensions[1..])
  }

  function CompletenessOf(c: Case): Completeness {
    var percent := OverallPercent(FactsOf(c));
    Completeness(percent, StatusForPercent(percent), ScoreDimensions(c), AllMissing(ScoreDimensions(c)))
  }

  function WeightedSum(dimensions: seq<Dimension>): int {
    if dimensions == [] then 0
    else Weighted(dimensions[0]) + WeightedSum(dimensions[1..])
  }

  lemma WeightedSumOfThree(x: Dimension, y: Dimension, z: Dimension)
    requires x.name == EvidenceCapture && y.name == CustodyTimeline && z.name == ExportReadiness
    ensures WeightedSum([x, y, z]) == WeightedHundredths(x.percent, y.percent, z.percent)
  {
    assert [z][1..] == [];
    assert WeightedSum([z]) == Weighted(z);
    assert [y, z][1..] == [z];
    assert WeightedSum([y, z]) == Weighted(y) + Weighted(z);
    assert [x, y, z][1..] == [y, z];
  }

  lemma WeightedSumOfScores(c: Case)
    ensures var f := FactsOf(c);
      WeightedSum(ScoreDimensions(c)) == WeightedHundredths(ArtifactPercent(f), TimelinePercent(f), ExportPercent(f))
  {
    var x, y, z := EvidenceDimension(c), TimelineDimension(FactsOf(c)), ExportDimension(FactsOf(c));
    assert x.percent == ArtifactPercent(FactsOf(c)) && y.percent == TimelinePercent(FactsOf(c));
    WeightedSumOfThree(x, y, z);
  }

  method CollectMissing(dimensions: seq<Dimension>) returns (missingItems: seq<MissingItem>)
    ensures missingItems == AllMissing(dimensions)
  {
    missingItems := [];
    for i := 0 to |dimensions|
      invariant missingItems + AllMissing(dimensions[i..]) == AllMissing(dimensions)
    {
      assert dimensions[i..][1..] == dimensions[i + 1..];
      missingItems := missingItems + dimensions[i].missing;
    }
  }

  method CalculateCompleteness(c: Case) returns (completeness: Completeness)
    ensures completeness == CompletenessOf(c)
  {
    var dimensions := ScoreDimensions(c);
    WeightedSumOfScores(c);
    var percent := RoundHalfEven(WeightedSum(dimensions), 100);
    var missingItems := CollectMissing(dimensions);
    completeness := Completeness(percent, StatusForPercent(percent), dimensions, missingItems);
  }

  // ---------------------------------------------------------------------------
  // Blockers and readiness
  // ---------------------------------------------------------------------------

  predicate Blocks(code: Code, f: Facts) {
    match code
    case EvidenceCaptureIncomplete => f.pending > 0
    case NoCapturedEvidence => f.captured == 0 && Total(f) > 0
    case EvidenceUnavailable => f.unavailable > 0
    case TimelineValidationMissing => !f.validated
    case ExportNotRequested => !f.anyExport
    case ExportNotReady => f.anyExport && !f.readyExport
  }

  function BlockerFor(code: Code): Blocker {
    match code
    case EvidenceCaptureIncomplete => Blocker(code, Critical, true)
    case NoCapturedEvidence => Blocker(code, Critical, true)
    case EvidenceUnavailable => Blocker(code, Important, true)
    case TimelineValidationMissing => Blocker(code, Important, true)
    case ExportNotRequested => Blocker(code, Optional, false)
    case ExportNotReady => Blocker(code, Optional, false)
  }

  const CODES := 6

  /** The codes in the order of the checks. */
  function CodeAt(k: nat): Code {
    if k == 0 then EvidenceCaptureIncomplete else if k == 1 then NoCapturedEvidence
    else if k == 2 then EvidenceUnavailable else if k == 3 then TimelineValidationMissing
    else if k == 4 then ExportNotRequested else ExportNotReady
  }

  function When(holds: bool, blocker: Blocker): seq<Blocker> {
    if holds then [blocker] else []
  }

  /** The blockers of the first n checks. */
  function BlockersUpTo(n: nat, f: Facts): seq<Blocker> {
    if n == 0 then []
    else BlockersUpTo(n - 1, f) + When(Blocks(CodeAt(n - 1), f), BlockerFor(CodeAt(n - 1)))
  }

  function CountSeverity(blockers: seq<Blocker>, severity: Severity): nat {
    if blockers == [] then 0
    else CountSeverity(blockers[1..], severity) + OneIf(blockers[0].severity == severity)
  }

  function ReadinessCodes(blockers: seq<Blocker>): seq<Code> {
    if blockers == [] then []
    else (if blockers[0].blocksReadiness then [blockers[0].code] else []) + ReadinessCodes(blockers[1..])
  }

  function Summarize(blockers: seq<Blocker>): BlockerSummary {
    BlockerSummary(|blockers|, CountSeverity(blockers, Critical), CountSeverity(blockers, Important),
                   CountSeverity(blockers, Optional), ReadinessCodes(blockers), blockers)
  }

  /** One check of detect_blockers: append the blocker if its condition holds. */
  method Check(found: seq<Blocker>, holds: bool, blocker: Blocker, ghost k: nat, ghost f: Facts)
      returns (found': seq<Blocker>)
    requires found == BlockersUpTo(k, f)
    requires blocker == BlockerFor(CodeAt(k)) && holds == Blocks(CodeAt(k), f)
    ensures found' == BlockersUpTo(k + 1, f)
  {
    found' := found;
    if holds {
      found' := found + [blocker];
    } else {
      assert found == found + [];
    }
  }

  method DetectBlockers(c: Case) returns (summary: BlockerSummary)
    ensures summary == BlockersOf(c)
  {
    hide CountStatus, AnyCollection, AnyValidation, AnyExportEvent, AnyReady, Summarize;
    ghost var f := FactsOf(c);
    CountsAddUp(c.artifacts);
    var pending := CountStatus(c.artifacts, Pending);
    var unavailable := CountStatus(c.artifacts, Unavailable);
    var capturedCount := CountStatus(c.artifacts, Captured);
    var validated := AnyValidation(c.events);
    var anyReady := AnyReady(c.exports);
    var blockers := Check([], pending > 0, Blocker(EvidenceCaptureIncomplete, Critical, true), 0, f);
    blockers := Check(blockers, capturedCount == 0 && c.artifacts != [], Blocker(NoCapturedEvidence, Critical, true), 1, f);
    blockers := Check(blockers, unavailable > 0, Blocker(EvidenceUnavailable, Important, true), 2, f);
    blockers := Check(blockers, !validated, Blocker(TimelineValidationMissing, Important, true), 3, f);
    blockers := Check(blockers, c.exports == [], Blocker(ExportNotRequested, Optional, false), 4, f);
    blockers := Check(blockers, c.exports != [] && !anyReady, Blocker(ExportNotReady, Optional, false), 5, f);
    summary := Summarize(blockers);
  }

  function DeriveReadiness(status: CaseStatus, percent: int, blockers: BlockerSummary): ReadinessState {
    if status == Closed then ClosedState
    else if status == Exported then ExportedState
    else if blockers.readinessCodes != [] && blockers.critical > 0 then NotReady
    else if blockers.readinessCodes != [] || percent < 90 then ConditionallyReady
    else ReadyToExport
  }

  function BlockersOf(c: Case): BlockerSummary {
    Summarize(BlockersUpTo(CODES, FactsOf(c)))
  }

  function SnapshotOf(status: CaseStatus, c: Case): Snapshot {
    var completeness, blockers := CompletenessOf(c), BlockersOf(c);
    Snapshot(completeness, blockers, DeriveReadiness(status, completeness.percent, blockers))
  }

  method BuildCaseSnapshot(status: CaseStatus, c: Case) returns (snapshot: Snapshot)
    ensures snapshot == SnapshotOf(status, c)
  {
    var completeness := CalculateCompleteness(c);
    var blockers := DetectBlockers(c);
    snapshot := Snapshot(completeness, blockers, DeriveReadiness(status, completeness.percent, blockers));
  }
}
