/** Completeness, blockers and readiness of a case in terms of its artifacts, events and exports
    (backend/app/case_ops). */
module CaseMeaning {
  import opened CaseScoring
  import opened CaseTheorems
  import opened Statuses

  // ---------------------------------------------------------------------------
  // Event classes
  // ---------------------------------------------------------------------------

  /** The word occurs in the text, in any mixture of upper and lower case. */
  ghost predicate Mentions(text: string, word: string) {
    exists pre, mid, post :: text == pre + mid + post && Lower(mid) == word
  }

  lemma LowerParts(a: string, b: string)
    ensures Lower(a + b) == Lower(a) + Lower(b)
  {}

  lemma PartMentioned(pre: string, mid: string, post: string, word: string)
    requires Lower(mid) == word
    ensures Contains(Lower(pre + mid + post), word)
  {
    hide Lower;
    LowerParts(pre + mid, post);
    LowerParts(pre, mid);
    var lowered := Lower(pre) + word + Lower(post);
    assert lowered[|Lower(pre)|..] == word + Lower(post);
  }

  lemma MentionedPart(text: string, word: string, i: nat)
    requires i <= |text| == |Lower(text)| && word <= Lower(text)[i..]
    ensures Mentions(text, word)
  {
    var pre, mid, post := text[..i], text[i..i + |word|], text[i + |word|..];
    assert text == pre + mid + post;
    assert Lower(mid) == Lower(text)[i..i + |word|] == Lower(text)[i..][..|word|] == word;
  }

  lemma MentionsExactly(text: string, word: string)
    ensures Contains(Lower(text), word) <==> Mentions(text, word)
  {
    assert |Lower(text)| == |text|;
    if i :| 0 <= i <= |Lower(text)| && word <= Lower(text)[i..] {
      MentionedPart(text, word, i);
    }
    if pre, mid, post :| text == pre + mid + post && Lower(mid) == word {
      PartMentioned(pre, mid, post, word);
    }
  }

  lemma LowerExample()
    ensures Lower("HASH_Verified 09") == "hash_verified 09"
  {}

  lemma EventClasses(eventType: string)
    ensures IsCollection(eventType) <==> Mentions(eventType, "capture") || Mentions(eventType, "incident_started")
    ensures IsValidation(eventType) <==> Mentions(eventType, "hash") || Mentions(eventType, "validat")
    ensures IsExportEvent(eventType) <==> Mentions(eventType, "export")
  {
    hide Contains, Mentions;
    MentionsExactly(eventType, "capture");
    MentionsExactly(eventType, "incident_started");
    MentionsExactly(eventType, "hash");
    MentionsExactly(eventType, "validat");
    MentionsExactly(eventType, "export");
  }

  // ---------------------------------------------------------------------------
  // Blockers
  // ---------------------------------------------------------------------------

  ghost predicate HasStatus(artifacts: seq<Artifact>, status: ArtifactStatus) {
    exists i :: 0 <= i < |artifacts| && artifacts[i].status == status
  }

  ghost predicate Validated(c: Case) {
    exists i :: 0 <= i < |c.events| && IsValidation(c.events[i])
  }

  ghost predicate Packaged(c: Case) {
    exists i :: 0 <= i < |c.exports| && c.exports[i] == Ready
  }

  ghost predicate NothingCaptured(c: Case) {
    c.artifacts != [] && !HasStatus(c.artifacts, Captured)
  }

  lemma {:induction false} CountLast(front: seq<Artifact>, last: Artifact, status: ArtifactStatus)
    ensures CountStatus(front + [last], status) == CountStatus(front, status) + if last.status == status then 1 else 0
    decreases |front|
  {
    if front == [] {
      assert [] + [last] == [last] && [last][1..] == [];
    } else {
      assert (front + [last])[1..] == front[1..] + [last];
      CountLast(front[1..], last, status);
    }
  }

  /** The positions, among the first n, of the artifacts with a status. */
  ghost function Positions(artifacts: seq<Artifact>, status: ArtifactStatus, n: nat): set<nat>
    requires n <= |artifacts|
  {
    set i | 0 <= i < n && artifacts[i].status == status
  }

  lemma OneMore(before: set<nat>, after: set<nat>, n: nat, more: bool)
    requires n !in before && forall i :: i in after <==> i in before || (i == n && more)
    ensures |after| == |before| + if more then 1 else 0
  {
    assert after == before + if more then {n} else {};
  }

  lemma PositionsNext(artifacts: seq<Artifact>, status: ArtifactStatus, n: nat)
    requires n < |artifacts|
    ensures |Positions(artifacts, status, n + 1)|
         == |Positions(artifacts, status, n)| + if artifacts[n].status == status then 1 else 0
  {
    var before, after := Positions(artifacts, status, n), Positions(artifacts, status, n + 1);
    OneMore(before, after, n, artifacts[n].status == status);
  }

  lemma {:induction false} CountIsPositions(artifacts: seq<Artifact>, status: ArtifactStatus, n: nat)
    requires n <= |artifacts|
    ensures CountStatus(artifacts[..n], status) == |Positions(artifacts, status, n)|
    decreases n
  {
    if n == 0 {
      assert Positions(artifacts, status, 0) == {} && artifacts[..0] == [];
    } else {
      hide Positions;
      CountIsPositions(artifacts, status, n - 1);
      PositionsNext(artifacts, status, n - 1);
      assert artifacts[..n] == artifacts[..n - 1] + [artifacts[n - 1]];
      CountLast(artifacts[..n - 1], artifacts[n - 1], status);
    }
  }

  lemma CountedExactly(artifacts: seq<Artifact>, status: ArtifactStatus)
    ensures CountStatus(artifacts, status) == |Positions(artifacts, status, |artifacts|)|
    ensures CountStatus(artifacts, status) > 0 <==> HasStatus(artifacts, status)
  {
    CountIsPositions(artifacts, status, |artifacts|);
    assert artifacts[..|artifacts|] == artifacts;
    var here := Positions(artifacts, status, |artifacts|);
    if here != {} {
      var i :| i in here;
      assert artifacts[i].status == status;
    }
    if i :| 0 <= i < |artifacts| && artifacts[i].status == status {
      assert i in here;
    }
  }

  /** The conditions of the six checks, in terms of the case's own lists. */
  lemma ConditionsExactly(c: Case)
    ensures var f := FactsOf(c);
      && (Blocks(EvidenceCaptureIncomplete, f) <==> HasStatus(c.artifacts, Pending))
      && (Blocks(NoCapturedEvidence, f) <==> NothingCaptured(c))
      && (Blocks(EvidenceUnavailable, f) <==> HasStatus(c.artifacts, Unavailable))
      && (Blocks(TimelineValidationMissing, f) <==> !Validated(c))
      && (Blocks(ExportNotRequested, f) <==> c.exports == [])
      && (Blocks(ExportNotReady, f) <==> c.exports != [] && !Packaged(c))
  {
    hide CountStatus, HasStatus;
    CountsAddUp(c.artifacts);
    CountedExactly(c.artifacts, Pending);
    CountedExactly(c.artifacts, Captured);
    CountedExactly(c.artifacts, Unavailable);
  }

  function If<T>(condition: bool, x: T): seq<T> {
    if condition then [x] else []
  }

  /** The blockers of a case, spelled out: which are listed, in which order, with which severity and flag. */
  lemma BlockersSpelledOut(c: Case)
    ensures BlockersOf(c).items
         == If(HasStatus(c.artifacts, Pending), Blocker(EvidenceCaptureIncomplete, Critical, true))
            + If(NothingCaptured(c), Blocker(NoCapturedEvidence, Critical, true))
            + If(HasStatus(c.artifacts, Unavailable), Blocker(EvidenceUnavailable, Important, true))
            + If(!Validated(c), Blocker(TimelineValidationMissing, Important, true))
            + If(c.exports == [], Blocker(ExportNotRequested, Optional, false))
            + If(c.exports != [] && !Packaged(c), Blocker(ExportNotReady, Optional, false))
  {
    hide HasStatus, NothingCaptured, Validated, Packaged, FactsOf, Blocks, BlockersUpTo;
    var f := FactsOf(c);
    ConditionsExactly(c);
    FirstBlockers(f);
  }

  lemma FirstBlockers(f: Facts)
    ensures BlockersUpTo(6, f)
         == If(Blocks(CodeAt(0), f), BlockerFor(CodeAt(0))) + If(Blocks(CodeAt(1), f), BlockerFor(CodeAt(1)))
            + If(Blocks(CodeAt(2), f), BlockerFor(CodeAt(2))) + If(Blocks(CodeAt(3), f), BlockerFor(CodeAt(3)))
            + If(Blocks(CodeAt(4), f), BlockerFor(CodeAt(4))) + If(Blocks(CodeAt(5), f), BlockerFor(CodeAt(5)))
  {
    hide Blocks, BlockerFor, CodeAt;
    BlockersStep(1, f);
    BlockersStep(2, f);
    BlockersStep(3, f);
    BlockersStep(4, f);
    BlockersStep(5, f);
    BlockersStep(6, f);
    assert BlockersUpTo(0, f) == [];
    hide BlockersUpTo;
    assert [] + If(Blocks(CodeAt(0), f), BlockerFor(CodeAt(0))) == If(Blocks(CodeAt(0), f), BlockerFor(CodeAt(0)));
  }

  lemma BlockersStep(n: nat, f: Facts)
    requires n > 0
    ensures BlockersUpTo(n, f) == BlockersUpTo(n - 1, f) + If(Blocks(CodeAt(n - 1), f), BlockerFor(CodeAt(n - 1)))
  {}

  /** The summary in terms of the listed blockers: how many there are of each severity, and the codes of
      those that block readiness. */
  lemma {:induction false} SummaryExactly(blockers: seq<Blocker>, code: Code)
    ensures var s := Summarize(blockers);
      && s.items == blockers && s.total == |blockers|
      && s.critical == Severe(blockers, Critical) && s.important == Severe(blockers, Important)
      && s.optional == Severe(blockers, Optional)
      && (code in s.readinessCodes
          <==> exists i :: 0 <= i < |blockers| && blockers[i].code == code && blockers[i].blocksReadiness)
  {
    SeverityIsSize(blockers, Critical);
    SeverityIsSize(blockers, Important);
    SeverityIsSize(blockers, Optional);
    CodesOfItems(blockers, code);
  }

  /** How many of the first n blockers have a severity. */
  ghost function SeverePositions(blockers: seq<Blocker>, severity: Severity, n: nat): set<nat>
    requires n <= |blockers|
  {
    set i | 0 <= i < n && blockers[i].severity == severity
  }

  ghost function Severe(blockers: seq<Blocker>, severity: Severity): nat {
    |SeverePositions(blockers, severity, |blockers|)|
  }

  lemma SeverePositionsNext(blockers: seq<Blocker>, severity: Severity, n: nat)
    requires n < |blockers|
    ensures |SeverePositions(blockers, severity, n + 1)|
         == |SeverePositions(blockers, severity, n)| + OneIf(blockers[n].severity == severity)
  {
    var before, after := SeverePositions(blockers, severity, n), SeverePositions(blockers, severity, n + 1);
    OneMore(before, after, n, blockers[n].severity == severity);
  }

  lemma {:induction false} SeverityIsPositions(blockers: seq<Blocker>, severity: Severity, n: nat)
    requires n <= |blockers|
    ensures CountSeverity(blockers[..n], severity) == |SeverePositions(blockers, severity, n)|
    decreases n
  {
    if n == 0 {
      assert SeverePositions(blockers, severity, 0) == {} && blockers[..0] == [];
    } else {
      hide SeverePositions;
      SeverityIsPositions(blockers, severity, n - 1);
      SeverePositionsNext(blockers, severity, n - 1);
      assert blockers[..n] == blockers[..n - 1] + [blockers[n - 1]];
      SeverityAppend(blockers[..n - 1], blockers[n - 1], severity);
    }
  }

  lemma SeverityIsSize(blockers: seq<Blocker>, severity: Severity)
    ensures CountSeverity(blockers, severity) == Severe(blockers, severity)
  {
    SeverityIsPositions(blockers, severity, |blockers|);
    assert blockers[..|blockers|] == blockers;
  }

  lemma {:induction false} CodesOfItems(blockers: seq<Blocker>, code: Code)
    ensures code in ReadinessCodes(blockers)
       <==> exists i :: 0 <= i < |blockers| && blockers[i].code == code && blockers[i].blocksReadiness
  {
    if blockers != [] {
      var tail := blockers[1..];
      CodesOfItems(tail, code);
      assert forall i | 0 <= i < |tail| :: tail[i] == blockers[i + 1];
      if i :| 0 <= i < |blockers| && blockers[i].code == code && blockers[i].blocksReadiness && i > 0 {
        assert tail[i - 1] == blockers[i];
      }
    }
  }

  /** When a code blocks readiness, in terms of the case's own lists. */
  lemma BlockingCodesSpelledOut(c: Case)
    ensures var codes := BlockersOf(c).readinessCodes;
      && (EvidenceCaptureIncomplete in codes <==> HasStatus(c.artifacts, Pending))
      && (NoCapturedEvidence in codes <==> NothingCaptured(c))
      && (EvidenceUnavailable in codes <==> HasStatus(c.artifacts, Unavailable))
      && (TimelineValidationMissing in codes <==> !Validated(c))
      && ExportNotRequested !in codes && ExportNotReady !in codes
  {
    hide HasStatus, NothingCaptured, Validated, FactsOf, BlockersOf, Blocks;
    ConditionsExactly(c);
    ReadinessCodesExactly(c, EvidenceCaptureIncomplete);
    ReadinessCodesExactly(c, NoCapturedEvidence);
    ReadinessCodesExactly(c, EvidenceUnavailable);
    ReadinessCodesExactly(c, TimelineValidationMissing);
    ReadinessCodesExactly(c, ExportNotRequested);
    ReadinessCodesExactly(c, ExportNotReady);
  }

  // ---------------------------------------------------------------------------
  // Readiness
  // ---------------------------------------------------------------------------

  /** Closed and exported cases are reported as such, and no other case is. */
  lemma SettledExactly(status: CaseStatus, c: Case)
    ensures SnapshotOf(status, c).readiness == ClosedState <==> status == Closed
    ensures SnapshotOf(status, c).readiness == ExportedState <==> status == Exported
  {
    hide CompletenessOf, BlockersOf;
  }

  // ---------------------------------------------------------------------------
  // Completeness
  // ---------------------------------------------------------------------------

  ghost function Captures(artifacts: seq<Artifact>): nat {
    |Positions(artifacts, Captured, |artifacts|)|
  }

  ghost predicate Collected(c: Case) {
    exists i :: 0 <= i < |c.events| && IsCollection(c.events[i])
  }

  ghost predicate Announced(c: Case) {
    exists i :: 0 <= i < |c.events| && IsExportEvent(c.events[i])
  }

  function One(b: bool): nat {
    if b then 1 else 0
  }

  /** The three dimensions, spelled out: the nearest percent of captured artifacts, one third for each of
      the three timeline checks, and all or nothing for a ready export. */
  lemma DimensionsSpelledOut(c: Case)
    ensures var d := CompletenessOf(c).dimensions;
      && |d| == 3 && d[0].name == EvidenceCapture && d[1].name == CustodyTimeline && d[2].name == ExportReadiness
      && d[0].earned == Captures(c.artifacts) && d[0].possible == |c.artifacts|
      && (c.artifacts == [] ==> d[0].percent == 100)
      && -|c.artifacts| <= 2 * (100 * Captures(c.artifacts) - d[0].percent * |c.artifacts|) <= |c.artifacts|
      && d[1].earned == One(Collected(c)) + One(Validated(c)) + One(Announced(c)) && d[1].possible == 3
      && d[1].percent == (if d[1].earned == 0 then 0 else if d[1].earned == 1 then 33 else if d[1].earned == 2 then 67 else 100)
      && d[2].earned == One(Packaged(c)) && d[2].possible == 1 && d[2].percent == 100 * One(Packaged(c))
  {
    hide MissingArtifacts, StatusForPercent, RoundHalfEven, CountStatus, Captures, AllMissing, OverallPercent;
    var f := FactsOf(c);
    CountsAddUp(c.artifacts);
    CapturesCounted(c.artifacts);
    ThirdsOf(ChecksPassed(f));
    if c.artifacts != [] {
      NotClamped(f.captured, Total(f));
      RoundIsNearest(100 * f.captured, Total(f));
    }
  }

  lemma CapturesCounted(artifacts: seq<Artifact>)
    ensures CountStatus(artifacts, Captured) == Captures(artifacts)
  {
    CountedExactly(artifacts, Captured);
  }

  /** The overall percent is the whole number nearest to 0.6, 0.25 and 0.15 of the three dimensions. */
  lemma PercentSpelledOut(c: Case)
    ensures var p, d := CompletenessOf(c).percent, CompletenessOf(c).dimensions;
      |d| == 3 && -50 <= 60 * d[0].percent + 25 * d[1].percent + 15 * d[2].percent - 100 * p <= 50
  {
    hide MissingArtifacts, StatusForPercent, RoundHalfEven, FactsOf;
    var f := FactsOf(c);
    RoundIsNearest(WeightedHundredths(ArtifactPercent(f), TimelinePercent(f), ExportPercent(f)), 100);
  }

  /** The status bands, for the case and for every dimension. */
  lemma StatusBands(c: Case)
    ensures InBand(CompletenessOf(c).percent, CompletenessOf(c).status)
    ensures forall i | 0 <= i < |CompletenessOf(c).dimensions| ::
              InBand(CompletenessOf(c).dimensions[i].percent, CompletenessOf(c).dimensions[i].status)
  {
    hide RoundHalfEven, FactsOf;
  }

  predicate InBand(percent: int, status: CompletenessStatus) {
    match status
    case Incomplete => percent < 40
    case Partial => 40 <= percent < 75
    case MostlyComplete => 75 <= percent < 100
    case Complete => 100 <= percent
  }

  lemma MissingParts(c: Case)
    ensures CompletenessOf(c).missing
         == MissingArtifacts(c.artifacts)
            + ((If(!Collected(c), MissingCollection) + If(!Validated(c), MissingValidation)
                + If(!Announced(c), MissingExportEvent)) + If(!Packaged(c), MissingReadyPackage))
  {
    hide RoundHalfEven, StatusForPercent, CountStatus, MissingArtifacts, AllMissing, CalcPercent;
    MissingOfThree(EvidenceDimension(c), TimelineDimension(FactsOf(c)), ExportDimension(FactsOf(c)));
  }

  lemma InThree<T>(x: T, a: seq<T>, b: seq<T>, c: seq<T>)
    ensures x in a + (b + c) <==> x in a || x in b || x in c
  {}

  /** What is listed as missing: every artifact that is not captured, the failed timeline checks, and the
      package if none is ready. */
  lemma MissingExactly(c: Case, x: MissingItem)
    ensures x in CompletenessOf(c).missing
      <==> match x
           case MissingArtifact(t, status) =>
             status != Captured && exists i :: 0 <= i < |c.artifacts| && c.artifacts[i] == Artifact(t, status)
           case MissingCollection => !Collected(c)
           case MissingValidation => !Validated(c)
           case MissingExportEvent => !Announced(c)
           case MissingReadyPackage => !Packaged(c)
  {
    hide CompletenessOf, MissingArtifacts, Collected, Validated, Announced, Packaged;
    MissingParts(c);
    MissingArtifactsExactly(c.artifacts, x);
    InThree(x, MissingArtifacts(c.artifacts), If(!Collected(c), MissingCollection) + If(!Validated(c), MissingValidation)
                                             + If(!Announced(c), MissingExportEvent), If(!Packaged(c), MissingReadyPackage));
    if x.MissingArtifact? {
      assert forall i | 0 <= i < |c.artifacts| ::
          x == MissingArtifact(c.artifacts[i].artifactType, c.artifacts[i].status)
          <==> c.artifacts[i] == Artifact(x.artifactType, x.status);
    }
  }

  lemma {:induction false} MissingArtifactsExactly(artifacts: seq<Artifact>, x: MissingItem)
    ensures x in MissingArtifacts(artifacts)
       <==> exists i :: 0 <= i < |artifacts| && artifacts[i].status != Captured
                        && x == MissingArtifact(artifacts[i].artifactType, artifacts[i].status)
  {
    if artifacts != [] {
      var tail := artifacts[1..];
      MissingArtifactsExactly(tail, x);
      assert forall i | 0 <= i < |tail| :: tail[i] == artifacts[i + 1];
      if i :| 0 <= i < |artifacts| && artifacts[i].status != Captured
              && x == MissingArtifact(artifacts[i].artifactType, artifacts[i].status) && i > 0 {
        assert tail[i - 1] == artifacts[i];
      }
    }
  }
}
