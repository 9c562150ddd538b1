/** What completeness, blockers and readiness mean together, and how they move along a run. */
module CaseTheorems {
  import opened CaseScoring
  import opened Statuses

  // ---------------------------------------------------------------------------
  // Rounding
  // ---------------------------------------------------------------------------

  /** Rounding gives a nearest integer, and the even one of two. */
  lemma RoundIsNearest(num: int, den: int)
    requires den > 0
    ensures var p := RoundHalfEven(num, den);
      && -den <= 2 * (num - p * den) <= den
      && (2 * (num - p * den) == den || 2 * (p * den - num) == den ==> p % 2 == 0)
  {
    var q, r := num / den, num % den;
    assert num == q * den + r;
    assert (q + 1) * den == q * den + den;
  }

  lemma Multiples(k: int, den: int)
    requires den > 0
    ensures k >= 1 ==> k * den >= den
    ensures k <= -1 ==> k * den <= -den
    ensures k >= 2 ==> k * den >= 2 * den
  {}

  /** A value within less than half of p rounds to p. */
  lemma RoundTo(num: int, den: int, p: int)
    requires den > 0 && -den < 2 * (num - p * den) < den
    ensures RoundHalfEven(num, den) == p
  {
    RoundIsNearest(num, den);
    var p' := RoundHalfEven(num, den);
    assert (p - p') * den == p * den - p' * den;
    Multiples(p - p', den);
  }

  lemma RoundMonotone(num: int, num': int, den: int)
    requires den > 0 && num <= num'
    ensures RoundHalfEven(num, den) <= RoundHalfEven(num', den)
  {
    if num < num' {
      RoundIsNearest(num, den);
      RoundIsNearest(num', den);
      RoundsApart(num, num', den, RoundHalfEven(num, den), RoundHalfEven(num', den));
    }
  }

  lemma RoundsApart(num: int, num': int, den: int, p: int, p': int)
    requires den > 0 && num < num'
    requires -den <= 2 * (num - p * den) && 2 * (num' - p' * den) <= den
    ensures p <= p'
  {
    assert (p - p') * den == p * den - p' * den;
    Multiples(p - p', den);
  }

  lemma PercentBounds(earned: nat, possible: nat)
    ensures 0 <= CalcPercent(earned, possible) <= 100
  {}

  /** 100 is reached exactly when the missing part is at most 1/200 of the whole. */
  lemma FullPercentExactly(earned: nat, possible: nat)
    requires earned <= possible
    ensures CalcPercent(earned, possible) == 100 <==> 200 * (possible - earned) <= possible
  {
    if possible > 0 {
      RoundIsNearest(100 * earned, possible);
      NearHundred(100 * earned, possible, RoundHalfEven(100 * earned, possible));
    }
  }

  lemma NearHundred(num: int, den: int, p: int)
    requires den > 0 && num <= 100 * den && -den <= 2 * (num - p * den) <= den
    requires 2 * (num - p * den) == den || 2 * (p * den - num) == den ==> p % 2 == 0
    ensures p >= 100 <==> 200 * den - 2 * num <= den
  {
    assert (p - 100) * den == p * den - 100 * den;
    Multiples(p - 100, den);
    Multiples(p - 99, den);
    assert (p - 99) * den == p * den - 99 * den;
  }

  lemma PercentMonotone(earned: nat, earned': nat, possible: nat)
    requires earned <= earned'
    ensures CalcPercent(earned, possible) <= CalcPercent(earned', possible)
  {
    if possible > 0 {
      RoundMonotone(100 * earned, 100 * earned', possible);
    }
  }

  /** The quotient lies exactly between two whole percents. */
  predicate Tie(earned: nat, possible: nat)
    requires possible > 0
  {
    200 * earned % (2 * possible) == possible
  }

  lemma TieExactly(earned: nat, possible: nat, p: int)
    requires possible > 0
    ensures 2 * (100 * earned - p * possible) == possible || 2 * (p * possible - 100 * earned) == possible
            ==> Tie(earned, possible)
  {
    var n, m := 200 * earned, 2 * possible;
    var q := if 2 * (100 * earned - p * possible) == possible then p else p - 1;
    if n == q * m + possible {
      DivisionIsUnique(n, m, q, possible);
    }
    assert q * m == 2 * (q * possible);
    assert (p - 1) * possible == p * possible - possible;
  }

  lemma DivisionIsUnique(n: int, m: int, q: int, r: int)
    requires m > 0 && 0 <= r < m && n == q * m + r
    ensures n % m == r
  {
    assert (n / m - q) * m == r - n % m;
    Multiples(n / m - q, m);
  }

  /** Within half a unit of an integer, an inequality between integers survives. */
  lemma WholeInequality(x: real, num: int, multiple: int, den: int)
    requires -0.5 < x - num as real < 0.5
    requires -0.5 * den as real <= x - multiple as real <= 0.5 * den as real
    ensures -den <= 2 * (num - multiple) <= den
  {
    assert (2 * (num - multiple)) as real < (den + 1) as real;
    assert (-den - 1) as real < (2 * (num - multiple)) as real;
  }

  /** All integers that are nearest, from either side, are neighbours of the rounded one. */
  lemma NearestAreNeighbours(num: int, den: int, p: int)
    requires den > 0 && -den <= 2 * (num - p * den) <= den
    ensures -1 <= p - RoundHalfEven(num, den) <= 1
  {
    var p' := RoundHalfEven(num, den);
    RoundIsNearest(num, den);
    assert (p - p') * den == p * den - p' * den;
    Multiples(p - p', den);
    Multiples(p' - p, den);
    assert (p' - p) * den == p' * den - p * den;
  }

  /** For at most the whole, no percent is clamped. */
  lemma NotClamped(earned: nat, possible: nat)
    requires 0 < possible && earned <= possible
    ensures CalcPercent(earned, possible) == RoundHalfEven(100 * earned, possible)
  {
    RoundMonotone(0, 100 * earned, possible);
    RoundMonotone(100 * earned, 100 * possible, possible);
    RoundTo(100 * possible, possible, 100);
    RoundTo(0, possible, 0);
  }

  /** Computing the quotient with a small error (less than half of 1/possible) and rounding either way
      gives the same percent, except at a tie, where a neighbour is possible. */
  lemma PercentUnderError(earned: nat, possible: nat, v: real, p: int)
    requires 0 < possible && earned <= possible
    requires -0.5 < v * possible as real - (100 * earned) as real < 0.5
    requires -0.5 * possible as real <= v * possible as real - (p * possible) as real <= 0.5 * possible as real
    ensures -1 <= p - CalcPercent(earned, possible) <= 1
    ensures !Tie(earned, possible) ==> p == CalcPercent(earned, possible)
  {
    hide RoundHalfEven, CalcPercent, Tie;
    WholeInequality(v * possible as real, 100 * earned, p * possible, possible);
    NotClamped(earned, possible);
    NearestAreNeighbours(100 * earned, possible, p);
    TieExactly(earned, possible, p);
    if !Tie(earned, possible) {
      RoundTo(100 * earned, possible, p);
    }
  }

  /** A tie at which exact arithmetic says 58. */
  lemma TieExample()
    ensures Tie(23, 40) && CalcPercent(23, 40) == 58
  {}

  /** The reachable percents of the three-check timeline. */
  lemma ThirdsOf(k: nat)
    requires k <= 3
    ensures CalcPercent(k, 3) == if k == 0 then 0 else if k == 1 then 33 else if k == 2 then 67 else 100
  {}

  /** Over all reachable dimension percents the weighted sum stays at least 0.05 away from a half. */
  lemma WeightedSumAvoidsHalves(f: Facts, q: int)
    ensures var h := WeightedHundredths(ArtifactPercent(f), TimelinePercent(f), ExportPercent(f));
      h <= 100 * q + 45 || h >= 100 * q + 55
  {
    ThirdsOf(ChecksPassed(f));
    WeightsAvoidHalves(ArtifactPercent(f), TimelinePercent(f), ExportPercent(f), q);
  }

  lemma WeightsAvoidHalves(a: int, t: int, e: int, q: int)
    requires (t == 0 || t == 33 || t == 67 || t == 100) && (e == 0 || e == 100)
    ensures WeightedHundredths(a, t, e) <= 100 * q + 45 || WeightedHundredths(a, t, e) >= 100 * q + 55
  {}

  /** So every nearest-integer rounding of the weighted sum gives the same percent. */
  lemma RoundingModeIrrelevant(f: Facts, p: int)
    requires var h := WeightedHundredths(ArtifactPercent(f), TimelinePercent(f), ExportPercent(f));
      -50 <= h - 100 * p <= 50
    ensures p == OverallPercent(f)
  {
    WeightedSumAvoidsHalves(f, p);
    WeightedSumAvoidsHalves(f, p - 1);
    RoundTo(WeightedHundredths(ArtifactPercent(f), TimelinePercent(f), ExportPercent(f)), 100, p);
  }

  // ---------------------------------------------------------------------------
  // Complete
  // ---------------------------------------------------------------------------

  lemma CompleteFacts(f: Facts)
    ensures OverallPercent(f) >= 100
       <==> ArtifactPercent(f) == 100 && f.collected && f.validated && f.exported && f.readyExport
  {
    ThirdsOf(ChecksPassed(f));
    PercentBounds(f.captured, Total(f));
    var a, t, e := ArtifactPercent(f), TimelinePercent(f), ExportPercent(f);
    RoundIsNearest(WeightedHundredths(a, t, e), 100);
  }

  /** Status `complete` means: the timeline and the export are full, and at most one artifact in two
      hundred is uncaptured. */
  lemma CompleteExactly(c: Case)
    ensures var f := FactsOf(c);
      CompletenessOf(c).status == Complete
      <==> && f.collected && f.validated && f.exported && f.readyExport
           && 200 * (|c.artifacts| - CountStatus(c.artifacts, Captured)) <= |c.artifacts|
  {
    CountsAddUp(c.artifacts);
    CompleteFacts(FactsOf(c));
    FullPercentExactly(FactsOf(c).captured, Total(FactsOf(c)));
  }

  lemma {:induction false} NoMissingArtifacts(artifacts: seq<Artifact>)
    ensures MissingArtifacts(artifacts) == [] <==> CountStatus(artifacts, Captured) == |artifacts|
    ensures CountStatus(artifacts, Captured) <= |artifacts|
  {
    if artifacts != [] {
      NoMissingArtifacts(artifacts[1..]);
    }
  }

  lemma MissingOfThree(x: Dimension, y: Dimension, z: Dimension)
    ensures AllMissing([x, y, z]) == x.missing + (y.missing + z.missing)
  {
    assert [z][1..] == [] && z.missing + [] == z.missing;
    assert AllMissing([z]) == z.missing;
    assert [y, z][1..] == [z];
    assert [x, y, z][1..] == [y, z];
  }

  lemma NothingMissingExactly(c: Case)
    ensures var f := FactsOf(c);
      CompletenessOf(c).missing == []
      <==> && CountStatus(c.artifacts, Captured) == |c.artifacts|
           && f.collected && f.validated && f.exported && f.readyExport
  {
    NoMissingArtifacts(c.artifacts);
    MissingOfThree(EvidenceDimension(c), TimelineDimension(FactsOf(c)), ExportDimension(FactsOf(c)));
  }

  /** With fewer than 200 artifacts `complete` and an empty list of missing items are the same. */
  lemma CompleteMeansNothingMissing(c: Case)
    requires |c.artifacts| < 200
    ensures CompletenessOf(c).status == Complete <==> CompletenessOf(c).missing == []
  {
    CompleteExactly(c);
    NothingMissingExactly(c);
    NoMissingArtifacts(c.artifacts);
  }

  /** Without a bound: the two disagree exactly for a full timeline and export with some uncaptured
      artifacts that are at most one in two hundred. */
  lemma CompleteDisagreesExactly(c: Case)
    ensures var f, uncaptured := FactsOf(c), |c.artifacts| - CountStatus(c.artifacts, Captured);
      (CompletenessOf(c).status == Complete <==> CompletenessOf(c).missing == [])
      <==> !(&& f.collected && f.validated && f.exported && f.readyExport
             && 0 < uncaptured && 200 * uncaptured <= |c.artifacts|)
  {
    CompleteExactly(c);
    NothingMissingExactly(c);
    NoMissingArtifacts(c.artifacts);
  }

  /** n captured artifacts and a pending one, with a full timeline and a ready export. */
  function AlmostCaptured(n: nat): Case {
    Case(seq(n, i => Artifact("photo", Captured)) + [Artifact("video", Pending)],
         ["capture", "hash", "export"], [Ready])
  }

  lemma {:induction false} AlmostCapturedCount(n: nat)
    ensures CountStatus(AlmostCaptured(n).artifacts, Captured) == n
  {
    var artifacts := AlmostCaptured(n).artifacts;
    if n == 0 {
      assert artifacts == [Artifact("video", Pending)];
    } else {
      assert artifacts[1..] == AlmostCaptured(n - 1).artifacts;
      AlmostCapturedCount(n - 1);
    }
  }

  lemma LowerText(s: string)
    requires forall i | 0 <= i < |s| :: 'a' <= s[i] <= 'z'
    ensures Lower(s) == s && Contains(Lower(s), s)
  {
    assert s[0..] == s;
  }

  lemma FullTimeline(n: nat)
    ensures var f := FactsOf(AlmostCaptured(n)); f.collected && f.validated && f.exported && f.readyExport
  {
    hide Contains, Lower, CountStatus;
    var c := AlmostCaptured(n);
    LowerText("capture");
    LowerText("hash");
    LowerText("export");
    assert IsCollection(c.events[0]) && IsValidation(c.events[1]) && IsExportEvent(c.events[2]);
    assert c.exports[0] == Ready;
  }

  /** Such a case: 199 artifacts captured, one pending. */
  lemma CompleteWithSomethingMissingExample()
    ensures CompletenessOf(AlmostCaptured(199)).status == Complete
    ensures CompletenessOf(AlmostCaptured(199)).missing != []
  {
    AlmostCapturedCount(199);
    FullTimeline(199);
    CompleteWithSomethingMissing(AlmostCaptured(199));
  }

  /** From 200 artifacts on they differ: a complete case can still list a missing artifact. */
  lemma CompleteWithSomethingMissing(c: Case)
    requires |c.artifacts| >= 200 && CountStatus(c.artifacts, Captured) == |c.artifacts| - 1
    requires var f := FactsOf(c); f.collected && f.validated && f.exported && f.readyExport
    ensures CompletenessOf(c).status == Complete && CompletenessOf(c).missing != []
  {
    CompleteExactly(c);
    NothingMissingExactly(c);
  }

  // ---------------------------------------------------------------------------
  // Blockers
  // ---------------------------------------------------------------------------

  lemma SeverityAppend(a: seq<Blocker>, b: Blocker, severity: Severity)
    ensures CountSeverity(a + [b], severity) == CountSeverity(a, severity) + OneIf(b.severity == severity)
  {
    if a == [] {
      assert [] + [b] == [b] && [b][1..] == [];
    } else {
      assert (a + [b])[1..] == a[1..] + [b];
      SeverityAppend(a[1..], b, severity);
    }
  }

  lemma CodesAppend(a: seq<Blocker>, b: Blocker)
    ensures ReadinessCodes(a + [b]) == ReadinessCodes(a) + if b.blocksReadiness then [b.code] else []
  {
    if a == [] {
      assert [] + [b] == [b] && [b][1..] == [];
    } else {
      assert (a + [b])[1..] == a[1..] + [b];
      CodesAppend(a[1..], b);
      var mine, rest := if a[0].blocksReadiness then [a[0].code] else [], ReadinessCodes(a[1..]);
      var last := if b.blocksReadiness then [b.code] else [];
      assert mine + (rest + last) == (mine + rest) + last;
    }
  }

  function SeverityUpTo(n: nat, f: Facts, severity: Severity): nat {
    if n == 0 then 0
    else SeverityUpTo(n - 1, f, severity)
         + OneIf(Blocks(CodeAt(n - 1), f) && BlockerFor(CodeAt(n - 1)).severity == severity)
  }

  lemma {:induction false} CountsByCode(n: nat, f: Facts, severity: Severity)
    ensures CountSeverity(BlockersUpTo(n, f), severity) == SeverityUpTo(n, f, severity)
  {
    if n > 0 {
      CountsByCode(n - 1, f, severity);
      var before, b := BlockersUpTo(n - 1, f), BlockerFor(CodeAt(n - 1));
      SeverityAppend(before, b, severity);
      assert before + [] == before;
    }
  }

  /** The position of a code in the order of the checks. */
  function PlaceOf(code: Code): (k: nat)
    ensures k < CODES && CodeAt(k) == code
  {
    match code
    case EvidenceCaptureIncomplete => 0
    case NoCapturedEvidence => 1
    case EvidenceUnavailable => 2
    case TimelineValidationMissing => 3
    case ExportNotRequested => 4
    case ExportNotReady => 5
  }

  lemma PlaceIsUnique(k: nat)
    requires k < CODES
    ensures PlaceOf(CodeAt(k)) == k && BlockerFor(CodeAt(k)).code == CodeAt(k)
  {}

  lemma BlockersNext(n: nat, f: Facts)
    requires n > 0
    ensures BlockersUpTo(n, f)
         == if Blocks(CodeAt(n - 1), f) then BlockersUpTo(n - 1, f) + [BlockerFor(CodeAt(n - 1))] else BlockersUpTo(n - 1, f)
  {
    assert BlockersUpTo(n - 1, f) + [] == BlockersUpTo(n - 1, f);
  }

  lemma {:induction false} CodesByCode(n: nat, f: Facts, code: Code)
    requires n <= CODES
    ensures code in ReadinessCodes(BlockersUpTo(n, f))
       <==> PlaceOf(code) < n && Blocks(code, f) && BlockerFor(code).blocksReadiness
  {
    if n > 0 {
      hide Blocks, BlockerFor, CodeAt, PlaceOf, ReadinessCodes, BlockersUpTo;
      var last := CodeAt(n - 1);
      CodesByCode(n - 1, f, code);
      PlaceIsUnique(n - 1);
      BlockersNext(n, f);
      if Blocks(last, f) {
        CodesAppend(BlockersUpTo(n - 1, f), BlockerFor(last));
        assert PlaceOf(code) == n - 1 <==> code == last;
      }
    }
  }

  /** A code is listed as stopping readiness exactly when its condition holds and it is not optional. */
  lemma ReadinessCodesExactly(c: Case, code: Code)
    ensures code in BlockersOf(c).readinessCodes
       <==> Blocks(code, FactsOf(c)) && code != ExportNotRequested && code != ExportNotReady
  {
    hide BlockersUpTo, FactsOf;
    CodesByCode(CODES, FactsOf(c), code);
  }

  lemma {:induction false} ListedByCode(n: nat, f: Facts, b: Blocker)
    requires n <= CODES
    ensures b in BlockersUpTo(n, f) <==> PlaceOf(b.code) < n && Blocks(b.code, f) && b == BlockerFor(b.code)
  {
    hide Blocks, BlockerFor, CodeAt, PlaceOf;
    if n > 0 {
      ListedByCode(n - 1, f, b);
      PlaceIsUnique(n - 1);
    }
  }

  /** The listed blockers are exactly the codes whose condition holds, each with its own severity. */
  lemma BlockersListedExactly(c: Case, b: Blocker)
    ensures b in BlockersOf(c).items <==> Blocks(b.code, FactsOf(c)) && b == BlockerFor(b.code)
  {
    hide BlockersUpTo, Blocks, BlockerFor, FactsOf;
    ListedByCode(CODES, FactsOf(c), b);
  }

  lemma {:induction false} SeveritiesAddUp(blockers: seq<Blocker>)
    ensures CountSeverity(blockers, Critical) + CountSeverity(blockers, Important) + CountSeverity(blockers, Optional)
         == |blockers|
  {
    if blockers != [] {
      SeveritiesAddUp(blockers[1..]);
    }
  }

  /** The severities: pending or entirely missing evidence is critical, unavailable evidence and a
      missing validation are important, so there are never more than two of either. */
  lemma SeverityCounts(c: Case)
    ensures var f, b := FactsOf(c), BlockersOf(c);
      && b.critical == OneIf(f.pending > 0) + OneIf(f.captured == 0 && Total(f) > 0)
      && b.important == OneIf(f.unavailable > 0) + OneIf(!f.validated) <= 2
      && b.optional == OneIf(!f.readyExport)
      && b.total == b.critical + b.important + b.optional
  {
    var f := FactsOf(c);
    SeveritiesAddUp(BlockersUpTo(CODES, f));
    CountsByCode(6, f, Critical);
    CountsByCode(6, f, Important);
    CountsByCode(6, f, Optional);
    assert f.readyExport ==> f.anyExport;
    SeveritySix(f, Critical);
    SeveritySix(f, Important);
    SeveritySix(f, Optional);
  }

  lemma SeveritySix(f: Facts, severity: Severity)
    ensures SeverityUpTo(6, f, severity)
         == OneIf(f.pending > 0 && severity == Critical) + OneIf(f.captured == 0 && Total(f) > 0 && severity == Critical)
            + OneIf(f.unavailable > 0 && severity == Important) + OneIf(!f.validated && severity == Important)
            + OneIf(!f.anyExport && severity == Optional) + OneIf(f.anyExport && !f.readyExport && severity == Optional)
  {
    assert SeverityUpTo(1, f, severity) == OneIf(f.pending > 0 && severity == Critical);
    assert SeverityUpTo(2, f, severity)
        == SeverityUpTo(1, f, severity) + OneIf(f.captured == 0 && Total(f) > 0 && severity == Critical);
    assert SeverityUpTo(3, f, severity) == SeverityUpTo(2, f, severity) + OneIf(f.unavailable > 0 && severity == Important);
    assert SeverityUpTo(4, f, severity) == SeverityUpTo(3, f, severity) + OneIf(!f.validated && severity == Important);
    assert SeverityUpTo(5, f, severity) == SeverityUpTo(4, f, severity) + OneIf(!f.anyExport && severity == Optional);
  }

  lemma ReadinessBlocked(c: Case)
    ensures var f := FactsOf(c);
      BlockersOf(c).readinessCodes == []
      <==> f.pending == 0 && f.unavailable == 0 && f.validated
  {
    var codes := BlockersOf(c).readinessCodes;
    ReadinessCodesExactly(c, EvidenceCaptureIncomplete);
    ReadinessCodesExactly(c, EvidenceUnavailable);
    ReadinessCodesExactly(c, TimelineValidationMissing);
    if codes != [] {
      assert codes[0] in codes;
      ReadinessCodesExactly(c, codes[0]);
    }
  }

  // ---------------------------------------------------------------------------
  // Readiness
  // ---------------------------------------------------------------------------

  predicate Open(status: CaseStatus) {
    status != Closed && status != Exported
  }

  predicate AllCaptured(c: Case) {
    forall i | 0 <= i < |c.artifacts| :: c.artifacts[i].status == Captured
  }

  lemma {:induction false} CapturedCount(artifacts: seq<Artifact>)
    ensures CountStatus(artifacts, Captured) <= |artifacts|
    ensures CountStatus(artifacts, Captured) == |artifacts|
       <==> forall i | 0 <= i < |artifacts| :: artifacts[i].status == Captured
  {
    if artifacts != [] {
      CapturedCount(artifacts[1..]);
      assert forall i | 1 <= i < |artifacts| :: artifacts[i] == artifacts[1..][i - 1];
    }
  }

  /** What ready means in terms of the facts. */
  predicate ReadyFacts(f: Facts) {
    f.pending == 0 && f.unavailable == 0 && f.validated && f.readyExport && (f.collected || f.exported)
  }

  lemma NinetyPercent(f: Facts)
    requires f.pending == 0 && f.unavailable == 0 && f.validated
    ensures OverallPercent(f) >= 90 <==> f.readyExport && (f.collected || f.exported)
  {
    ThirdsOf(ChecksPassed(f));
    FullPercentExactly(f.captured, f.captured);
    RoundIsNearest(WeightedHundredths(100, TimelinePercent(f), ExportPercent(f)), 100);
  }

  /** Exact meaning of ready: the case is open, every artifact is captured, some event is a hash or
      validation event, some export is ready, and some event is a collection or an export event. */
  lemma ReadyExactly(status: CaseStatus, c: Case)
    ensures SnapshotOf(status, c).readiness == ReadyToExport
       <==> && Open(status) && AllCaptured(c) && AnyValidation(c.events) && AnyReady(c.exports)
            && (AnyCollection(c.events) || AnyExportEvent(c.events))
  {
    var f := FactsOf(c);
    CountsAddUp(c.artifacts);
    CapturedCount(c.artifacts);
    ReadinessBlocked(c);
    if f.pending == 0 && f.unavailable == 0 && f.validated {
      NinetyPercent(f);
    }
  }

  /** Exact meaning of not ready: an open case with pending evidence, or with evidence none of which
      is captured. */
  lemma NotReadyExactly(status: CaseStatus, c: Case)
    ensures SnapshotOf(status, c).readiness == NotReady
       <==> && Open(status)
            && (CountStatus(c.artifacts, Pending) > 0 || (c.artifacts != [] && CountStatus(c.artifacts, Captured) == 0))
  {
    var f := FactsOf(c);
    CountsAddUp(c.artifacts);
    SeverityCounts(c);
    ReadinessBlocked(c);
  }

  lemma OnlyCodesMatter(status: CaseStatus, p: int, q: int, blockers: BlockerSummary)
    requires blockers.readinessCodes != [] || p == q
    ensures DeriveReadiness(status, p, blockers) == DeriveReadiness(status, q, blockers)
  {}

  lemma FullyCaptured(c: Case)
    ensures AllCaptured(c) ==> ArtifactPercent(FactsOf(c)) == 100
    ensures !AllCaptured(c) ==> BlockersOf(c).readinessCodes != []
  {
    hide BlockersOf;
    CountsAddUp(c.artifacts);
    CapturedCount(c.artifacts);
    ReadinessBlocked(c);
    FullPercentExactly(FactsOf(c).captured, Total(FactsOf(c)));
  }

  /** Readiness never depends on how the artifact percent was rounded: whatever percent up to 100 is
      used for incompletely captured evidence, the state is the same. */
  lemma ReadinessIgnoresRounding(status: CaseStatus, c: Case, a: int)
    requires 0 <= a <= 100 && (AllCaptured(c) ==> a == 100)
    ensures var f := FactsOf(c);
      DeriveReadiness(status, RoundHalfEven(WeightedHundredths(a, TimelinePercent(f), ExportPercent(f)), 100), BlockersOf(c))
      == SnapshotOf(status, c).readiness
  {
    hide AllCaptured, BlockersOf, FactsOf, ArtifactPercent, TimelinePercent, ExportPercent, WeightedHundredths,
         RoundHalfEven, DeriveReadiness;
    var f := FactsOf(c);
    FullyCaptured(c);
    OnlyCodesMatter(status, RoundHalfEven(WeightedHundredths(a, TimelinePercent(f), ExportPercent(f)), 100),
                    OverallPercent(f), BlockersOf(c));
  }

  /** And an artifact percent that is off by one moves the overall percent by at most one. */
  lemma OverallUnderError(f: Facts, a: int)
    requires -1 <= a - ArtifactPercent(f) <= 1
    ensures var p := RoundHalfEven(WeightedHundredths(a, TimelinePercent(f), ExportPercent(f)), 100);
      -1 <= p - OverallPercent(f) <= 1
  {
    RoundIsNearest(WeightedHundredths(a, TimelinePercent(f), ExportPercent(f)), 100);
    RoundIsNearest(WeightedHundredths(ArtifactPercent(f), TimelinePercent(f), ExportPercent(f)), 100);
  }

  // ---------------------------------------------------------------------------
  // Monotonicity along a run
  // ---------------------------------------------------------------------------

  function RankOf(state: ReadinessState): nat {
    match state
    case NotReady => 0
    case ConditionallyReady => 1
    case ReadyToExport => 2
    case ExportedState => 3
    case ClosedState => 4
  }

  /** f' is at least as far as f, over the same artifacts. */
  predicate AtLeast(f': Facts, f: Facts) {
    && Total(f') == Total(f) && f.captured <= f'.captured && f'.pending <= f.pending
    && (f.collected ==> f'.collected) && (f.validated ==> f'.validated) && (f.exported ==> f'.exported)
    && (f.readyExport ==> f'.readyExport)
  }

  lemma PercentFollowsFacts(f: Facts, f': Facts)
    requires AtLeast(f', f)
    ensures OverallPercent(f) <= OverallPercent(f')
  {
    PercentMonotone(f.captured, f'.captured, Total(f));
    PercentMonotone(ChecksPassed(f), ChecksPassed(f'), 3);
    RoundMonotone(WeightedHundredths(ArtifactPercent(f), TimelinePercent(f), ExportPercent(f)),
                  WeightedHundredths(ArtifactPercent(f'), TimelinePercent(f'), ExportPercent(f')), 100);
  }

  /** More facts never lower the percent or the readiness. */
  lemma SnapshotMonotone(status: CaseStatus, c: Case, c': Case)
    requires AtLeast(FactsOf(c'), FactsOf(c))
    ensures SnapshotOf(status, c).completeness.percent <= SnapshotOf(status, c').completeness.percent
    ensures RankOf(SnapshotOf(status, c).readiness) <= RankOf(SnapshotOf(status, c').readiness)
  {
    CountsAddUp(c.artifacts);
    CountsAddUp(c'.artifacts);
    PercentFollowsFacts(FactsOf(c), FactsOf(c'));
    if Open(status) {
      NotReadyFacts(status, c);
      NotReadyFacts(status, c');
      ReadyByFacts(status, c);
      ReadyByFacts(status, c');
    }
  }

  lemma NotReadyFacts(status: CaseStatus, c: Case)
    requires Open(status)
    ensures var f := FactsOf(c);
      SnapshotOf(status, c).readiness == NotReady <==> f.pending > 0 || (Total(f) > 0 && f.captured == 0)
  {
    CountsAddUp(c.artifacts);
    NotReadyExactly(status, c);
  }

  lemma ReadyByFacts(status: CaseStatus, c: Case)
    requires Open(status)
    ensures SnapshotOf(status, c).readiness == ReadyToExport <==> ReadyFacts(FactsOf(c))
  {
    var f := FactsOf(c);
    ReadinessBlocked(c);
    if f.pending == 0 && f.unavailable == 0 && f.validated {
      NinetyPercent(f);
    }
  }

  datatype Step =
    | CaptureArtifact(index: nat) | MarkUnavailable(index: nat)
    | AppendEvent(eventType: string) | AddExport(status: ExportStatus) | MakeReady(index: nat)

  function SettleArtifact(c: Case, i: nat, status: ArtifactStatus): Case {
    if i < |c.artifacts| && c.artifacts[i].status == Pending
    then c.(artifacts := c.artifacts[i := c.artifacts[i].(status := status)]) else c
  }

  function Apply(c: Case, step: Step): Case {
    match step
    case CaptureArtifact(i) => SettleArtifact(c, i, Captured)
    case MarkUnavailable(i) => SettleArtifact(c, i, Unavailable)
    case AppendEvent(e) => c.(events := c.events + [e])
    case AddExport(x) => c.(exports := c.exports + [x])
    case MakeReady(i) => if i < |c.exports| then c.(exports := c.exports[i := Ready]) else c
  }

  lemma {:induction false} CountUpdate(artifacts: seq<Artifact>, i: nat, x: Artifact, status: ArtifactStatus)
    requires i < |artifacts|
    ensures CountStatus(artifacts[i := x], status) + OneIf(artifacts[i].status == status)
         == CountStatus(artifacts, status) + OneIf(x.status == status)
    decreases i
  {
    var artifacts' := artifacts[i := x];
    if i == 0 {
      assert artifacts'[1..] == artifacts[1..];
    } else {
      assert artifacts'[1..] == artifacts[1..][i - 1 := x];
      CountUpdate(artifacts[1..], i - 1, x, status);
    }
  }

  lemma SettleAdvances(c: Case, i: nat, status: ArtifactStatus)
    requires status != Pending
    ensures AtLeast(FactsOf(SettleArtifact(c, i, status)), FactsOf(c))
  {
    if i < |c.artifacts| && c.artifacts[i].status == Pending {
      var x := c.artifacts[i].(status := status);
      CountUpdate(c.artifacts, i, x, Pending);
      CountUpdate(c.artifacts, i, x, Captured);
      CountUpdate(c.artifacts, i, x, Unavailable);
    }
  }

  lemma AnyPrefix(events: seq<string>, more: seq<string>)
    ensures AnyCollection(events) ==> AnyCollection(events + more)
    ensures AnyValidation(events) ==> AnyValidation(events + more)
    ensures AnyExportEvent(events) ==> AnyExportEvent(events + more)
  {
    assert forall i | 0 <= i < |events| :: (events + more)[i] == events[i];
  }

  lemma StepAdvances(c: Case, step: Step)
    ensures AtLeast(FactsOf(Apply(c, step)), FactsOf(c))
  {
    match step
    case CaptureArtifact(i) => SettleAdvances(c, i, Captured);
    case MarkUnavailable(i) => SettleAdvances(c, i, Unavailable);
    case AppendEvent(e) => AnyPrefix(c.events, [e]);
    case AddExport(x) => assert forall i | 0 <= i < |c.exports| :: (c.exports + [x])[i] == c.exports[i];
    case MakeReady(i) =>
      if i < |c.exports| {
        assert c.exports[i := Ready][i] == Ready;
      }
  }

  function Run(c: Case, steps: seq<Step>): Case
    decreases |steps|
  {
    if steps == [] then c else Run(Apply(c, steps[0]), steps[1..])
  }

  /** Along any run with the case status fixed, percent and readiness never decrease. */
  lemma {:induction false} RunIsMonotone(status: CaseStatus, c: Case, steps: seq<Step>)
    ensures SnapshotOf(status, c).completeness.percent <= SnapshotOf(status, Run(c, steps)).completeness.percent
    ensures RankOf(SnapshotOf(status, c).readiness) <= RankOf(SnapshotOf(status, Run(c, steps)).readiness)
    decreases |steps|
  {
    if steps != [] {
      StepAdvances(c, steps[0]);
      SnapshotMonotone(status, c, Apply(c, steps[0]));
      RunIsMonotone(status, Apply(c, steps[0]), steps[1..]);
    }
  }

  /** The list view, which scores without events and exports, never reports more than the detail view. */
  lemma ListViewNeverExceedsDetail(status: CaseStatus, c: Case)
    ensures SnapshotOf(status, c.(events := [], exports := [])).completeness.percent
         <= SnapshotOf(status, c).completeness.percent
    ensures RankOf(SnapshotOf(status, c.(events := [], exports := [])).readiness)
         <= RankOf(SnapshotOf(status, c).readiness)
  {
    var bare := c.(events := [], exports := []);
    assert AtLeast(FactsOf(c), FactsOf(bare));
    SnapshotMonotone(status, bare, c);
  }
}
