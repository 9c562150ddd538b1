/** The priority order of the command center (frontend/lib/commandCenter.ts). */
module PriorityOrder {
  import opened CaseScoring
  import opened CaseTheorems
  import opened Dashboard
  import opened Statuses

  datatype Priority = Priority(score: int, updated: int)

  predicate Urgent(item: QueueItem) {
    item.critical > 0 || item.status == Escalated
  }

  /** Date.getTime(): whole milliseconds. */
  function Updated(item: QueueItem): int {
    if item.lastActivity.At? then item.lastActivity.microseconds / 1000
    else if item.createdAt.At? then item.createdAt.microseconds / 1000 else 0
  }

  function Score(item: QueueItem): int {
    (if Urgent(item) then 10_000 else 0)
    + (if item.readiness == NotReady then 4_000 else 0)
    + item.important * 500
    + (if item.status == AwaitingEvidence then 350 else 0)
    + (if item.owned then 0 else 150)
    + (if item.percent < 100 then 100 - item.percent else 0)
  }

  function PriorityOf(item: QueueItem): Priority {
    Priority(Score(item), Updated(item))
  }

  method PriorityScore(item: QueueItem) returns (priority: Priority)
    ensures priority == PriorityOf(item)
  {
    var score := 0;
    if item.critical > 0 || item.status == Escalated {
      score := score + 10_000;
    }
    if item.readiness == NotReady {
      score := score + 4_000;
    }
    score := score + item.important * 500;
    if item.status == AwaitingEvidence {
      score := score + 350;
    }
    if !item.owned {
      score := score + 150;
    }
    score := score + if 100 - item.percent > 0 then 100 - item.percent else 0;
    priority := Priority(score, Updated(item));
  }

  /** The comparator puts a strictly before b. */
  predicate Before(a: Priority, b: Priority) {
    a.score > b.score || (a.score == b.score && a.updated > b.updated)
  }

  /** x goes in front of the first item it does not have to follow, hence in front of its equals. */
  function Insert(x: QueueItem, sorted: seq<QueueItem>): seq<QueueItem> {
    if sorted == [] || !Before(PriorityOf(sorted[0]), PriorityOf(x)) then [x] + sorted
    else [sorted[0]] + Insert(x, sorted[1..])
  }

  /** A stable sort by the comparator. */
  function SortPriorityCases(items: seq<QueueItem>): seq<QueueItem> {
    if items == [] then [] else Insert(items[0], SortPriorityCases(items[1..]))
  }

  // ---------------------------------------------------------------------------
  // Sorted and stable, which determines the result
  // ---------------------------------------------------------------------------

  predicate InOrder(s: seq<QueueItem>) {
    forall i, j | 0 <= i < j < |s| :: !Before(PriorityOf(s[j]), PriorityOf(s[i]))
  }

  /** The items of one priority, in their order. */
  function OfPriority(s: seq<QueueItem>, p: Priority): seq<QueueItem> {
    if s == [] then [] else (if PriorityOf(s[0]) == p then [s[0]] else []) + OfPriority(s[1..], p)
  }

  /** A permutation that keeps equal items in their order. */
  ghost predicate StablePermutation(s: seq<QueueItem>, items: seq<QueueItem>) {
    && multiset(s) == multiset(items)
    && forall p :: OfPriority(s, p) == OfPriority(items, p)
  }

  lemma {:induction false} InsertKeepsItems(x: QueueItem, s: seq<QueueItem>)
    ensures multiset(Insert(x, s)) == multiset{x} + multiset(s)
    decreases |s|
  {
    if s != [] && Before(PriorityOf(s[0]), PriorityOf(x)) {
      InsertKeepsItems(x, s[1..]);
      assert s == [s[0]] + s[1..];
    }
  }

  lemma {:induction false} InsertKeepsOrder(x: QueueItem, s: seq<QueueItem>, p: Priority)
    ensures OfPriority(Insert(x, s), p) == (if PriorityOf(x) == p then [x] else []) + OfPriority(s, p)
    decreases |s|
  {
    if s == [] || !Before(PriorityOf(s[0]), PriorityOf(x)) {
      assert ([x] + s)[1..] == s;
    } else {
      InsertKeepsOrder(x, s[1..], p);
      var t := Insert(x, s[1..]);
      assert ([s[0]] + t)[1..] == t;
      assert [] + OfPriority(t, p) == OfPriority(t, p) && [] + OfPriority(s[1..], p) == OfPriority(s[1..], p);
    }
  }

  lemma {:induction false} InsertInOrder(x: QueueItem, s: seq<QueueItem>)
    requires InOrder(s)
    ensures InOrder(Insert(x, s))
    decreases |s|
  {
    if s != [] && Before(PriorityOf(s[0]), PriorityOf(x)) {
      var t := Insert(x, s[1..]);
      InsertInOrder(x, s[1..]);
      InsertKeepsItems(x, s[1..]);
      forall i | 0 <= i < |t| ensures !Before(PriorityOf(t[i]), PriorityOf(s[0])) {
        assert t[i] in multiset(t);
        assert t[i] == x || t[i] in s[1..];
      }
    }
  }

  /** The result is a stable permutation of the queue, in order of (score, updated) descending. */
  lemma {:induction false} SortIsStable(items: seq<QueueItem>)
    ensures InOrder(SortPriorityCases(items)) && StablePermutation(SortPriorityCases(items), items)
    decreases |items|
  {
    if items != [] {
      SortIsStable(items[1..]);
      var t := SortPriorityCases(items[1..]);
      InsertInOrder(items[0], t);
      forall p ensures OfPriority(Insert(items[0], t), p) == OfPriority(items, p) {
        InsertKeepsOrder(items[0], t, p);
      }
      InsertKeepsItems(items[0], t);
      assert items == [items[0]] + items[1..];
    }
  }

  lemma {:induction false} OfPriorityMember(s: seq<QueueItem>, p: Priority)
    ensures OfPriority(s, p) != [] <==> exists i | 0 <= i < |s| :: PriorityOf(s[i]) == p
  {
    if s != [] {
      OfPriorityMember(s[1..], p);
      if i :| 1 <= i < |s| && PriorityOf(s[i]) == p {
        assert s[1..][i - 1] == s[i];
      }
      if i :| 0 <= i < |s[1..]| && PriorityOf(s[1..][i]) == p {
        assert s[i + 1] == s[1..][i];
      }
    }
  }

  lemma FirstIsFirst(s: seq<QueueItem>, t: seq<QueueItem>)
    requires InOrder(s) && InOrder(t) && s != [] && t != []
    requires forall p :: OfPriority(s, p) == OfPriority(t, p)
    ensures s[0] == t[0]
  {
    var p, q := PriorityOf(s[0]), PriorityOf(t[0]);
    OfPriorityMember(s, q);
    OfPriorityMember(t, p);
    OfPriorityMember(t, q);
    OfPriorityMember(s, p);
    assert OfPriority(s, p)[0] == s[0] && OfPriority(t, q)[0] == t[0];
  }

  lemma OfPriorityTail(s: seq<QueueItem>, p: Priority)
    requires s != []
    ensures OfPriority(s[1..], p) == if PriorityOf(s[0]) == p then OfPriority(s, p)[1..] else OfPriority(s, p)
  {
    assert [] + OfPriority(s[1..], p) == OfPriority(s[1..], p);
  }

  /** Any two sorts that are in order and stable agree, whatever algorithm they use. */
  lemma {:induction false} StableSortIsUnique(s: seq<QueueItem>, t: seq<QueueItem>)
    requires InOrder(s) && InOrder(t) && forall p :: OfPriority(s, p) == OfPriority(t, p)
    ensures s == t
    decreases |s|
  {
    if s == [] {
      if t != [] {
        assert OfPriority(t, PriorityOf(t[0])) == OfPriority(s, PriorityOf(t[0]));
        assert false;
      }
    } else {
      assert t != [] by { assert OfPriority(t, PriorityOf(s[0])) == OfPriority(s, PriorityOf(s[0])); }
      FirstIsFirst(s, t);
      forall p ensures OfPriority(s[1..], p) == OfPriority(t[1..], p) {
        assert OfPriority(s, p) == OfPriority(t, p);
        OfPriorityTail(s, p);
        OfPriorityTail(t, p);
      }
      StableSortIsUnique(s[1..], t[1..]);
      assert s == [s[0]] + s[1..] && t == [t[0]] + t[1..];
    }
  }

  // ---------------------------------------------------------------------------
  // Items that come from the backend
  // ---------------------------------------------------------------------------

  lemma OverallBounds(f: Facts)
    ensures 0 <= OverallPercent(f) <= 100
  {
    ThirdsOf(ChecksPassed(f));
    PercentBounds(f.captured, Total(f));
    RoundMonotone(0, WeightedHundredths(ArtifactPercent(f), TimelinePercent(f), ExportPercent(f)), 100);
    RoundMonotone(WeightedHundredths(ArtifactPercent(f), TimelinePercent(f), ExportPercent(f)), 10_000, 100);
  }

  /** What the backend guarantees of an item. */
  predicate Plausible(item: QueueItem) {
    && item.important <= 2 && 0 <= item.percent <= 100
    && (item.readiness == NotReady ==> item.critical > 0)
  }

  lemma ItemIsPlausible(tables: Tables, incident: Incident)
    ensures Plausible(ItemFor(incident, SnapshotFor(tables, incident)))
  {
    SeverityCounts(CaseOf(tables, incident.id));
    OverallBounds(FactsOf(CaseOf(tables, incident.id)));
  }

  lemma {:induction false} QueueIsPlausible(tables: Tables, incidents: seq<Incident>, filter: BlockerFilter)
    ensures forall i | 0 <= i < |QueueOf(tables, incidents, filter)| :: Plausible(QueueOf(tables, incidents, filter)[i])
    decreases |incidents|
  {
    if incidents != [] {
      QueueIsPlausible(tables, incidents[..|incidents| - 1], filter);
      ItemIsPlausible(tables, incidents[|incidents| - 1]);
    }
  }

  /** A case that is neither critical nor escalated scores at most 1600, every other at least 10000. */
  lemma ScoreSeparates(item: QueueItem)
    requires Plausible(item)
    ensures if Urgent(item) then Score(item) >= 10_000 else Score(item) <= 1_600
  {}

  predicate UrgentFirst(s: seq<QueueItem>) {
    forall i, j | 0 <= i < j < |s| :: Urgent(s[j]) ==> Urgent(s[i])
  }

  /** For every queue the backend returns, the critical or escalated cases come first. */
  lemma UrgentCasesFormAPrefix(tables: Tables, incidents: seq<Incident>, filter: BlockerFilter)
    ensures UrgentFirst(SortPriorityCases(QueueOf(tables, incidents, filter)))
  {
    var items := QueueOf(tables, incidents, filter);
    var s := SortPriorityCases(items);
    SortIsStable(items);
    QueueIsPlausible(tables, incidents, filter);
    forall i, j | 0 <= i < j < |s| && Urgent(s[j]) ensures Urgent(s[i]) {
      assert s[i] in multiset(s) && s[j] in multiset(s);
      assert s[i] in items && s[j] in items;
      ScoreSeparates(s[i]);
      ScoreSeparates(s[j]);
      assert !Before(PriorityOf(s[j]), PriorityOf(s[i]));
    }
  }

  // ---------------------------------------------------------------------------
  // The score and the order, spelled out
  // ---------------------------------------------------------------------------

  /** A case with nothing against it scores zero. */
  lemma ScoreOfCalm(item: QueueItem)
    requires item.critical == 0 && item.status != Escalated && item.status != AwaitingEvidence
    requires item.readiness != NotReady && item.important == 0 && item.owned && item.percent >= 100
    ensures Score(item) == 0
  {}

  /** What each circumstance adds, all else equal. */
  lemma ScoreAdds(item: QueueItem, n: nat)
    ensures Score(item.(owned := false)) == Score(item.(owned := true)) + 150
    ensures item.readiness != NotReady ==> Score(item.(readiness := NotReady)) == Score(item) + 4_000
    ensures Score(item.(important := n + 1)) == Score(item.(important := n)) + 500
    ensures item.critical == 0 && item.status != AwaitingEvidence && item.status != Escalated ==>
      && Score(item.(critical := n + 1)) == Score(item) + 10_000
      && Score(item.(status := Escalated)) == Score(item) + 10_000
      && Score(item.(status := Escalated, critical := n + 1)) == Score(item) + 10_000
      && Score(item.(status := AwaitingEvidence)) == Score(item) + 350
    ensures n < 100 ==> Score(item.(percent := n)) == Score(item.(percent := n + 1)) + 1
    ensures item.readiness != NotReady && item.status != AwaitingEvidence && item.status != Escalated ==>
      forall status, readiness | status != AwaitingEvidence && status != Escalated && readiness != NotReady ::
        Score(item.(status := status, readiness := readiness)) == Score(item)
  {}

  /** The time is the last activity, or else the creation, in milliseconds that have passed. */
  lemma UpdatedExactly(item: QueueItem)
    ensures var u := PriorityOf(item).updated;
      match item.lastActivity
      case At(t) => 1_000 * u <= t < 1_000 * (u + 1)
      case Unknown =>
        match item.createdAt
        case At(t) => 1_000 * u <= t < 1_000 * (u + 1)
        case Unknown => u == 0
    ensures PriorityOf(item).score == Score(item)
  {}

  /** Earlier items score higher, or as high and were updated no earlier. */
  lemma SortedExactly(items: seq<QueueItem>, i: nat, j: nat)
    requires i < j < |SortPriorityCases(items)|
    ensures var x, y := PriorityOf(SortPriorityCases(items)[i]), PriorityOf(SortPriorityCases(items)[j]);
      x.score > y.score || (x.score == y.score && x.updated >= y.updated)
  {
    SortIsStable(items);
    var s := SortPriorityCases(items);
    assert !Before(PriorityOf(s[j]), PriorityOf(s[i]));
  }
}
