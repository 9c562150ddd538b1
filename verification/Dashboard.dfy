/** The case queue and the dashboard metrics, built from one pass over the rows of all incidents
    (backend/app/case_ops/metrics.py and service.py, backend/app/api/routes_admin.py). */
module Dashboard {
  import opened CaseScoring
  import opened Statuses

  /** A database row of some incident. */
  datatype Row<T> = Row(incident: nat, item: T)

  datatype Timestamp = Unknown | At(microseconds: int)
  datatype Incident = Incident(id: nat, status: CaseStatus, createdAt: Timestamp, owned: bool, lastActivity: Timestamp)

  /** The rows of the three tables, in query order. */
  datatype Tables = Tables(artifacts: seq<Row<Artifact>>, events: seq<Row<string>>, exports: seq<Row<ExportStatus>>)

  // ---------------------------------------------------------------------------
  // Grouping
  // ---------------------------------------------------------------------------

  /** The simple form: the items of the rows that belong to the incident. */
  function ItemsOf<T>(rows: seq<Row<T>>, incident: nat): seq<T> {
    if rows == [] then []
    else ItemsOf(rows[..|rows| - 1], incident)
         + if rows[|rows| - 1].incident == incident then [rows[|rows| - 1].item] else []
  }

  /** dict.get(incident, []) */
  function Lookup<T>(groups: map<nat, seq<T>>, incident: nat): seq<T> {
    if incident in groups then groups[incident] else []
  }

  /** The one-pass index agrees with filtering the raw rows, for every incident. */
  ghost predicate Groups<T>(groups: map<nat, seq<T>>, rows: seq<Row<T>>) {
    forall id :: Lookup(groups, id) == ItemsOf(rows, id)
  }

  lemma GroupsNext<T>(groups: map<nat, seq<T>>, rows: seq<Row<T>>, i: nat)
    requires i < |rows| && Groups(groups, rows[..i])
    ensures Groups(groups[rows[i].incident := Lookup(groups, rows[i].incident) + [rows[i].item]], rows[..i + 1])
  {
    assert rows[..i + 1][..i] == rows[..i];
    var groups' := groups[rows[i].incident := Lookup(groups, rows[i].incident) + [rows[i].item]];
    forall id ensures Lookup(groups', id) == ItemsOf(rows[..i + 1], id) {
      assert Lookup(groups, id) == ItemsOf(rows[..i], id);
      assert ItemsOf(rows[..i], id) + [] == ItemsOf(rows[..i], id);
    }
  }

  method GroupByIncident<T>(rows: seq<Row<T>>) returns (groups: map<nat, seq<T>>)
    ensures Groups(groups, rows)
  {
    groups := map[];
    for i := 0 to |rows|
      invariant Groups(groups, rows[..i])
    {
      GroupsNext(groups, rows, i);
      groups := groups[rows[i].incident := Lookup(groups, rows[i].incident) + [rows[i].item]];
    }
    assert rows[..|rows|] == rows;
  }

  function CaseOf(tables: Tables, incident: nat): Case {
    Case(ItemsOf(tables.artifacts, incident), ItemsOf(tables.events, incident), ItemsOf(tables.exports, incident))
  }

  function SnapshotFor(tables: Tables, incident: Incident): Snapshot {
    SnapshotOf(incident.status, CaseOf(tables, incident.id))
  }

  datatype Index = Index(
    artifacts: map<nat, seq<Artifact>>, events: map<nat, seq<string>>, exports: map<nat, seq<ExportStatus>>)

  ghost predicate Indexes(index: Index, tables: Tables) {
    Groups(index.artifacts, tables.artifacts) && Groups(index.events, tables.events) && Groups(index.exports, tables.exports)
  }

  method IndexTables(tables: Tables) returns (index: Index)
    ensures Indexes(index, tables)
  {
    var artifacts := GroupByIncident(tables.artifacts);
    var events := GroupByIncident(tables.events);
    var exports := GroupByIncident(tables.exports);
    index := Index(artifacts, events, exports);
  }

  /** Scoring an incident from the index gives what scoring it from its own filtered rows gives. */
  method ScoreIncident(index: Index, incident: Incident, ghost tables: Tables) returns (snapshot: Snapshot)
    requires Indexes(index, tables)
    ensures snapshot == SnapshotFor(tables, incident)
  {
    var id := incident.id;
    var c := Case(Lookup(index.artifacts, id), Lookup(index.events, id), Lookup(index.exports, id));
    snapshot := BuildCaseSnapshot(incident.status, c);
  }

  // ---------------------------------------------------------------------------
  // The queue
  // ---------------------------------------------------------------------------

  datatype BlockerFilter = NoFilter | AnyBlocker | CriticalOnly | ImportantOnly | NoBlocker

  predicate Matches(snapshot: Snapshot, filter: BlockerFilter) {
    match filter
    case NoFilter => true
    case AnyBlocker => snapshot.blockers.total > 0
    case CriticalOnly => snapshot.blockers.critical > 0
    case ImportantOnly => snapshot.blockers.important > 0
    case NoBlocker => snapshot.blockers.total == 0
  }

  datatype QueueItem = QueueItem(
    incident: nat, status: CaseStatus, owned: bool, readiness: ReadinessState, percent: int,
    critical: nat, important: nat, createdAt: Timestamp, lastActivity: Timestamp)

  function ItemFor(incident: Incident, snapshot: Snapshot): QueueItem {
    QueueItem(incident.id, incident.status, incident.owned, snapshot.readiness, snapshot.completeness.percent,
              snapshot.blockers.critical, snapshot.blockers.important, incident.createdAt, incident.lastActivity)
  }

  /** The simple form of the queue: every incident scored from its own filtered rows. */
  function QueueOf(tables: Tables, incidents: seq<Incident>, filter: BlockerFilter): seq<QueueItem> {
    if incidents == [] then []
    else
      var last := incidents[|incidents| - 1];
      QueueOf(tables, incidents[..|incidents| - 1], filter)
      + if Matches(SnapshotFor(tables, last), filter) then [ItemFor(last, SnapshotFor(tables, last))] else []
  }

  method QueryIncidentQueue(tables: Tables, incidents: seq<Incident>, filter: BlockerFilter)
      returns (items: seq<QueueItem>)
    ensures items == QueueOf(tables, incidents, filter)
  {
    hide SnapshotFor;
    var index := IndexTables(tables);
    items := [];
    for i := 0 to |incidents|
      invariant items == QueueOf(tables, incidents[..i], filter)
    {
      var snapshot := ScoreIncident(index, incidents[i], tables);
      QueueNext(tables, incidents, filter, i);
      if Matches(snapshot, filter) {
        items := items + [ItemFor(incidents[i], snapshot)];
      }
    }
    assert incidents[..|incidents|] == incidents;
  }

  lemma QueueNext(tables: Tables, incidents: seq<Incident>, filter: BlockerFilter, i: nat)
    requires i < |incidents|
    ensures var snapshot := SnapshotFor(tables, incidents[i]);
      QueueOf(tables, incidents[..i + 1], filter)
      == if Matches(snapshot, filter) then QueueOf(tables, incidents[..i], filter) + [ItemFor(incidents[i], snapshot)]
         else QueueOf(tables, incidents[..i], filter)
  {
    assert incidents[..i + 1][..i] == incidents[..i];
    var before := QueueOf(tables, incidents[..i], filter);
    assert before + [] == before;
  }

  // ---------------------------------------------------------------------------
  // Metrics
  // ---------------------------------------------------------------------------

  const DAY := 86_400_000_000

  datatype Aging = Aging(averageDays: real, p95: int, over24h: nat, over72h: nat, over7d: nat)
  datatype Metrics = Metrics(
    open: nat, notReady: nat, conditionallyReady: nat, readyForExport: nat, exported: nat, closed: nat,
    withCritical: nat, withImportant: nat, aging: Aging)

  function CountState(snapshots: seq<Snapshot>, state: ReadinessState): nat {
    if snapshots == [] then 0
    else CountState(snapshots[1..], state) + if snapshots[0].readiness == state then 1 else 0
  }

  function CountOpen(snapshots: seq<Snapshot>): nat {
    if snapshots == [] then 0
    else CountOpen(snapshots[1..]) + if snapshots[0].readiness != ClosedState then 1 else 0
  }

  function CountCritical(snapshots: seq<Snapshot>): nat {
    if snapshots == [] then 0
    else CountCritical(snapshots[1..]) + if snapshots[0].blockers.critical > 0 then 1 else 0
  }

  function CountImportant(snapshots: seq<Snapshot>): nat {
    if snapshots == [] then 0
    else CountImportant(snapshots[1..]) + if snapshots[0].blockers.important > 0 then 1 else 0
  }

  /** Ages in microseconds, never negative. */
  function Ages(created: seq<int>, now: int): seq<int> {
    seq(|created|, i requires 0 <= i < |created| => if now > created[i] then now - created[i] else 0)
  }

  function Sum(values: seq<int>): int {
    if values == [] then 0 else values[0] + Sum(values[1..])
  }

  function CountAtLeast(values: seq<int>, bound: int): nat {
    if values == [] then 0 else CountAtLeast(values[1..], bound) + if values[0] >= bound then 1 else 0
  }

  function CountAtMost(values: seq<int>, bound: int): nat {
    if values == [] then 0 else CountAtMost(values[1..], bound) + if values[0] <= bound then 1 else 0
  }

  function Insert(x: int, sorted: seq<int>): seq<int> {
    if sorted == [] || x <= sorted[0] then [x] + sorted else [sorted[0]] + Insert(x, sorted[1..])
  }

  /** Python's sorted() on numbers. */
  function Sort(values: seq<int>): seq<int> {
    if values == [] then [] else Insert(values[0], Sort(values[1..]))
  }

  function PercentileRank(percentile: nat, n: nat): int {
    var r := RoundHalfEven(percentile * (n - 1), 100);
    if r > n - 1 then n - 1 else if r < 0 then 0 else r
  }

  function Percentile(values: seq<int>, percentile: nat): int
    requires percentile <= 100
  {
    if values == [] then 0
    else
      SortFacts(values);
      Sort(values)[PercentileRank(percentile, |values|)]
  }

  function MetricsOf(snapshots: seq<Snapshot>, created: seq<int>, now: int): Metrics {
    var ages := Ages(created, now);
    Metrics(CountOpen(snapshots), CountState(snapshots, NotReady), CountState(snapshots, ConditionallyReady),
            CountState(snapshots, ReadyToExport), CountState(snapshots, ExportedState),
            CountState(snapshots, ClosedState), CountCritical(snapshots), CountImportant(snapshots),
            Aging(if ages == [] then 0.0 else Sum(ages) as real / |ages| as real / DAY as real,
                  Percentile(ages, 95), CountAtLeast(ages, DAY), CountAtLeast(ages, 3 * DAY), CountAtLeast(ages, 7 * DAY)))
  }

  function Snapshots(tables: Tables, incidents: seq<Incident>): seq<Snapshot> {
    seq(|incidents|, i requires 0 <= i < |incidents| => SnapshotFor(tables, incidents[i]))
  }

  function CreatedTimes(incidents: seq<Incident>): seq<int> {
    if incidents == [] then []
    else
      var last := incidents[|incidents| - 1];
      CreatedTimes(incidents[..|incidents| - 1]) + if last.createdAt.At? then [last.createdAt.microseconds] else []
  }

  /** The loop of build_dashboard_snapshot. */
  method ScoreAll(index: Index, incidents: seq<Incident>, ghost tables: Tables)
      returns (snapshots: seq<Snapshot>, created: seq<int>)
    requires Indexes(index, tables)
    ensures snapshots == Snapshots(tables, incidents) && created == CreatedTimes(incidents)
  {
    hide SnapshotFor;
    ghost var all := Snapshots(tables, incidents);
    snapshots, created := [], [];
    for i := 0 to |incidents|
      invariant snapshots == all[..i]
      invariant created == CreatedTimes(incidents[..i])
    {
      var snapshot := ScoreIncident(index, incidents[i], tables);
      TakeNext(all, i);
      snapshots := snapshots + [snapshot];
      CreatedNext(incidents, i);
      if incidents[i].createdAt.At? {
        created := created + [incidents[i].createdAt.microseconds];
      }
    }
    TakeAll(all);
    TakeAll(incidents);
  }

  /** The dashboard: group once, score every incident, then count. */
  method BuildDashboard(tables: Tables, incidents: seq<Incident>, now: int) returns (metrics: Metrics)
    ensures metrics == MetricsOf(Snapshots(tables, incidents), CreatedTimes(incidents), now)
  {
    var index := IndexTables(tables);
    var snapshots, created := ScoreAll(index, incidents, tables);
    metrics := MetricsOf(snapshots, created, now);
  }

  lemma TakeNext<T>(s: seq<T>, i: nat)
    requires i < |s|
    ensures s[..i + 1] == s[..i] + [s[i]]
  {}

  lemma TakeAll<T>(s: seq<T>)
    ensures s[..|s|] == s
  {}

  lemma CreatedNext(incidents: seq<Incident>, i: nat)
    requires i < |incidents|
    ensures CreatedTimes(incidents[..i + 1])
         == if incidents[i].createdAt.At? then CreatedTimes(incidents[..i]) + [incidents[i].createdAt.microseconds]
            else CreatedTimes(incidents[..i])
  {
    assert incidents[..i + 1][..i] == incidents[..i];
    assert CreatedTimes(incidents[..i]) + [] == CreatedTimes(incidents[..i]);
  }

  // ---------------------------------------------------------------------------
  // Properties
  // ---------------------------------------------------------------------------

  predicate Ascending(s: seq<int>) {
    forall i, j | 0 <= i <= j < |s| :: s[i] <= s[j]
  }

  lemma {:induction false} InsertFacts(x: int, s: seq<int>)
    requires Ascending(s)
    ensures Ascending(Insert(x, s)) && multiset(Insert(x, s)) == multiset(s) + multiset{x}
    ensures |Insert(x, s)| == |s| + 1
    decreases |s|
  {
    if s != [] && x > s[0] {
      InsertFacts(x, s[1..]);
      assert s == [s[0]] + s[1..];
      var t := Insert(x, s[1..]);
      forall i | 0 <= i < |t| ensures s[0] <= t[i] {
        assert t[i] in multiset(t);
        assert t[i] == x || t[i] in s[1..];
      }
    }
  }

  /** Sorting: ascending, and the same values. */
  lemma {:induction false} SortFacts(values: seq<int>)
    ensures Ascending(Sort(values)) && multiset(Sort(values)) == multiset(values) && |Sort(values)| == |values|
  {
    if values != [] {
      SortFacts(values[1..]);
      InsertFacts(values[0], Sort(values[1..]));
      assert values == [values[0]] + values[1..];
    }
  }

  /** The five state counters add up, and open is all but closed. */
  lemma {:induction false} CountersAddUp(snapshots: seq<Snapshot>)
    ensures CountState(snapshots, NotReady) + CountState(snapshots, ConditionallyReady)
            + CountState(snapshots, ReadyToExport) + CountState(snapshots, ExportedState)
            + CountState(snapshots, ClosedState) == |snapshots|
    ensures CountOpen(snapshots) == |snapshots| - CountState(snapshots, ClosedState)
  {
    if snapshots != [] {
      CountersAddUp(snapshots[1..]);
    }
  }

  lemma {:induction false} CountAtLeastAntitone(values: seq<int>, low: int, high: int)
    requires low <= high
    ensures CountAtLeast(values, high) <= CountAtLeast(values, low)
  {
    if values != [] {
      CountAtLeastAntitone(values[1..], low, high);
    }
  }

  lemma {:induction false} InsertCounts(x: int, s: seq<int>, bound: int)
    ensures CountAtMost(Insert(x, s), bound) == CountAtMost(s, bound) + if x <= bound then 1 else 0
    ensures CountAtLeast(Insert(x, s), bound) == CountAtLeast(s, bound) + if x >= bound then 1 else 0
    decreases |s|
  {
    if s == [] || x <= s[0] {
      assert ([x] + s)[1..] == s;
    } else {
      InsertCounts(x, s[1..], bound);
      assert ([s[0]] + Insert(x, s[1..]))[1..] == Insert(x, s[1..]);
    }
  }

  lemma {:induction false} SortCounts(values: seq<int>, bound: int)
    ensures CountAtMost(Sort(values), bound) == CountAtMost(values, bound)
    ensures CountAtLeast(Sort(values), bound) == CountAtLeast(values, bound)
  {
    if values != [] {
      SortCounts(values[1..], bound);
      InsertCounts(values[0], Sort(values[1..]), bound);
    }
  }

  lemma {:induction false} AtMostAlong(s: seq<int>, n: nat, bound: int)
    requires n <= |s| && forall i | 0 <= i < n :: s[i] <= bound
    ensures CountAtMost(s, bound) >= n
  {
    if n > 0 {
      AtMostAlong(s[1..], n - 1, bound);
    }
  }

  lemma {:induction false} AtLeastFrom(s: seq<int>, n: nat, bound: int)
    requires n <= |s| && forall i | n <= i < |s| :: s[i] >= bound
    ensures CountAtLeast(s, bound) >= |s| - n
  {
    if n < |s| {
      AtLeastFrom(s[1..], if n == 0 then 0 else n - 1, bound);
    }
  }

  lemma RankBounds(n: nat)
    requires n >= 1
    ensures var r := PercentileRank(95, n);
      0 <= r < n && 100 * (r + 1) >= 95 * n - 45 && 100 * (n - r) >= 5 * n + 45
  {}

  /** The p95 value is one of the values; at least 0.95 n - 0.45 of them are not above it and at
      least 0.05 n + 0.45 are not below it. */
  lemma P95Bounds(values: seq<int>)
    requires values != []
    ensures var p := Percentile(values, 95);
      && p in values
      && 100 * CountAtMost(values, p) >= 95 * |values| - 45
      && 100 * CountAtLeast(values, p) >= 5 * |values| + 45
  {
    SortFacts(values);
    var s, r := Sort(values), PercentileRank(95, |values|);
    RankBounds(|values|);
    AtMostAlong(s, r + 1, s[r]);
    AtLeastFrom(s, r, s[r]);
    SortCounts(values, s[r]);
    assert s[r] in multiset(s);
  }

  /** What the dashboard of any tables and incidents satisfies: counters that add up, ordered age
      buckets, and a p95 age with the stated share of ages on either side. */
  lemma DashboardIsConsistent(tables: Tables, incidents: seq<Incident>, now: int)
    ensures var m := MetricsOf(Snapshots(tables, incidents), CreatedTimes(incidents), now);
      && m.notReady + m.conditionallyReady + m.readyForExport + m.exported + m.closed == |incidents|
      && m.open == |incidents| - m.closed
      && m.aging.over7d <= m.aging.over72h <= m.aging.over24h
    ensures var ages, p95 := Ages(CreatedTimes(incidents), now),
                             MetricsOf(Snapshots(tables, incidents), CreatedTimes(incidents), now).aging.p95;
      if ages == [] then p95 == 0
      else p95 in ages && 100 * CountAtMost(ages, p95) >= 95 * |ages| - 45 && 100 * CountAtLeast(ages, p95) >= 5 * |ages| + 45
  {
    CountersAddUp(Snapshots(tables, incidents));
    var ages := Ages(CreatedTimes(incidents), now);
    if ages != [] {
      P95Bounds(ages);
    }
    CountAtLeastAntitone(ages, DAY, 3 * DAY);
    CountAtLeastAntitone(ages, 3 * DAY, 7 * DAY);
  }

  // ---------------------------------------------------------------------------
  // The parts determine the whole
  // ---------------------------------------------------------------------------

  lemma Concat<T>(a: seq<T>, b: seq<T>)
    requires b != []
    ensures (a + b)[..|a + b| - 1] == a + b[..|b| - 1] && (a + b)[|a + b| - 1] == b[|b| - 1]
  {}

  lemma Assoc<T>(a: seq<T>, b: seq<T>, c: seq<T>)
    ensures (a + b) + c == a + (b + c)
  {}

  /** Filtering rows by incident keeps their order. */
  lemma {:induction false} ItemsOfParts<T>(a: seq<Row<T>>, b: seq<Row<T>>, incident: nat)
    ensures ItemsOf(a + b, incident) == ItemsOf(a, incident) + ItemsOf(b, incident)
    decreases |b|
  {
    if b == [] {
      assert a + b == a && ItemsOf(a, incident) + [] == ItemsOf(a, incident);
    } else {
      Concat(a, b);
      ItemsOfParts(a, b[..|b| - 1], incident);
      Assoc(ItemsOf(a, incident), ItemsOf(b[..|b| - 1], incident),
            if b[|b| - 1].incident == incident then [b[|b| - 1].item] else []);
    }
  }

  lemma ItemsOfOne<T>(row: Row<T>, incident: nat)
    ensures ItemsOf([row], incident) == if row.incident == incident then [row.item] else []
  {
    assert [row][..0] == [] && [] + [row.item] == [row.item];
  }

  /** The queue of two lists of incidents is the one after the other. */
  lemma {:induction false} QueueOfParts(tables: Tables, a: seq<Incident>, b: seq<Incident>, filter: BlockerFilter)
    ensures QueueOf(tables, a + b, filter) == QueueOf(tables, a, filter) + QueueOf(tables, b, filter)
    decreases |b|
  {
    hide Matches, SnapshotFor, ItemFor;
    var before := QueueOf(tables, a, filter);
    if b == [] {
      assert a + b == a && before + [] == before;
    } else {
      var last := b[|b| - 1];
      Concat(a, b);
      QueueOfParts(tables, a, b[..|b| - 1], filter);
      Assoc(before, QueueOf(tables, b[..|b| - 1], filter),
            if Matches(SnapshotFor(tables, last), filter) then [ItemFor(last, SnapshotFor(tables, last))] else []);
    }
  }

  /** One incident is in the queue exactly when its own blockers match the filter, and its item shows
      its own snapshot. */
  lemma QueueOfOne(tables: Tables, x: Incident, filter: BlockerFilter)
    ensures var rows := Case(ItemsOf(tables.artifacts, x.id), ItemsOf(tables.events, x.id), ItemsOf(tables.exports, x.id));
      var s := SnapshotOf(x.status, rows);
      var shown := match filter
                   case NoFilter => true
                   case AnyBlocker => s.blockers.total > 0
                   case CriticalOnly => s.blockers.critical > 0
                   case ImportantOnly => s.blockers.important > 0
                   case NoBlocker => s.blockers.total == 0;
      QueueOf(tables, [x], filter)
      == if shown then [QueueItem(x.id, x.status, x.owned, s.readiness, s.completeness.percent, s.blockers.critical,
                                  s.blockers.important, x.createdAt, x.lastActivity)] else []
  {
    hide SnapshotOf;
    assert [x][..0] == [];
    assert QueueOf(tables, [], filter) == [];
  }

  lemma {:induction false} CreatedTimesParts(a: seq<Incident>, b: seq<Incident>)
    ensures CreatedTimes(a + b) == CreatedTimes(a) + CreatedTimes(b)
    decreases |b|
  {
    if b == [] {
      assert a + b == a && CreatedTimes(a) + [] == CreatedTimes(a);
    } else {
      Concat(a, b);
      CreatedTimesParts(a, b[..|b| - 1]);
      Assoc(CreatedTimes(a), CreatedTimes(b[..|b| - 1]),
            if b[|b| - 1].createdAt.At? then [b[|b| - 1].createdAt.microseconds] else []);
    }
  }

  lemma CreatedTimesOne(x: Incident)
    ensures CreatedTimes([x]) == match x.createdAt case At(t) => [t] case Unknown => []
  {
    assert [x][..0] == [];
  }

  lemma {:induction false} StatesAdd(a: seq<Snapshot>, b: seq<Snapshot>, state: ReadinessState)
    ensures CountState(a + b, state) == CountState(a, state) + CountState(b, state)
    ensures CountOpen(a + b) == CountOpen(a) + CountOpen(b)
    ensures CountCritical(a + b) == CountCritical(a) + CountCritical(b)
    ensures CountImportant(a + b) == CountImportant(a) + CountImportant(b)
  {
    if a == [] {
      assert a + b == b;
    } else {
      assert (a + b)[1..] == a[1..] + b;
      StatesAdd(a[1..], b, state);
    }
  }

  lemma {:induction false} AgesAdd(a: seq<int>, b: seq<int>, bound: int)
    ensures CountAtLeast(a + b, bound) == CountAtLeast(a, bound) + CountAtLeast(b, bound)
    ensures Sum(a + b) == Sum(a) + Sum(b)
  {
    if a == [] {
      assert a + b == b;
    } else {
      assert (a + b)[1..] == a[1..] + b;
      AgesAdd(a[1..], b, bound);
    }
  }

  /** Every counter of the dashboard adds up over two groups of cases. */
  lemma MetricsAdd(a: seq<Snapshot>, b: seq<Snapshot>, s: seq<int>, t: seq<int>, now: int)
    ensures var x, y, m := MetricsOf(a, s, now), MetricsOf(b, t, now), MetricsOf(a + b, s + t, now);
      && m.open == x.open + y.open && m.notReady == x.notReady + y.notReady
      && m.conditionallyReady == x.conditionallyReady + y.conditionallyReady
      && m.readyForExport == x.readyForExport + y.readyForExport
      && m.exported == x.exported + y.exported && m.closed == x.closed + y.closed
      && m.withCritical == x.withCritical + y.withCritical && m.withImportant == x.withImportant + y.withImportant
      && m.aging.over24h == x.aging.over24h + y.aging.over24h && m.aging.over72h == x.aging.over72h + y.aging.over72h
      && m.aging.over7d == x.aging.over7d + y.aging.over7d
  {
    hide CountState, CountOpen, CountCritical, CountImportant, CountAtLeast, Percentile, Sum;
    StatesAdd(a, b, NotReady);
    StatesAdd(a, b, ConditionallyReady);
    StatesAdd(a, b, ReadyToExport);
    StatesAdd(a, b, ExportedState);
    StatesAdd(a, b, ClosedState);
    assert Ages(s + t, now) == Ages(s, now) + Ages(t, now);
    AgesAdd(Ages(s, now), Ages(t, now), DAY);
    AgesAdd(Ages(s, now), Ages(t, now), 3 * DAY);
    AgesAdd(Ages(s, now), Ages(t, now), 7 * DAY);
  }

  lemma CountsOfOne(x: Snapshot, state: ReadinessState)
    ensures CountState([x], state) == if x.readiness == state then 1 else 0
    ensures CountOpen([x]) == if x.readiness == ClosedState then 0 else 1
    ensures CountCritical([x]) == if x.blockers.critical > 0 then 1 else 0
    ensures CountImportant([x]) == if x.blockers.important > 0 then 1 else 0
  {
    assert [x][1..] == [];
  }

  lemma AgeOfOne(age: int, bound: int)
    ensures CountAtLeast([age], bound) == if age >= bound then 1 else 0
    ensures Sum([age]) == age
  {
    assert [age][1..] == [];
  }

  /** What one case contributes to the state and blocker counters. */
  lemma MetricsOfOneCase(x: Snapshot, now: int)
    ensures var m, state := MetricsOf([x], [], now), x.readiness;
      && m.open == (if state == ClosedState then 0 else 1) && m.notReady == (if state == NotReady then 1 else 0)
      && m.conditionallyReady == (if state == ConditionallyReady then 1 else 0)
      && m.readyForExport == (if state == ReadyToExport then 1 else 0)
      && m.exported == (if state == ExportedState then 1 else 0) && m.closed == (if state == ClosedState then 1 else 0)
      && m.withCritical == (if x.blockers.critical > 0 then 1 else 0)
      && m.withImportant == (if x.blockers.important > 0 then 1 else 0)
      && m.aging == Aging(0.0, 0, 0, 0, 0)
  {
    CountsOfOne(x, NotReady);
    CountsOfOne(x, ConditionallyReady);
    CountsOfOne(x, ReadyToExport);
    CountsOfOne(x, ExportedState);
    CountsOfOne(x, ClosedState);
    assert Ages([], now) == [];
  }

  /** What one creation time contributes to the age buckets: from a day, three days, and a week on. */
  lemma MetricsOfOneAge(created: int, now: int)
    ensures var m := MetricsOf([], [created], now);
      && m.aging.over24h == (if now - created >= 86_400_000_000 then 1 else 0)
      && m.aging.over72h == (if now - created >= 3 * 86_400_000_000 then 1 else 0)
      && m.aging.over7d == (if now - created >= 7 * 86_400_000_000 then 1 else 0)
      && m.open == m.notReady == m.conditionallyReady == m.readyForExport == m.exported == m.closed == 0
      && m.withCritical == m.withImportant == 0
  {
    hide Percentile;
    var ages := Ages([created], now);
    var age := if now > created then now - created else 0;
    assert ages == [age];
    AgeOfOne(age, DAY);
    AgeOfOne(age, 3 * DAY);
    AgeOfOne(age, 7 * DAY);
  }

  /** An age is the time since the creation; a creation in the future has age zero. */
  lemma AgesExactly(created: seq<int>, now: int, i: nat)
    requires i < |created|
    ensures |Ages(created, now)| == |created| && Ages(created, now)[i] >= 0
    ensures created[i] <= now ==> created[i] + Ages(created, now)[i] == now
    ensures created[i] >= now ==> Ages(created, now)[i] == 0
  {}

  /** The average age times the number of ages is their sum, in days; without ages it is zero. */
  lemma AverageExactly(snapshots: seq<Snapshot>, created: seq<int>, now: int)
    ensures var average := MetricsOf(snapshots, created, now).aging.averageDays;
      if created == [] then average == 0.0
      else average * |created| as real * 86_400_000_000.0 == Sum(Ages(created, now)) as real
  {
    hide Percentile, Sum, CountState, CountOpen, CountCritical, CountImportant, CountAtLeast;
    if created != [] {
      Quotient(Sum(Ages(created, now)) as real, |created| as real, 86_400_000_000.0);
    }
  }

  lemma Quotient(x: real, y: real, z: real)
    requires y > 0.0 && z > 0.0
    ensures x / y / z * y * z == x
  {
    assert x / y / z * z == x / y;
    assert x / y * y == x;
  }
}
