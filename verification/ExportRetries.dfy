/** Export retry trees and the attempt numbers recorded for them (backend/app/api/routes_exports.py). */
module ExportRetries {
  import opened Statuses

  datatype Parent = NoParent | RetryOf(id: nat)

  /** The columns of an export row that never change once it is created. */
  datatype Export = Export(id: nat, incident: nat, parent: Parent)

  datatype Event =
    | ExportRequested(id: nat)
    | RetryRequested(id: nat, prior: nat, attempt: nat)
    | ExportQueued(id: nat, attempt: nat)

  // ---------------------------------------------------------------------------
  // Retry trees of a store, whose rows are listed in creation order
  // ---------------------------------------------------------------------------

  /** Ids are unique, and a retry points to an earlier export of the same incident. */
  ghost predicate Forest(store: seq<Export>) {
    && UniqueIds(store)
    && (forall i {:trigger HasParent(store, i)} | 0 <= i < |store| && store[i].parent.RetryOf? :: HasParent(store, i))
  }

  ghost predicate UniqueIds(store: seq<Export>) {
    forall i, j | 0 <= i < j < |store| :: store[i].id != store[j].id
  }

  ghost predicate HasParent(store: seq<Export>, i: nat)
    requires i < |store| && store[i].parent.RetryOf?
  {
    exists j :: 0 <= j < i && store[j].id == store[i].parent.id && store[j].incident == store[i].incident
  }

  ghost function ParentIndex(store: seq<Export>, i: nat): (j: nat)
    requires Forest(store) && i < |store| && store[i].parent.RetryOf?
    ensures j < i && store[j].id == store[i].parent.id && store[j].incident == store[i].incident
  {
    assert HasParent(store, i);
    var j :| 0 <= j < i && store[j].id == store[i].parent.id && store[j].incident == store[i].incident;
    j
  }

  /** The first export of the tree an export belongs to. */
  ghost function RootIndex(store: seq<Export>, i: nat): (r: nat)
    requires Forest(store) && i < |store|
    ensures r <= i && store[r].parent.NoParent? && store[r].incident == store[i].incident
    decreases i
  {
    if store[i].parent.NoParent? then i else RootIndex(store, ParentIndex(store, i))
  }

  /** The root of every export. */
  ghost function Roots(store: seq<Export>): (roots: seq<nat>)
    requires Forest(store)
    ensures |roots| == |store|
  {
    seq(|store|, i requires 0 <= i < |store| => RootIndex(store, i))
  }

  /** The members of a tree among the first n exports. */
  ghost function TreeUpTo(roots: seq<nat>, r: nat, n: nat): set<nat>
    requires n <= |roots|
  {
    set i | 0 <= i < n && roots[i] == r
  }

  ghost function Tree(roots: seq<nat>, r: nat): set<nat> {
    TreeUpTo(roots, r, |roots|)
  }

  /** The position of an export in its tree, in creation order and counted from one. */
  ghost function Rank(roots: seq<nat>, i: nat): nat
    requires i < |roots|
  {
    |TreeUpTo(roots, roots[i], i + 1)|
  }

  // ---------------------------------------------------------------------------
  // Climbing the parents
  // ---------------------------------------------------------------------------

  ghost function IndexOf(store: seq<Export>, e: Export): (i: nat)
    requires e in store
    ensures i < |store| && store[i] == e
  {
    var i :| 0 <= i < |store| && store[i] == e; i
  }

  /** What get_exports_by_incident returns: the incident's exports, each once, in any order. */
  ghost predicate ListsIncident(chain: seq<Export>, store: seq<Export>, incident: nat) {
    && Within(chain, store)
    && (forall k | 0 <= k < |chain| :: chain[k].incident == incident)
    && (forall i | 0 <= i < |store| && store[i].incident == incident :: store[i] in chain)
    && EachOnce(chain)
  }

  ghost predicate Within(chain: seq<Export>, store: seq<Export>) {
    forall k | 0 <= k < |chain| :: chain[k] in store
  }

  ghost predicate EachOnce(chain: seq<Export>) {
    forall i, j | 0 <= i < j < |chain| :: chain[i] != chain[j]
  }

  ghost predicate Indexes(byId: map<nat, Export>, chain: seq<Export>) {
    forall e | e in chain :: e.id in byId && byId[e.id] == e
  }

  lemma SameIdSameExport(store: seq<Export>, a: Export, b: Export)
    requires Forest(store) && a in store && b in store && a.id == b.id
    ensures a == b
  {
    var i, j := IndexOf(store, a), IndexOf(store, b);
  }

  /** One turn of a climbing loop: the parent is in the index, earlier, and in the same tree. */
  lemma ClimbOnce(store: seq<Export>, chain: seq<Export>, e: Export) returns (p: Export)
    requires Forest(store) && ListsIncident(chain, store, e.incident) && e in store && e.parent.RetryOf?
    ensures p in chain && p in store && p.id == e.parent.id && p.incident == e.incident
    ensures IndexOf(store, p) < IndexOf(store, e)
    ensures RootIndex(store, IndexOf(store, p)) == RootIndex(store, IndexOf(store, e))
  {
    var i := IndexOf(store, e);
    var j := ParentIndex(store, i);
    p := store[j];
  }

  method ClimbToRoot(start: Export, byId: map<nat, Export>, ghost chain: seq<Export>, ghost store: seq<Export>)
      returns (root: Export)
    requires Forest(store) && ListsIncident(chain, store, start.incident) && start in store
    requires Indexes(byId, chain)
    ensures root in store && IndexOf(store, root) == RootIndex(store, IndexOf(store, start))
  {
    var cursor := start;
    while cursor.parent.RetryOf? && cursor.parent.id in byId
      invariant cursor in store && cursor.incident == start.incident
      invariant RootIndex(store, IndexOf(store, cursor)) == RootIndex(store, IndexOf(store, start))
      decreases IndexOf(store, cursor)
    {
      ghost var p := ClimbOnce(store, chain, cursor);
      cursor := byId[cursor.parent.id];
    }
    if cursor.parent.RetryOf? {
      ghost var p := ClimbOnce(store, chain, cursor);
    }
    root := cursor;
  }

  ghost function CountedIndices(store: seq<Export>, chain: seq<Export>, n: nat, r: nat): set<nat>
    requires Forest(store) && n <= |chain| && Within(chain, store)
  {
    set k | 0 <= k < n && RootIndex(store, IndexOf(store, chain[k])) == r :: IndexOf(store, chain[k])
  }

  ghost function Counted(store: seq<Export>, chain: seq<Export>, n: nat, r: nat): nat
    requires Forest(store) && n <= |chain| && Within(chain, store)
  {
    |CountedIndices(store, chain, n, r)|
  }

  lemma CountedNext(store: seq<Export>, chain: seq<Export>, n: nat, r: nat)
    requires Forest(store) && n < |chain| && Within(chain, store)
    requires EachOnce(chain)
    ensures Counted(store, chain, n + 1, r)
         == Counted(store, chain, n, r) + if RootIndex(store, IndexOf(store, chain[n])) == r then 1 else 0
  {
    var i := IndexOf(store, chain[n]);
    assert i !in CountedIndices(store, chain, n, r);
    assert CountedIndices(store, chain, n + 1, r)
        == CountedIndices(store, chain, n, r) + if RootIndex(store, i) == r then {i} else {};
  }

  lemma CountedAll(store: seq<Export>, chain: seq<Export>, incident: nat, r: nat)
    requires Forest(store) && ListsIncident(chain, store, incident)
    requires r < |store| && store[r].incident == incident
    ensures CountedIndices(store, chain, |chain|, r) == Tree(Roots(store), r)
  {
    forall i | i in Tree(Roots(store), r) ensures i in CountedIndices(store, chain, |chain|, r) {
      assert store[i] in chain;
      var k :| 0 <= k < |chain| && chain[k] == store[i];
      assert IndexOf(store, chain[k]) == i;
    }
  }

  method IndexById(chain: seq<Export>, ghost store: seq<Export>) returns (byId: map<nat, Export>)
    requires Forest(store) && Within(chain, store)
    ensures Indexes(byId, chain)
  {
    forall a, b | a in chain && b in chain && a.id == b.id ensures a == b {
      SameIdSameExport(store, a, b);
    }
    byId := map e | e in chain :: e.id := e;
  }

  lemma SameRootId(store: seq<Export>, a: Export, b: Export)
    requires Forest(store) && a in store && b in store
    ensures a.id == b.id <==> IndexOf(store, a) == IndexOf(store, b)
  {
    if a.id == b.id {
      SameIdSameExport(store, a, b);
    }
  }

  /** Climb from one item and compare the ids of the two roots. */
  method SharesRoot(item: Export, root: Export, byId: map<nat, Export>, ghost chain: seq<Export>, ghost store: seq<Export>)
      returns (same: bool)
    requires Forest(store) && item in store && root in store && ListsIncident(chain, store, item.incident)
    requires Indexes(byId, chain)
    ensures same <==> RootIndex(store, IndexOf(store, item)) == IndexOf(store, root)
  {
    var candidate := ClimbToRoot(item, byId, chain, store);
    SameRootId(store, candidate, root);
    same := candidate.id == root.id;
  }

  /** The attempt number is the size of the retry tree the export belongs to. */
  method GetRetryAttemptNumber(retryExport: Export, chainExports: seq<Export>, ghost store: seq<Export>)
      returns (attempts: nat)
    requires Forest(store) && retryExport in store && ListsIncident(chainExports, store, retryExport.incident)
    ensures attempts == |Tree(Roots(store), RootIndex(store, IndexOf(store, retryExport)))|
  {
    var byId := IndexById(chainExports, store);
    var root := ClimbToRoot(retryExport, byId, chainExports, store);
    ghost var r := RootIndex(store, IndexOf(store, retryExport));
    attempts := 0;
    for k := 0 to |chainExports|
      invariant attempts == Counted(store, chainExports, k, r)
    {
      CountedNext(store, chainExports, k, r);
      var same := SharesRoot(chainExports[k], root, byId, chainExports, store);
      if same {
        attempts := attempts + 1;
      }
    }
    CountedAll(store, chainExports, retryExport.incident, r);
  }

  // ---------------------------------------------------------------------------
  // The endpoints
  // ---------------------------------------------------------------------------

  datatype State = State(exports: seq<Export>, status: map<nat, ExportStatus>, log: seq<Event>)

  const EMPTY := State([], map[], [])

  datatype Step =
    | Create(id: nat, incident: nat, enqueued: bool)
    | Retry(prior: nat, id: nat, enqueued: bool)
    | Work(id: nat, status: ExportStatus)

  predicate HasId(exports: seq<Export>, id: nat) {
    exists i :: 0 <= i < |exports| && exports[i].id == id
  }

  ghost function WithId(exports: seq<Export>, id: nat): (i: nat)
    requires HasId(exports, id)
    ensures i < |exports| && exports[i].id == id
  {
    var i :| 0 <= i < |exports| && exports[i].id == id; i
  }

  function QueuedEvents(id: nat, attempt: nat, enqueued: bool): seq<Event> {
    if enqueued then [ExportQueued(id, attempt)] else []
  }

  ghost predicate Sound(s: State) {
    && Forest(s.exports)
    && (forall i | 0 <= i < |s.exports| :: s.exports[i].id in s.status)
    && (forall id :: id in s.status ==> HasId(s.exports, id))
  }

  /** A new row, its status, and the events of its request. */
  function Inserted(s: State, e: Export, first: Event, attempt: nat, enqueued: bool): State {
    State(s.exports + [e], s.status[e.id := if enqueued then Queued else Requested],
          s.log + [first] + QueuedEvents(e.id, attempt, enqueued))
  }

  ghost function RetryRow(s: State, prior: nat, id: nat): (e: Export)
    requires Sound(s) && prior in s.status && id !in s.status
    ensures Forest(s.exports + [e]) && e.id == id && e.parent == RetryOf(prior)
  {
    var e := Export(id, s.exports[WithId(s.exports, prior)].incident, RetryOf(prior));
    AppendKeepsForest(s.exports, e);
    e
  }

  ghost predicate Retryable(s: State, prior: nat, id: nat) {
    prior in s.status && s.status[prior] == Failed && id !in s.status
  }

  /** A step of the run: an id that is already taken violates the primary key and changes nothing,
      as does retrying an export that is missing or has not failed. */
  ghost function Apply(s: State, step: Step): State
    requires Sound(s)
  {
    match step
    case Create(id, incident, enqueued) =>
      if id in s.status then s
      else Inserted(s, Export(id, incident, NoParent), ExportRequested(id), 1, enqueued)
    case Retry(prior, id, enqueued) =>
      if !Retryable(s, prior, id) then s
      else
        var e := RetryRow(s, prior, id);
        var attempt := |Tree(Roots(s.exports + [e]), RootIndex(s.exports + [e], |s.exports|))|;
        Inserted(s, e, RetryRequested(id, prior, attempt), attempt, enqueued)
    case Work(id, status) =>
      if id in s.status then s.(status := s.status[id := status]) else s
  }

  lemma RetryApplied(s: State, prior: nat, id: nat, enqueued: bool, e: Export, attempt: nat)
    requires Sound(s) && Retryable(s, prior, id) && e == RetryRow(s, prior, id)
    requires attempt == |Tree(Roots(s.exports + [e]), RootIndex(s.exports + [e], |s.exports|))|
    ensures Apply(s, Retry(prior, id, enqueued)) == Inserted(s, e, RetryRequested(id, prior, attempt), attempt, enqueued)
  {}

  lemma AppendKeepsForest(store: seq<Export>, e: Export)
    requires Forest(store) && !HasId(store, e.id)
    requires e.parent.RetryOf? ==> HasId(store, e.parent.id)
                                   && store[WithId(store, e.parent.id)].incident == e.incident
    ensures Forest(store + [e])
  {
    var store' := store + [e];
    forall i | 0 <= i < |store'| && store'[i].parent.RetryOf? ensures HasParent(store', i) {
      if i < |store| {
        assert HasParent(store, i);
        var j :| 0 <= j < i && store[j].id == store[i].parent.id && store[j].incident == store[i].incident;
        assert store'[j] == store[j];
      } else {
        assert store'[WithId(store, e.parent.id)] == store[WithId(store, e.parent.id)];
      }
    }
    forall i, j | 0 <= i < j < |store'| ensures store'[i].id != store'[j].id {
      assert store'[i] == store[i];
    }
  }

  lemma StepKeepsSound(s: State, step: Step)
    requires Sound(s)
    ensures Sound(Apply(s, step))
  {
    var s' := Apply(s, step);
    if |s'.exports| > |s.exports| {
      var e := s'.exports[|s.exports|];
      assert !HasId(s.exports, e.id);
      AppendKeepsForest(s.exports, e);
      forall id | id in s'.status ensures HasId(s'.exports, id) {
        if id == e.id {
          assert s'.exports[|s.exports|].id == id;
        } else {
          var i := WithId(s.exports, id);
          assert s'.exports[i].id == id;
        }
      }
    }
  }

  function ExportsOf(store: seq<Export>, incident: nat): seq<Export> {
    if store == [] then []
    else (if store[0].incident == incident then [store[0]] else []) + ExportsOf(store[1..], incident)
  }

  lemma {:induction false} ExportsOfMembers(store: seq<Export>, incident: nat, e: Export)
    ensures e in ExportsOf(store, incident) <==> e in store && e.incident == incident
  {
    if store != [] {
      ExportsOfMembers(store[1..], incident, e);
      assert store == [store[0]] + store[1..];
    }
  }

  lemma {:induction false} ExportsOfOnce(store: seq<Export>, incident: nat)
    requires EachOnce(store)
    ensures EachOnce(ExportsOf(store, incident))
  {
    if store != [] {
      var tail := ExportsOf(store[1..], incident);
      ExportsOfOnce(store[1..], incident);
      ExportsOfMembers(store[1..], incident, store[0]);
      assert store[0] !in store[1..];
      assert forall k | 0 <= k < |tail| :: tail[k] in tail;
    }
  }

  lemma ExportsOfLists(store: seq<Export>, incident: nat)
    requires Forest(store)
    ensures ListsIncident(ExportsOf(store, incident), store, incident)
  {
    var chain := ExportsOf(store, incident);
    forall e ensures e in chain <==> e in store && e.incident == incident {
      ExportsOfMembers(store, incident, e);
    }
    assert forall k | 0 <= k < |chain| :: chain[k] in chain;
    ExportsOfOnce(store, incident);
  }

  datatype Response = Created(id: nat) | IdTaken | NotFound | NotFailed | Degraded

  /** The exports table, its status column and the event log, as the endpoints update them. */
  class ExportDesk {
    var exports: seq<Export>
    var status: map<nat, ExportStatus>
    var log: seq<Event>

    constructor ()
      ensures View() == EMPTY && Sound(View())
    {
      exports, status, log := [], map[], [];
    }

    function View(): State
      reads this
    {
      State(exports, status, log)
    }

    method CreateExport(id: nat, incident: nat, enqueued: bool) returns (response: Response)
      requires Sound(View())
      modifies this
      ensures View() == Apply(old(View()), Create(id, incident, enqueued)) && Sound(View())
      ensures response == if id in old(status) then IdTaken else if enqueued then Created(id) else Degraded
      ensures id in old(status) ==> View() == old(View())
      ensures id !in old(status) ==>
        && exports == old(exports) + [Export(id, incident, NoParent)]
        && status == old(status)[id := if enqueued then Queued else Requested]
        && log == old(log) + [ExportRequested(id)] + (if enqueued then [ExportQueued(id, 1)] else [])
    {
      StepKeepsSound(View(), Create(id, incident, enqueued));
      if id in status {
        return IdTaken;
      }
      Insert(Export(id, incident, NoParent));
      log := log + [ExportRequested(id)];
      response := Enqueue(id, 1, enqueued);
    }

    /** create_export: the row and its initial status. */
    method Insert(e: Export)
      modifies this
      ensures exports == old(exports) + [e] && status == old(status)[e.id := Requested] && log == old(log)
    {
      exports := exports + [e];
      status := status[e.id := Requested];
    }

    /** Hand the job to the worker queue; only a successful hand-over is recorded. */
    method Enqueue(id: nat, attempt: nat, enqueued: bool) returns (response: Response)
      modifies this
      ensures exports == old(exports)
      ensures status == (if enqueued then old(status)[id := Queued] else old(status))
      ensures log == old(log) + QueuedEvents(id, attempt, enqueued)
      ensures response == if enqueued then Created(id) else Degraded
    {
      if !enqueued {
        assert log == log + [];
        return Degraded;
      }
      status := status[id := Queued];
      log := log + [ExportQueued(id, attempt)];
      response := Created(id);
    }

    method FindExport(id: nat) returns (i: nat)
      requires HasId(exports, id)
      ensures i < |exports| && exports[i].id == id
    {
      i := 0;
      while exports[i].id != id
        invariant i < |exports| && forall j | 0 <= j < i :: exports[j].id != id
        decreases |exports| - i
      {
        i := i + 1;
      }
    }

    method RetryExport(prior: nat, id: nat, enqueued: bool) returns (response: Response)
      requires Sound(View())
      modifies this
      ensures View() == Apply(old(View()), Retry(prior, id, enqueued)) && Sound(View())
      ensures response
           == if prior !in old(status) then NotFound
              else if old(status)[prior] != Failed then NotFailed
              else if id in old(status) then IdTaken
              else if enqueued then Created(id) else Degraded
      ensures !(response.Created? || response.Degraded?) ==> View() == old(View())
      ensures response.Created? || response.Degraded? ==>
        && |exports| == |old(exports)| + 1 && exports[..|old(exports)|] == old(exports)
        && exports[|old(exports)|].id == id && exports[|old(exports)|].parent == RetryOf(prior)
        && status == old(status)[id := if enqueued then Queued else Requested]
        && var attempt := |Tree(Roots(exports), RootIndex(exports, |old(exports)|))|;
           log == old(log) + [RetryRequested(id, prior, attempt)] + (if enqueued then [ExportQueued(id, attempt)] else [])
    {
      StepKeepsSound(View(), Retry(prior, id, enqueued));
      if prior !in status {
        return NotFound;
      }
      if status[prior] != Failed {
        return NotFailed;
      }
      if id in status {
        return IdTaken;
      }
      response := InsertRetry(prior, id, enqueued);
    }

    /** The part of the retry endpoint behind its checks. */
    method InsertRetry(prior: nat, id: nat, enqueued: bool) returns (response: Response)
      requires Sound(View()) && Retryable(View(), prior, id)
      modifies this
      ensures View() == Apply(old(View()), Retry(prior, id, enqueued))
      ensures response == if enqueued then Created(id) else Degraded
    {
      var i := FindExport(prior);
      assert i == WithId(exports, prior);
      var newExport := Export(id, exports[i].incident, RetryOf(prior));
      ghost var before := View();
      assert newExport == RetryRow(before, prior, id);
      Insert(newExport);
      var attempt := CountAttempts(newExport);
      log := log + [RetryRequested(id, prior, attempt)];
      response := Enqueue(id, attempt, enqueued);
      assert exports == before.exports + [newExport];
      assert status == before.status[id := if enqueued then Queued else Requested];
      RetryApplied(before, prior, id, enqueued, newExport, attempt);
    }

    /** The attempt number of the export that was inserted last. */
    method CountAttempts(newExport: Export) returns (attempt: nat)
      requires Forest(exports) && exports != [] && exports[|exports| - 1] == newExport
      ensures attempt == |Tree(Roots(exports), RootIndex(exports, |exports| - 1))|
    {
      ExportsOfLists(exports, newExport.incident);
      attempt := GetRetryAttemptNumber(newExport, ExportsOf(exports, newExport.incident), exports);
      assert IndexOf(exports, newExport) == |exports| - 1;
    }
  }

  // ---------------------------------------------------------------------------
  // Appending a row leaves every older tree position as it was
  // ---------------------------------------------------------------------------

  lemma {:induction false} RootStable(store: seq<Export>, e: Export, i: nat)
    requires Forest(store) && Forest(store + [e]) && i < |store|
    ensures RootIndex(store + [e], i) == RootIndex(store, i)
    decreases i
  {
    if store[i].parent.RetryOf? {
      assert (store + [e])[i] == store[i];
      var j, j' := ParentIndex(store, i), ParentIndex(store + [e], i);
      assert (store + [e])[j].id == (store + [e])[j'].id;
      RootStable(store, e, j);
    }
  }

  lemma RootsStable(store: seq<Export>, e: Export)
    requires Forest(store) && Forest(store + [e])
    ensures Roots(store + [e]) == Roots(store) + [RootIndex(store + [e], |store|)]
  {
    forall i | 0 <= i < |store| ensures RootIndex(store + [e], i) == RootIndex(store, i) {
      RootStable(store, e, i);
    }
  }

  lemma RankStable(roots: seq<nat>, x: nat, i: nat)
    requires i < |roots|
    ensures Rank(roots + [x], i) == Rank(roots, i)
  {
    assert TreeUpTo(roots + [x], roots[i], i + 1) == TreeUpTo(roots, roots[i], i + 1);
  }

  ghost predicate JoinedLater(roots: seq<nat>, i: nat)
    requires i < |roots|
  {
    exists j | i < j < |roots| :: roots[j] == roots[i]
  }

  /** Counting the tree gives the export's rank exactly when no later export has joined the tree. */
  lemma CountIsRankExactly(roots: seq<nat>, i: nat)
    requires i < |roots|
    ensures |Tree(roots, roots[i])| == Rank(roots, i) <==> !JoinedLater(roots, i)
  {
    var r := roots[i];
    assert TreeUpTo(roots, r, i + 1) <= Tree(roots, r);
    if JoinedLater(roots, i) {
      var j: nat :| i < j < |roots| && roots[j] == roots[i];
      assert j in Tree(roots, r);
      CardinalityOfSubset(TreeUpTo(roots, r, i + 1), Tree(roots, r), j);
    } else {
      assert TreeUpTo(roots, r, i + 1) == Tree(roots, r);
    }
  }

  lemma CardinalityOfSubset(a: set<nat>, b: set<nat>, x: nat)
    requires a <= b && x in b && x !in a
    ensures |a| < |b|
  {
    assert b == a + (b - a);
  }

  // ---------------------------------------------------------------------------
  // What every run records
  // ---------------------------------------------------------------------------

  function OnlyRetries(log: seq<Event>): seq<Event> {
    if log == [] then []
    else OnlyRetries(log[..|log| - 1]) + if log[|log| - 1].RetryRequested? then [log[|log| - 1]] else []
  }

  /** The retry events of the first n exports, numbered by rank. */
  ghost function RankedRetries(store: seq<Export>, roots: seq<nat>, n: nat): seq<Event>
    requires n <= |store| == |roots|
  {
    if n == 0 then []
    else RankedRetries(store, roots, n - 1)
         + match store[n - 1].parent
           case NoParent => []
           case RetryOf(p) => [RetryRequested(store[n - 1].id, p, Rank(roots, n - 1))]
  }

  /** Queued events name an existing export and repeat its rank. */
  ghost predicate QueuedWithRank(log: seq<Event>, store: seq<Export>, roots: seq<nat>)
    requires |store| == |roots|
  {
    forall k | 0 <= k < |log| && log[k].ExportQueued? :: RankedAt(log[k], store, roots)
  }

  ghost predicate RankedAt(queued: Event, store: seq<Export>, roots: seq<nat>)
    requires |store| == |roots| && queued.ExportQueued?
  {
    exists i :: 0 <= i < |store| && store[i].id == queued.id && Rank(roots, i) == queued.attempt
  }

  /** Every retry is logged once, in creation order, with its rank; every queued event repeats the rank. */
  ghost predicate Recorded(s: State)
    requires Sound(s)
  {
    && OnlyRetries(s.log) == RankedRetries(s.exports, Roots(s.exports), |s.exports|)
    && QueuedWithRank(s.log, s.exports, Roots(s.exports))
  }

  lemma {:induction false} RankedRetriesStable(store: seq<Export>, roots: seq<nat>, e: Export, x: nat, n: nat)
    requires n <= |store| == |roots|
    ensures RankedRetries(store + [e], roots + [x], n) == RankedRetries(store, roots, n)
  {
    if n > 0 {
      assert (store + [e])[n - 1] == store[n - 1];
      RankStable(roots, x, n - 1);
      RankedRetriesStable(store, roots, e, x, n - 1);
    }
  }

  lemma RankedRetriesNext(store: seq<Export>, roots: seq<nat>, e: Export, x: nat, attempt: nat)
    requires |store| == |roots| && attempt == Rank(roots + [x], |store|)
    ensures RankedRetries(store + [e], roots + [x], |store| + 1)
         == RankedRetries(store, roots, |store|)
            + match e.parent case NoParent => [] case RetryOf(p) => [RetryRequested(e.id, p, attempt)]
  {
    assert (store + [e])[|store|] == e;
    RankedRetriesStable(store, roots, e, x, |store|);
  }

  lemma OnlyRetriesOfStep(log: seq<Event>, first: Event, id: nat, attempt: nat, enqueued: bool)
    ensures OnlyRetries(log + [first] + QueuedEvents(id, attempt, enqueued))
         == OnlyRetries(log) + if first.RetryRequested? then [first] else []
  {
    assert (log + [first])[..|log|] == log;
    var all := log + [first] + QueuedEvents(id, attempt, enqueued);
    if enqueued {
      assert all[..|all| - 1] == log + [first];
      assert OnlyRetries(log + [first]) + [] == OnlyRetries(log + [first]);
    } else {
      assert all == log + [first];
    }
  }

  lemma QueuedStable(log: seq<Event>, store: seq<Export>, roots: seq<nat>, e: Export, x: nat, first: Event, enqueued: bool)
    requires |store| == |roots| && QueuedWithRank(log, store, roots) && !first.ExportQueued?
    ensures QueuedWithRank(log + [first] + QueuedEvents(e.id, Rank(roots + [x], |store|), enqueued), store + [e], roots + [x])
  {
    var store', roots', attempt := store + [e], roots + [x], Rank(roots + [x], |store|);
    var log' := log + [first] + QueuedEvents(e.id, attempt, enqueued);
    forall k | 0 <= k < |log'| && log'[k].ExportQueued? ensures RankedAt(log'[k], store', roots') {
      if k < |log| {
        assert log'[k] == log[k];
        var i :| 0 <= i < |store| && store[i].id == log[k].id && Rank(roots, i) == log[k].attempt;
        RankStable(roots, x, i);
        assert store'[i] == store[i];
      } else {
        assert log'[k] == ExportQueued(e.id, attempt) && store'[|store|] == e;
      }
    }
  }

  /** Appending one export with its rank in both events keeps the record. */
  lemma AppendRecorded(s: State, s': State, e: Export, first: Event, attempt: nat, enqueued: bool)
    requires Sound(s) && Sound(s') && Recorded(s) && s'.exports == s.exports + [e]
    requires s'.log == s.log + [first] + QueuedEvents(e.id, attempt, enqueued) && !first.ExportQueued?
    requires attempt == Rank(Roots(s'.exports), |s.exports|)
    requires match e.parent
             case NoParent => !first.RetryRequested?
             case RetryOf(p) => first == RetryRequested(e.id, p, attempt)
    ensures Recorded(s')
  {
    var x := RootIndex(s'.exports, |s.exports|);
    RootsStable(s.exports, e);
    OnlyRetriesOfStep(s.log, first, e.id, attempt, enqueued);
    RankedRetriesNext(s.exports, Roots(s.exports), e, x, attempt);
    QueuedStable(s.log, s.exports, Roots(s.exports), e, x, first, enqueued);
  }

  lemma NewestRank(store: seq<Export>)
    requires Forest(store) && store != []
    ensures var n := |store| - 1;
      && Rank(Roots(store), n) == |Tree(Roots(store), RootIndex(store, n))|
      && (store[n].parent.NoParent? ==> Rank(Roots(store), n) == 1)
  {
    var n, roots := |store| - 1, Roots(store);
    CountIsRankExactly(roots, n);
    if store[n].parent.NoParent? {
      assert TreeUpTo(roots, n, n + 1) == {n};
    }
  }

  lemma InsertRecords(s: State, e: Export, first: Event, attempt: nat, enqueued: bool)
    requires Sound(s) && Recorded(s) && Sound(Inserted(s, e, first, attempt, enqueued)) && !first.ExportQueued?
    requires var store := s.exports + [e];
      Forest(store) && attempt == |Tree(Roots(store), RootIndex(store, |s.exports|))|
    requires match e.parent
             case NoParent => !first.RetryRequested?
             case RetryOf(p) => first == RetryRequested(e.id, p, attempt)
    ensures Recorded(Inserted(s, e, first, attempt, enqueued))
  {
    NewestRank(s.exports + [e]);
    AppendRecorded(s, Inserted(s, e, first, attempt, enqueued), e, first, attempt, enqueued);
  }

  lemma StepRecords(s: State, step: Step)
    requires Sound(s) && Recorded(s)
    ensures Sound(Apply(s, step)) && Recorded(Apply(s, step))
  {
    StepKeepsSound(s, step);
    match step
    case Create(id, incident, enqueued) =>
      if id !in s.status {
        var e := Export(id, incident, NoParent);
        AppendKeepsForest(s.exports, e);
        assert (s.exports + [e])[|s.exports|] == e;
        NewestRank(s.exports + [e]);
        InsertRecords(s, e, ExportRequested(id), 1, enqueued);
      }
    case Retry(prior, id, enqueued) =>
      if Retryable(s, prior, id) {
        var e := RetryRow(s, prior, id);
        var attempt := |Tree(Roots(s.exports + [e]), RootIndex(s.exports + [e], |s.exports|))|;
        RetryApplied(s, prior, id, enqueued, e, attempt);
        InsertRecords(s, e, RetryRequested(id, prior, attempt), attempt, enqueued);
      }
    case Work(id, status) =>
  }

  ghost function Run(s: State, steps: seq<Step>): (s': State)
    requires Sound(s)
    ensures Sound(s')
    decreases |steps|
  {
    if steps == [] then s
    else
      StepKeepsSound(s, steps[0]);
      Run(Apply(s, steps[0]), steps[1..])
  }

  lemma {:induction false} RunRecords(s: State, steps: seq<Step>)
    requires Sound(s) && Recorded(s)
    ensures Recorded(Run(s, steps))
    decreases |steps|
  {
    if steps != [] {
      StepRecords(s, steps[0]);
      RunRecords(Apply(s, steps[0]), steps[1..]);
    }
  }

  // ---------------------------------------------------------------------------
  // One tree is numbered 1, 2, ..., k
  // ---------------------------------------------------------------------------

  /** The attempt numbers that retry events record for the exports in one tree. */
  ghost function AttemptsOf(retries: seq<Event>, store: seq<Export>, roots: seq<nat>, r: nat): seq<nat>
    requires |store| == |roots|
  {
    if retries == [] then []
    else
      var last := retries[|retries| - 1];
      AttemptsOf(retries[..|retries| - 1], store, roots, r)
      + if last.RetryRequested? && HasId(store, last.id) && roots[WithId(store, last.id)] == r
        then [last.attempt] else []
  }

  /** a, a + 1, ..., b */
  function Count(a: nat, b: nat): seq<nat> {
    if b < a || b == 0 then [] else Count(a, b - 1) + [b]
  }

  /** Roots are their own root, come first in their tree, and are the exports without a parent. */
  ghost predicate RootedStore(store: seq<Export>, roots: seq<nat>) {
    && |store| == |roots| && UniqueIds(store)
    && (forall i | 0 <= i < |roots| :: roots[i] <= i)
    && (forall i | 0 <= i < |roots| :: store[i].parent.NoParent? <==> roots[i] == i)
  }

  lemma ForestIsRooted(store: seq<Export>)
    requires Forest(store)
    ensures RootedStore(store, Roots(store))
  {
    forall i | 0 <= i < |store| ensures store[i].parent.NoParent? <==> RootIndex(store, i) == i {}
  }

  lemma TreeUpToNext(roots: seq<nat>, r: nat, n: nat)
    requires n < |roots|
    ensures |TreeUpTo(roots, r, n + 1)| == |TreeUpTo(roots, r, n)| + if roots[n] == r then 1 else 0
    ensures roots[n] == r ==> |TreeUpTo(roots, r, n + 1)| == Rank(roots, n)
  {
    if roots[n] == r {
      assert TreeUpTo(roots, r, n + 1) == TreeUpTo(roots, r, n) + {n};
    } else {
      assert TreeUpTo(roots, r, n + 1) == TreeUpTo(roots, r, n);
    }
  }

  lemma TreeStartsAtRoot(store: seq<Export>, roots: seq<nat>, r: nat, n: nat)
    requires RootedStore(store, roots) && n <= |roots| && r < |roots| && roots[r] == r
    ensures |TreeUpTo(roots, r, n)| == 0 <==> n <= r
  {
    if r < n {
      assert r in TreeUpTo(roots, r, n);
    } else {
      assert TreeUpTo(roots, r, n) == {};
    }
  }

  lemma CountFromTwo(k: nat)
    ensures Count(2, k) == if k <= 1 then [] else Count(2, k - 1) + [k]
  {}

  lemma AttemptsOfAppend(before: seq<Event>, last: Event, store: seq<Export>, roots: seq<nat>, r: nat, n: nat)
    requires |store| == |roots| && UniqueIds(store) && n < |store| && last.RetryRequested? && last.id == store[n].id
    ensures AttemptsOf(before + [last], store, roots, r)
         == AttemptsOf(before, store, roots, r) + if roots[n] == r then [last.attempt] else []
  {
    var all := before + [last];
    assert all[..|all| - 1] == before && all[|all| - 1] == last;
    assert HasId(store, last.id) && WithId(store, last.id) == n;
  }

  /** What one more export adds to the counted tree: nothing, the root itself, or the next number. */
  lemma TreeStep(store: seq<Export>, roots: seq<nat>, r: nat, n: nat)
    requires RootedStore(store, roots) && n < |store| && r < |store| && roots[r] == r
    ensures Count(2, |TreeUpTo(roots, r, n + 1)|)
         == Count(2, |TreeUpTo(roots, r, n)|)
            + if store[n].parent.RetryOf? && roots[n] == r then [Rank(roots, n)] else []
  {
    var k, k' := |TreeUpTo(roots, r, n)|, |TreeUpTo(roots, r, n + 1)|;
    TreeStartsAtRoot(store, roots, r, n);
    TreeUpToNext(roots, r, n);
    CountFromTwo(k);
    CountFromTwo(k');
    assert Count(2, k) + [] == Count(2, k);
  }

  lemma {:induction false} RankedAttempts(store: seq<Export>, roots: seq<nat>, r: nat, n: nat)
    requires RootedStore(store, roots) && n <= |store| && r < |store| && roots[r] == r
    ensures AttemptsOf(RankedRetries(store, roots, n), store, roots, r) == Count(2, |TreeUpTo(roots, r, n)|)
    decreases n
  {
    if n == 0 {
      assert TreeUpTo(roots, r, 0) == {};
    } else {
      var before := RankedRetries(store, roots, n - 1);
      RankedAttempts(store, roots, r, n - 1);
      TreeStep(store, roots, r, n - 1);
      if store[n - 1].parent.RetryOf? {
        var last := RetryRequested(store[n - 1].id, store[n - 1].parent.id, Rank(roots, n - 1));
        AttemptsOfAppend(before, last, store, roots, r, n - 1);
      } else {
        assert before + [] == before;
      }
    }
  }

  /** Over every run, with the root counted as attempt 1, the attempt numbers recorded for a retry
      tree are exactly 1, 2, ..., k in creation order, branches included. */
  lemma TreeIsNumberedOneToK(steps: seq<Step>, r: nat)
    requires r < |Run(EMPTY, steps).exports| && Run(EMPTY, steps).exports[r].parent.NoParent?
    ensures var s := Run(EMPTY, steps);
      var roots := Roots(s.exports);
      [1] + AttemptsOf(OnlyRetries(s.log), s.exports, roots, r) == Count(1, |Tree(roots, r)|)
  {
    RunRecords(EMPTY, steps);
    var s := Run(EMPTY, steps);
    var roots := Roots(s.exports);
    ForestIsRooted(s.exports);
    RankedAttempts(s.exports, roots, r, |s.exports|);
    TreeStartsAtRoot(s.exports, roots, r, |s.exports|);
    CountFrom(|Tree(roots, r)|);
  }

  lemma {:induction false} CountFrom(k: nat)
    requires k >= 1
    ensures Count(1, k) == [1] + Count(2, k)
  {
    if k == 1 {
      assert Count(1, 0) == [] && [] + [1] == [1] == [1] + [];
    } else {
      CountFrom(k - 1);
    }
  }

  // ---------------------------------------------------------------------------
  // The trees partition the exports of an incident
  // ---------------------------------------------------------------------------

  ghost function IncidentIndices(store: seq<Export>, incident: nat): set<nat> {
    set i | 0 <= i < |store| && store[i].incident == incident
  }

  /** The sum of the tree sizes over the incident's roots among the first n exports. */
  ghost function SumOfTrees(store: seq<Export>, roots: seq<nat>, incident: nat, n: nat): nat
    requires n <= |store| == |roots|
  {
    if n == 0 then 0
    else SumOfTrees(store, roots, incident, n - 1)
         + if store[n - 1].incident == incident && store[n - 1].parent.NoParent? then |Tree(roots, n - 1)| else 0
  }

  ghost function RootedBelow(store: seq<Export>, roots: seq<nat>, incident: nat, n: nat): set<nat>
    requires |store| == |roots|
  {
    set i | 0 <= i < |store| && store[i].incident == incident && roots[i] < n
  }

  ghost predicate SameIncidentAsRoot(store: seq<Export>, roots: seq<nat>) {
    RootedStore(store, roots)
    && forall i | 0 <= i < |roots| :: store[roots[i]].parent.NoParent? && store[roots[i]].incident == store[i].incident
  }

  lemma RootedNext(store: seq<Export>, roots: seq<nat>, incident: nat, n: nat)
    requires SameIncidentAsRoot(store, roots) && n < |store|
    ensures |RootedBelow(store, roots, incident, n + 1)| == |RootedBelow(store, roots, incident, n)|
         + if store[n].incident == incident && store[n].parent.NoParent? then |Tree(roots, n)| else 0
  {
    var before, after := RootedBelow(store, roots, incident, n), RootedBelow(store, roots, incident, n + 1);
    var tree := if store[n].incident == incident && store[n].parent.NoParent? then Tree(roots, n) else {};
    forall i | 0 <= i < |store| ensures i in after <==> i in before || i in tree {
      if roots[i] == n {
        assert store[n].parent.NoParent? && store[n].incident == store[i].incident;
      }
    }
    assert after == before + tree && before * tree == {};
  }

  lemma {:induction false} SumCounts(store: seq<Export>, roots: seq<nat>, incident: nat, n: nat)
    requires SameIncidentAsRoot(store, roots) && n <= |store|
    ensures SumOfTrees(store, roots, incident, n) == |RootedBelow(store, roots, incident, n)|
    decreases n
  {
    if n == 0 {
      assert RootedBelow(store, roots, incident, 0) == {};
    } else {
      SumCounts(store, roots, incident, n - 1);
      RootedNext(store, roots, incident, n - 1);
    }
  }

  /** The per-root counts add up to the number of exports of the incident. */
  lemma TreesPartitionIncident(steps: seq<Step>, incident: nat)
    ensures var store := Run(EMPTY, steps).exports;
      SumOfTrees(store, Roots(store), incident, |store|) == |IncidentIndices(store, incident)|
  {
    var store := Run(EMPTY, steps).exports;
    var roots := Roots(store);
    ForestIsRooted(store);
    SumCounts(store, roots, incident, |store|);
    assert IncidentIndices(store, incident) == RootedBelow(store, roots, incident, |store|);
  }

  /** Two retries of one export inserted before either is counted would both be numbered 3. */
  lemma InterleavedRetriesCollide()
    ensures var store := [Export(1, 7, NoParent), Export(2, 7, RetryOf(1)), Export(3, 7, RetryOf(1))];
      && Forest(store) && Roots(store) == [0, 0, 0]
      && |Tree(Roots(store), 0)| == 3 != Rank(Roots(store), 1)
  {
    var store := [Export(1, 7, NoParent), Export(2, 7, RetryOf(1)), Export(3, 7, RetryOf(1))];
    assert HasParent(store, 1) by { assert store[0].id == 1; }
    assert HasParent(store, 2) by { assert store[0].id == 1; }
    assert ParentIndex(store, 1) == 0 && ParentIndex(store, 2) == 0;
    assert RootIndex(store, 0) == 0 && RootIndex(store, 1) == 0 && RootIndex(store, 2) == 0;
    var roots: seq<nat> := [0, 0, 0];
    assert Roots(store) == roots;
    assert Tree(roots, 0) == {0, 1, 2} && TreeUpTo(roots, 0, 2) == {0, 1};
  }
}
