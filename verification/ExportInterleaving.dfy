/** Retries that run side by side: the row of a retry is committed before its attempt number is
    counted, so other requests may come in between (backend/app/api/routes_exports.py,
    backend/app/db/repo/exports.py). */
module ExportInterleaving {
  import opened ExportRetries
  import opened Statuses

  /** What the count of a retry recorded, and how many exports were in the table at that time. */
  datatype Counting = Counting(id: nat, attempt: nat, size: nat)

  /** The tables, the retries that are inserted but not yet counted, and the counts so far. */
  datatype Desk = Desk(state: State, waiting: set<nat>, counts: seq<Counting>)

  const START := Desk(EMPTY, {}, [])

  datatype Action =
    | NewExport(id: nat, incident: nat, enqueued: bool)
    | InsertRetry(prior: nat, id: nat)
    | CountRetry(id: nat, enqueued: bool)
    | Worker(id: nat, status: ExportStatus)

  function WithRow(s: State, e: Export): State {
    State(s.exports + [e], s.status[e.id := Requested], s.log)
  }

  /** The tree size of an export, which is what the count computes. */
  ghost function TreeSize(s: State, id: nat): nat
    requires Sound(s) && HasId(s.exports, id)
  {
    |Tree(Roots(s.exports), RootIndex(s.exports, WithId(s.exports, id)))|
  }

  ghost function AfterCount(d: Desk, id: nat, enqueued: bool): Desk
    requires Sound(d.state) && HasId(d.state.exports, id)
  {
    var s, attempt := d.state, TreeSize(d.state, id);
    var parent := s.exports[WithId(s.exports, id)].parent;
    var prior := if parent.RetryOf? then parent.id else id;
    Desk(State(s.exports, if enqueued then s.status[id := Queued] else s.status,
               s.log + [RetryRequested(id, prior, attempt)] + QueuedEvents(id, attempt, enqueued)),
         d.waiting - {id}, d.counts + [Counting(id, attempt, |s.exports|)])
  }

  ghost function Next(d: Desk, action: Action): Desk
    requires Sound(d.state)
  {
    match action
    case NewExport(id, incident, enqueued) => d.(state := Apply(d.state, Create(id, incident, enqueued)))
    case InsertRetry(prior, id) =>
      if !Retryable(d.state, prior, id) then d
      else d.(state := WithRow(d.state, RetryRow(d.state, prior, id)), waiting := d.waiting + {id})
    case CountRetry(id, enqueued) =>
      if id in d.waiting && HasId(d.state.exports, id) then AfterCount(d, id, enqueued) else d
    case Worker(id, status) => d.(state := Apply(d.state, Work(id, status)))
  }

  // ---------------------------------------------------------------------------
  // What every count recorded
  // ---------------------------------------------------------------------------

  /** The recorded number is the number of tree members among the exports present at the count. */
  ghost predicate CountedThen(store: seq<Export>, c: Counting)
    requires Forest(store)
  {
    && HasId(store, c.id) && WithId(store, c.id) < c.size <= |store|
    && c.attempt == |TreeUpTo(Roots(store), RootIndex(store, WithId(store, c.id)), c.size)|
  }

  ghost predicate Ok(d: Desk) {
    && Sound(d.state)
    && (forall id | id in d.waiting :: HasId(d.state.exports, id))
    && (forall k | 0 <= k < |d.counts| :: CountedThen(d.state.exports, d.counts[k]))
  }

  lemma IdStays(store: seq<Export>, e: Export, id: nat)
    requires UniqueIds(store + [e]) && HasId(store, id)
    ensures HasId(store + [e], id) && WithId(store + [e], id) == WithId(store, id)
  {
    assert (store + [e])[WithId(store, id)] == store[WithId(store, id)];
  }

  /** A later row changes no number that was counted before it. */
  lemma CountStays(store: seq<Export>, e: Export, c: Counting)
    requires Forest(store) && Forest(store + [e]) && CountedThen(store, c)
    ensures CountedThen(store + [e], c)
  {
    IdStays(store, e, c.id);
    RootsStable(store, e);
    RootStable(store, e, WithId(store, c.id));
    var r := RootIndex(store, WithId(store, c.id));
    assert TreeUpTo(Roots(store + [e]), r, c.size) == TreeUpTo(Roots(store), r, c.size);
  }

  lemma AppendKeepsOk(d: Desk, d': Desk, e: Export)
    requires Ok(d) && Sound(d'.state) && d'.state.exports == d.state.exports + [e]
    requires d'.counts == d.counts && d'.waiting <= d.waiting + {e.id}
    ensures Ok(d')
  {
    forall id | id in d'.waiting ensures HasId(d'.state.exports, id) {
      if id == e.id {
        assert d'.state.exports[|d.state.exports|].id == id;
      } else {
        IdStays(d.state.exports, e, id);
      }
    }
    forall k | 0 <= k < |d'.counts| ensures CountedThen(d'.state.exports, d'.counts[k]) {
      CountStays(d.state.exports, e, d.counts[k]);
    }
  }

  lemma RowKeepsSound(s: State, e: Export)
    requires Sound(s) && e.id !in s.status && Forest(s.exports + [e])
    ensures Sound(WithRow(s, e))
  {
    forall id | id in WithRow(s, e).status ensures HasId(s.exports + [e], id) {
      if id == e.id {
        assert (s.exports + [e])[|s.exports|].id == id;
      } else {
        IdStays(s.exports, e, id);
      }
    }
  }

  lemma CountKeepsOk(d: Desk, id: nat, enqueued: bool)
    requires Ok(d) && HasId(d.state.exports, id)
    ensures Ok(AfterCount(d, id, enqueued))
  {
    var d' := AfterCount(d, id, enqueued);
    assert d.state.exports[WithId(d.state.exports, id)].id in d.state.status;
    assert CountedThen(d.state.exports, Counting(id, TreeSize(d.state, id), |d.state.exports|));
    forall k | 0 <= k < |d'.counts| ensures CountedThen(d'.state.exports, d'.counts[k]) {
      if k < |d.counts| {
        assert CountedThen(d.state.exports, d.counts[k]);
      }
    }
  }

  lemma NextKeepsOk(d: Desk, action: Action)
    requires Ok(d)
    ensures Ok(Next(d, action))
  {
    var s := d.state;
    match action
    case NewExport(id, incident, enqueued) =>
      StepKeepsSound(s, Create(id, incident, enqueued));
      if id !in s.status {
        AppendKeepsOk(d, Next(d, action), Export(id, incident, NoParent));
      }
    case InsertRetry(prior, id) =>
      if Retryable(s, prior, id) {
        var e := RetryRow(s, prior, id);
        RowKeepsSound(s, e);
        AppendKeepsOk(d, Next(d, action), e);
      }
    case CountRetry(id, enqueued) =>
      if id in d.waiting {
        CountKeepsOk(d, id, enqueued);
      }
    case Worker(id, status) =>
      StepKeepsSound(s, Work(id, status));
  }

  // ---------------------------------------------------------------------------
  // Runs
  // ---------------------------------------------------------------------------

  ghost function RunOf(d: Desk, actions: seq<Action>): (d': Desk)
    requires Ok(d)
    ensures Ok(d')
    decreases |actions|
  {
    if actions == [] then d
    else
      NextKeepsOk(d, actions[0]);
      RunOf(Next(d, actions[0]), actions[1..])
  }

  ghost predicate JoinedBetween(roots: seq<nat>, r: nat, from: nat, to: nat)
    requires to <= |roots|
  {
    exists j :: from <= j < to && roots[j] == r
  }

  /** Two stretches of the table hold equally many members of a tree exactly when none lies between. */
  lemma EqualCountsExactly(roots: seq<nat>, r: nat, from: nat, to: nat)
    requires from <= to <= |roots|
    ensures |TreeUpTo(roots, r, from)| == |TreeUpTo(roots, r, to)| <==> !JoinedBetween(roots, r, from, to)
  {
    var a, b := TreeUpTo(roots, r, from), TreeUpTo(roots, r, to);
    assert a <= b;
    if j :| from <= j < to && roots[j] == r {
      var j': nat := j;
      CardinalityOfSubset(a, b, j');
    } else {
      assert a == b;
    }
  }

  /** The number counts the members of the tree that were in the table at the count, and is the
      position in the tree exactly when no member joined between the row and its count. */
  ghost predicate RecordedRight(store: seq<Export>, c: Counting)
    requires Forest(store)
  {
    HasId(store, c.id) &&
    var i, roots := WithId(store, c.id), Roots(store);
    && i < c.size <= |store|
    && c.attempt == |TreeUpTo(roots, roots[i], c.size)|
    && (c.attempt == Rank(roots, i) <==> !JoinedBetween(roots, roots[i], i + 1, c.size))
  }

  lemma CountedIsRight(store: seq<Export>, c: Counting)
    requires Forest(store) && CountedThen(store, c)
    ensures RecordedRight(store, c)
  {
    hide Forest, TreeUpTo, JoinedBetween, HasId;
    var i, roots := WithId(store, c.id), Roots(store);
    assert roots[i] == RootIndex(store, i);
    EqualCountsExactly(roots, roots[i], i + 1, c.size);
  }

  /** Over every interleaved run every recorded number is right in that sense. */
  lemma RecordedExactly(actions: seq<Action>, k: nat)
    requires k < |RunOf(START, actions).counts|
    ensures RecordedRight(RunOf(START, actions).state.exports, RunOf(START, actions).counts[k])
  {
    var d := RunOf(START, actions);
    CountedIsRight(d.state.exports, d.counts[k]);
  }

  /** Two retries of one tree record the same number if and only if no member of the tree was inserted
      between the two counts. */
  lemma SameNumberExactly(actions: seq<Action>, k: nat, l: nat)
    requires k < |RunOf(START, actions).counts| && l < |RunOf(START, actions).counts|
    requires var d := RunOf(START, actions);
      && d.counts[k].size <= d.counts[l].size
      && HasId(d.state.exports, d.counts[k].id) && HasId(d.state.exports, d.counts[l].id)
      && RootIndex(d.state.exports, WithId(d.state.exports, d.counts[k].id))
         == RootIndex(d.state.exports, WithId(d.state.exports, d.counts[l].id))
    ensures var d := RunOf(START, actions);
      var r := RootIndex(d.state.exports, WithId(d.state.exports, d.counts[k].id));
      && d.counts[k].size <= d.counts[l].size <= |d.state.exports|
      && (d.counts[k].attempt == d.counts[l].attempt
          <==> !JoinedBetween(Roots(d.state.exports), r, d.counts[k].size, d.counts[l].size))
  {
    var d := RunOf(START, actions);
    assert CountedThen(d.state.exports, d.counts[k]) && CountedThen(d.state.exports, d.counts[l]);
    var r := RootIndex(d.state.exports, WithId(d.state.exports, d.counts[k].id));
    EqualCountsExactly(Roots(d.state.exports), r, d.counts[k].size, d.counts[l].size);
  }

  /** A retry that is counted right after its insert is the uninterrupted retry. */
  lemma UninterruptedRetry(d: Desk, prior: nat, id: nat, enqueued: bool)
    requires Ok(d) && Retryable(d.state, prior, id)
    ensures Ok(Next(d, InsertRetry(prior, id)))
    ensures Next(Next(d, InsertRetry(prior, id)), CountRetry(id, enqueued)).state
         == Apply(d.state, Retry(prior, id, enqueued))
  {
    NextKeepsOk(d, InsertRetry(prior, id));
    var s, e := d.state, RetryRow(d.state, prior, id);
    var s1 := WithRow(s, e);
    assert s1.exports[|s.exports|].id == id;
    assert WithId(s1.exports, id) == |s.exports|;
    var attempt := TreeSize(s1, id);
    RetryApplied(s, prior, id, enqueued, e, attempt);
    assert s1.status[id := Queued] == s.status[id := Queued];
  }

  lemma RunOfTwo(d: Desk, a: Action, b: Action)
    requires Ok(d) && Ok(Next(d, a))
    ensures RunOf(d, [a, b]) == Next(Next(d, a), b)
  {
    NextKeepsOk(Next(d, a), b);
    assert [a, b][1..] == [b] && [b][1..] == [];
    assert RunOf(Next(d, a), [b]) == Next(Next(d, a), b);
  }

  /** A desk at which two retries of one failed export are inserted and neither is counted. */
  ghost predicate TwoWaiting(d: Desk) {
    && Ok(d) && d.counts == [] && d.waiting == {2, 3}
    && d.state.exports == [Export(1, 7, NoParent), Export(2, 7, RetryOf(1)), Export(3, 7, RetryOf(1))]
  }

  lemma FirstRowFailed() returns (d: Desk)
    ensures Ok(d) && d == RunOf(START, [NewExport(1, 7, true), Worker(1, Failed)])
    ensures d.state.exports == [Export(1, 7, NoParent)] && d.state.status == map[1 := Failed]
    ensures d.waiting == {} && d.counts == []
  {
    var d1 := Next(START, NewExport(1, 7, true));
    NextKeepsOk(START, NewExport(1, 7, true));
    RunOfTwo(START, NewExport(1, 7, true), Worker(1, Failed));
    d := RunOf(START, [NewExport(1, 7, true), Worker(1, Failed)]);
    assert d1.state.exports == [Export(1, 7, NoParent)];
  }

  lemma TwoRowsWaiting(d: Desk) returns (d': Desk)
    requires Ok(d) && d.state.exports == [Export(1, 7, NoParent)] && d.state.status == map[1 := Failed]
    requires d.waiting == {} && d.counts == []
    ensures d' == RunOf(d, [InsertRetry(1, 2), InsertRetry(1, 3)]) && TwoWaiting(d')
  {
    var d1 := Next(d, InsertRetry(1, 2));
    NextKeepsOk(d, InsertRetry(1, 2));
    assert WithId(d.state.exports, 1) == 0;
    assert d1.state.exports == [Export(1, 7, NoParent), Export(2, 7, RetryOf(1))];
    assert d1.state.exports[WithId(d1.state.exports, 1)] == d1.state.exports[0];
    RunOfTwo(d, InsertRetry(1, 2), InsertRetry(1, 3));
    d' := RunOf(d, [InsertRetry(1, 2), InsertRetry(1, 3)]);
  }

  /** From there both are numbered 3. */
  lemma BothCountThree(d: Desk)
    requires TwoWaiting(d)
    ensures RunOf(d, [CountRetry(2, true), CountRetry(3, true)]).counts == [Counting(2, 3, 3), Counting(3, 3, 3)]
  {
    InterleavedRetriesCollide();
    var store := d.state.exports;
    assert store[1].id == 2 && store[2].id == 3;
    assert WithId(store, 2) == 1 && WithId(store, 3) == 2;
    assert RootIndex(store, 1) == Roots(store)[1] && RootIndex(store, 2) == Roots(store)[2];
    var d1 := Next(d, CountRetry(2, true));
    NextKeepsOk(d, CountRetry(2, true));
    RunOfTwo(d, CountRetry(2, true), CountRetry(3, true));
    assert d1.state.exports == store && d1.waiting == {3};
  }

  lemma {:induction false} RunOfAppend(d: Desk, a: seq<Action>, b: seq<Action>)
    requires Ok(d)
    ensures RunOf(d, a + b) == RunOf(RunOf(d, a), b)
    decreases |a|
  {
    if a == [] {
      assert a + b == b;
    } else {
      assert (a + b)[1..] == a[1..] + b;
      NextKeepsOk(d, a[0]);
      RunOfAppend(Next(d, a[0]), a[1..], b);
    }
  }

  /** A run in which the two retries of a failed export record the same number. */
  lemma CollidingRun()
    ensures var failed := [NewExport(1, 7, true), Worker(1, Failed)];
      RunOf(START, failed + [InsertRetry(1, 2), InsertRetry(1, 3)] + [CountRetry(2, true), CountRetry(3, true)]).counts
      == [Counting(2, 3, 3), Counting(3, 3, 3)]
  {
    var failed := [NewExport(1, 7, true), Worker(1, Failed)];
    var d1 := FirstRowFailed();
    var d2 := TwoRowsWaiting(d1);
    RunOfAppend(START, failed, [InsertRetry(1, 2), InsertRetry(1, 3)]);
    RunOfAppend(START, failed + [InsertRetry(1, 2), InsertRetry(1, 3)], [CountRetry(2, true), CountRetry(3, true)]);
    BothCountThree(d2);
  }
}
