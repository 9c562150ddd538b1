/** What each request does to the tables, and what an export's status says about the queue
    (backend/app/api/routes_exports.py). */
module ExportProgress {
  import opened ExportRetries
  import opened Statuses

  // ---------------------------------------------------------------------------
  // One step
  // ---------------------------------------------------------------------------

  /** A create with a new id adds one export without a parent, queued if the job was handed over; with
      a taken id it changes nothing. */
  lemma CreateEffect(s: State, id: nat, incident: nat, enqueued: bool)
    requires Sound(s)
    ensures var s' := Apply(s, Create(id, incident, enqueued));
      if id in s.status then s' == s
      else
        && s'.exports == s.exports + [Export(id, incident, NoParent)]
        && s'.status == s.status[id := if enqueued then Queued else Requested]
        && s'.log == s.log + [ExportRequested(id)] + (if enqueued then [ExportQueued(id, 1)] else [])
  {}

  /** A retry of a failed export adds one export of the same incident below it, queued if the job was
      handed over, and records the size of its tree; any other retry changes nothing. */
  lemma RetryEffect(s: State, prior: nat, id: nat, enqueued: bool)
    requires Sound(s)
    ensures var s' := Apply(s, Retry(prior, id, enqueued));
      if !(prior in s.status && s.status[prior] == Failed && id !in s.status) then s' == s
      else
        && HasId(s.exports, prior) && Forest(s'.exports) && |s'.exports| == |s.exports| + 1
        && s'.exports == s.exports + [Export(id, s.exports[WithId(s.exports, prior)].incident, RetryOf(prior))]
        && s'.status == s.status[id := if enqueued then Queued else Requested]
        && var attempt := |Tree(Roots(s'.exports), RootIndex(s'.exports, |s.exports|))|;
           s'.log == s.log + [RetryRequested(id, prior, attempt)]
                     + (if enqueued then [ExportQueued(id, attempt)] else [])
  {
    if prior in s.status && s.status[prior] == Failed && id !in s.status {
      var e := RetryRow(s, prior, id);
      RetryApplied(s, prior, id, enqueued, e, |Tree(Roots(s.exports + [e]), RootIndex(s.exports + [e], |s.exports|))|);
    }
  }

  /** A worker writes the status of one known export and nothing else. */
  lemma WorkEffect(s: State, id: nat, status: ExportStatus)
    requires Sound(s)
    ensures var s' := Apply(s, Work(id, status));
      && s'.exports == s.exports && s'.log == s.log
      && s'.status == if id in s.status then s.status[id := status] else s.status
  {}

  // ---------------------------------------------------------------------------
  // Runs
  // ---------------------------------------------------------------------------

  ghost predicate QueuedIn(log: seq<Event>, id: nat) {
    exists k :: 0 <= k < |log| && log[k].ExportQueued? && log[k].id == id
  }

  /** The exports whose status a worker may have written. */
  function Worked(steps: seq<Step>): set<nat> {
    if steps == [] then {} else (if steps[0].Work? then {steps[0].id} else {}) + Worked(steps[1..])
  }

  /** Only known exports are queued, and outside `worked` the status tells whether the export is. */
  ghost predicate Tells(s: State, worked: set<nat>) {
    && (forall id :: QueuedIn(s.log, id) ==> id in s.status)
    && (forall id | id in s.status && id !in worked :: s.status[id] == if QueuedIn(s.log, id) then Queued else Requested)
  }

  lemma QueuedAppend(log: seq<Event>, first: Event, id: nat, attempt: nat, enqueued: bool, x: nat)
    requires !first.ExportQueued?
    ensures var log' := log + [first] + (if enqueued then [ExportQueued(id, attempt)] else []);
      QueuedIn(log', x) <==> QueuedIn(log, x) || (enqueued && x == id)
  {
    var log' := log + [first] + (if enqueued then [ExportQueued(id, attempt)] else []);
    if k :| 0 <= k < |log| && log[k].ExportQueued? && log[k].id == x {
      assert log'[k] == log[k];
    }
    if enqueued && x == id {
      assert log'[|log| + 1] == ExportQueued(id, attempt);
    }
    if k :| 0 <= k < |log'| && log'[k].ExportQueued? && log'[k].id == x {
      assert k != |log| && (k < |log| ==> log[k] == log'[k]);
    }
  }

  lemma RowKeepsTelling(s: State, s': State, worked: set<nat>, first: Event, id: nat, attempt: nat, enqueued: bool)
    requires Tells(s, worked) && id !in s.status && !first.ExportQueued?
    requires s'.status == s.status[id := if enqueued then Queued else Requested]
    requires s'.log == s.log + [first] + (if enqueued then [ExportQueued(id, attempt)] else [])
    ensures Tells(s', worked)
  {
    forall x ensures QueuedIn(s'.log, x) <==> QueuedIn(s.log, x) || (enqueued && x == id) {
      QueuedAppend(s.log, first, id, attempt, enqueued, x);
    }
  }

  lemma StepKeepsTelling(s: State, step: Step, worked: set<nat>)
    requires Sound(s) && Tells(s, worked)
    ensures Sound(Apply(s, step)) && Tells(Apply(s, step), worked + if step.Work? then {step.id} else {})
  {
    hide Sound, QueuedIn;
    StepKeepsSound(s, step);
    match step
    case Create(id, incident, enqueued) =>
      CreateEffect(s, id, incident, enqueued);
      if id !in s.status {
        RowKeepsTelling(s, Apply(s, step), worked, ExportRequested(id), id, 1, enqueued);
      }
    case Retry(prior, id, enqueued) =>
      RetryEffect(s, prior, id, enqueued);
      var s' := Apply(s, step);
      if prior in s.status && s.status[prior] == Failed && id !in s.status {
        var attempt := |Tree(Roots(s'.exports), RootIndex(s'.exports, |s.exports|))|;
        RowKeepsTelling(s, s', worked, RetryRequested(id, prior, attempt), id, attempt, enqueued);
      }
    case Work(id, status) =>
  }

  lemma {:induction false} RunKeepsTelling(s: State, steps: seq<Step>, worked: set<nat>)
    requires Sound(s) && Tells(s, worked)
    ensures Tells(Run(s, steps), worked + Worked(steps))
    decreases |steps|
  {
    if steps == [] {
      assert worked + {} == worked;
    } else {
      StepKeepsTelling(s, steps[0], worked);
      RunKeepsTelling(Apply(s, steps[0]), steps[1..], worked + if steps[0].Work? then {steps[0].id} else {});
      assert worked + (if steps[0].Work? then {steps[0].id} else {}) + Worked(steps[1..]) == worked + Worked(steps);
    }
  }

  /** Over every run: an export no worker has touched is queued if its hand-over is recorded, and still
      requested if it is not. */
  lemma {:induction false} UntouchedStatusExactly(steps: seq<Step>, id: nat)
    requires id in Run(EMPTY, steps).status && forall i | 0 <= i < |steps| && steps[i].Work? :: steps[i].id != id
    ensures var s := Run(EMPTY, steps);
      && (s.status[id] == Queued <==> QueuedIn(s.log, id))
      && (s.status[id] == Requested <==> !QueuedIn(s.log, id))
  {
    RunKeepsTelling(EMPTY, steps, {});
    WorkedMembers(steps, id);
    assert {} + Worked(steps) == Worked(steps);
  }

  lemma {:induction false} WorkedMembers(steps: seq<Step>, id: nat)
    requires forall i | 0 <= i < |steps| && steps[i].Work? :: steps[i].id != id
    ensures id !in Worked(steps)
  {
    if steps != [] {
      WorkedMembers(steps[1..], id);
    }
  }
}
