/** The case workflow and its event log (backend/app/case_ops/workflow.py,
    backend/app/api/routes_incidents.py, backend/app/tasks/export_tasks.py). */
module CaseWorkflow {
  import opened Statuses

  /** A status text as the validator reads it. */
  datatype Parsed = Known(status: CaseStatus) | Unknown

  datatype Verdict = Allowed | UnknownSource | UnknownTarget | NeedsPermission | NotPermitted

  datatype Capability = CanClose | CanReopen | CanEscalate

  /** What the signed-in user may do: an administrator role, and the capabilities of the role. */
  datatype Actor = Actor(admin: bool, capabilities: set<Capability>)

  datatype Event =
    | Updated
    | StatusChanged(previous: CaseStatus, next: CaseStatus)
    | WasEscalated
    | WasClosed
    | WasReopened

  datatype Response = Ok | RoleForbidden | CapabilityMissing(capability: Capability) | Conflict(verdict: Verdict)

  datatype Option<T> = None | Some(value: T)

  // ---------------------------------------------------------------------------
  // The validator
  // ---------------------------------------------------------------------------

  function AllowedTargets(source: CaseStatus): set<CaseStatus> {
    match source
    case New => {InReview, AwaitingEvidence}
    case InReview => {AwaitingEvidence, AwaitingFollowUp, ReadyForExport}
    case AwaitingEvidence => {InReview, AwaitingFollowUp}
    case AwaitingFollowUp => {InReview, ReadyForExport}
    case ReadyForExport => {Exported, AwaitingFollowUp}
    case Exported => {}
    case Escalated => {InReview, AwaitingFollowUp, ReadyForExport}
    case Closed => {}
  }

  function PrivilegedTargets(source: CaseStatus): set<CaseStatus> {
    match source
    case New => {Closed, Escalated}
    case InReview => {Closed, Escalated}
    case AwaitingEvidence => {Closed, Escalated}
    case AwaitingFollowUp => {Closed, Escalated}
    case ReadyForExport => {Closed, Escalated}
    case Exported => {Closed, Escalated}
    case Escalated => {Closed}
    case Closed => {InReview}
  }

  function ValidateTransition(source: Parsed, target: Parsed, allowPrivileged: bool): Verdict {
    if source.Unknown? then UnknownSource
    else if target.Unknown? then UnknownTarget
    else if source == target then Allowed
    else if target.status in AllowedTargets(source.status) then Allowed
    else if target.status in PrivilegedTargets(source.status) && !allowPrivileged then NeedsPermission
    else if target.status !in PrivilegedTargets(source.status) then NotPermitted
    else Allowed
  }

  // ---------------------------------------------------------------------------
  // The patch endpoint and the export worker
  // ---------------------------------------------------------------------------

  function RequiredCapability(from: CaseStatus, to: CaseStatus): Option<Capability> {
    if to == Closed then Some(CanClose)
    else if from == Closed && to == InReview then Some(CanReopen)
    else if to == Escalated then Some(CanEscalate)
    else None
  }

  function PatchResponse(from: CaseStatus, actor: Actor, to: CaseStatus): Response {
    var required := RequiredCapability(from, to);
    if to == Closed && !actor.admin then RoleForbidden
    else if required.Some? && required.value !in actor.capabilities then CapabilityMissing(required.value)
    else
      var verdict := ValidateTransition(Known(from), Known(to), required.Some?);
      if verdict == Allowed then Ok else Conflict(verdict)
  }

  /** The events one accepted patch records, in order. */
  function PatchEvents(from: CaseStatus, to: CaseStatus): seq<Event> {
    [Updated, StatusChanged(from, to)]
    + (if to == Escalated then [WasEscalated] else [])
    + (if to == Closed then [WasClosed] else [])
    + (if from == Closed && to != Closed then [WasReopened] else [])
  }

  datatype Case = Case(status: CaseStatus, log: seq<Event>)

  datatype Step = Patch(actor: Actor, to: CaseStatus) | ExportFinished

  function Apply(c: Case, step: Step): Case {
    match step
    case Patch(actor, to) =>
      if PatchResponse(c.status, actor, to) == Ok then Case(to, c.log + PatchEvents(c.status, to)) else c
    case ExportFinished =>
      if c.status == ReadyForExport then Case(Exported, c.log + [StatusChanged(ReadyForExport, Exported)]) else c
  }

  class CaseRow {
    var status: CaseStatus
    var log: seq<Event>

    constructor ()
      ensures status == New && log == []
    {
      status, log := New, [];
    }

    method PatchIncidentStatus(actor: Actor, to: CaseStatus) returns (response: Response)
      modifies this
      ensures response == PatchResponse(old(status), actor, to)
      ensures Case(status, log) == Apply(old(Case(status, log)), Patch(actor, to))
    {
      var required := RequiredCapability(status, to);
      if to == Closed && !actor.admin {
        return RoleForbidden;
      }
      if required.Some? && required.value !in actor.capabilities {
        return CapabilityMissing(required.value);
      }
      var verdict := ValidateTransition(Known(status), Known(to), required.Some?);
      if verdict != Allowed {
        return Conflict(verdict);
      }
      var from := status;
      status := to;
      log := log + [Updated];
      log := log + [StatusChanged(from, to)];
      if to == Escalated {
        log := log + [WasEscalated];
      }
      if to == Closed {
        log := log + [WasClosed];
      }
      if from == Closed && to != Closed {
        log := log + [WasReopened];
      }
      assert log == old(log) + PatchEvents(from, to);
      return Ok;
    }

    method SyncAfterExport()
      modifies this
      ensures Case(status, log) == Apply(old(Case(status, log)), ExportFinished)
    {
      if status != ReadyForExport {
        return;
      }
      status := Exported;
      log := log + [StatusChanged(ReadyForExport, Exported)];
    }
  }

  // ---------------------------------------------------------------------------
  // Exactly when a patch is accepted
  // ---------------------------------------------------------------------------

  /** Whether a case may move between two statuses at all, privileges aside. */
  predicate Connected(from: CaseStatus, to: CaseStatus) {
    match to
    case New => from == New
    case InReview => from != ReadyForExport && from != Exported
    case AwaitingEvidence => from == New || from == InReview || from == AwaitingEvidence
    case AwaitingFollowUp => from != New && from != Exported && from != Closed
    case ReadyForExport => from == InReview || from == AwaitingFollowUp || from == ReadyForExport || from == Escalated
    case Exported => from == ReadyForExport || from == Exported
    case Escalated => from != Closed
    case Closed => true
  }

  /** A patch is accepted if and only if the statuses are connected and the user is an administrator
      who may close (to close), may escalate (to escalate), or may reopen (to leave `closed`). */
  lemma AcceptedExactly(from: CaseStatus, actor: Actor, to: CaseStatus)
    ensures PatchResponse(from, actor, to) == Ok
      <==> (&& Connected(from, to)
            && (to == Closed ==> actor.admin && CanClose in actor.capabilities)
            && (to == Escalated ==> CanEscalate in actor.capabilities)
            && (from == Closed && to != Closed ==> CanReopen in actor.capabilities))
  {
    match from case New => case InReview => case AwaitingEvidence => case AwaitingFollowUp =>
    case ReadyForExport => case Exported => case Escalated => case Closed =>
  }

  /** The validator's refusal for want of permission never reaches a caller of the endpoint: every
      privileged move already has a capability of its own. A conflict means an unconnected pair. */
  lemma ConflictExactly(from: CaseStatus, actor: Actor, to: CaseStatus)
    ensures PatchResponse(from, actor, to) != Conflict(NeedsPermission)
    ensures PatchResponse(from, actor, to).Conflict? ==> !Connected(from, to)
    ensures !Connected(from, to) && RequiredCapability(from, to).None? ==> PatchResponse(from, actor, to) == Conflict(NotPermitted)
  {
    match from case New => case InReview => case AwaitingEvidence => case AwaitingFollowUp =>
    case ReadyForExport => case Exported => case Escalated => case Closed =>
  }

  /** The validator alone: what it allows, and why it refuses. A move to `closed`, to `escalated`, or from
      `closed` to `in_review` needs permission. */
  lemma ValidateExactly(source: Parsed, target: Parsed, allowPrivileged: bool)
    ensures ValidateTransition(source, target, allowPrivileged)
         == if source == Unknown then UnknownSource
            else if target == Unknown then UnknownTarget
            else if !Connected(source.status, target.status) then NotPermitted
            else if source != target && !allowPrivileged
                    && (target.status == Closed || target.status == Escalated || source.status == Closed) then NeedsPermission
            else Allowed
  {
    if source.Known? {
      match source.status case New => case InReview => case AwaitingEvidence => case AwaitingFollowUp =>
      case ReadyForExport => case Exported => case Escalated => case Closed =>
    }
  }

  /** Which refusal a patch gets: the administrator role is asked for first, then the capability. */
  lemma RefusedExactly(from: CaseStatus, actor: Actor, to: CaseStatus)
    ensures PatchResponse(from, actor, to) == RoleForbidden <==> to == Closed && !actor.admin
    ensures PatchResponse(from, actor, to) == CapabilityMissing(CanClose)
      <==> to == Closed && actor.admin && CanClose !in actor.capabilities
    ensures PatchResponse(from, actor, to) == CapabilityMissing(CanReopen)
      <==> from == Closed && to == InReview && CanReopen !in actor.capabilities
    ensures PatchResponse(from, actor, to) == CapabilityMissing(CanEscalate)
      <==> to == Escalated && CanEscalate !in actor.capabilities
  {
    hide ValidateTransition;
  }

  /** An accepted patch sets the status and records the update, the change, and what the change calls
      for; a refused one changes nothing. */
  lemma PatchEffect(c: Case, actor: Actor, to: CaseStatus)
    ensures Apply(c, Patch(actor, to))
         == if PatchResponse(c.status, actor, to) != Ok then c
            else Case(to, c.log + ([Updated, StatusChanged(c.status, to)]
                                   + (if to == Escalated then [WasEscalated] else if to == Closed then [WasClosed] else [])
                                   + (if c.status == Closed && to != Closed then [WasReopened] else [])))
  {
    hide PatchResponse;
  }

  /** A finished export moves a case that is ready for export to exported and records it; any other case
      stays as it is. */
  lemma ExportEffect(c: Case)
    ensures Apply(c, ExportFinished)
         == if c.status == ReadyForExport then Case(Exported, c.log + [StatusChanged(ReadyForExport, Exported)]) else c
  {}

  // ---------------------------------------------------------------------------
  // Reading the log
  // ---------------------------------------------------------------------------

  /** The status a reader reconstructs from the log of a case that started as new. */
  function Replay(log: seq<Event>): CaseStatus {
    if log == [] then New
    else
      var last := log[|log| - 1];
      if last.StatusChanged? then last.next else Replay(log[..|log| - 1])
  }

  /** Whether the last closing or reopening event of the log is a closing one. */
  predicate ClosedByLog(log: seq<Event>) {
    log != [] &&
    var last := log[|log| - 1];
    if last.WasClosed? then true
    else if last.WasReopened? then false
    else ClosedByLog(log[..|log| - 1])
  }

  /** Every entry fits what the log says before it: a status change starts from the replayed status
      and follows a connection, and only a closed case is reopened. */
  ghost predicate Coherent(log: seq<Event>) {
    forall i | 0 <= i < |log| :: Fits(log, i)
  }

  ghost predicate Fits(log: seq<Event>, i: nat)
    requires i < |log|
  {
    && (log[i].StatusChanged? ==> log[i].previous == Replay(log[..i]) && Connected(log[i].previous, log[i].next))
    && (log[i].WasReopened? ==> ClosedByLog(log[..i]))
  }

  ghost predicate Good(c: Case) {
    && Coherent(c.log)
    && Replay(c.log) == c.status
    && (ClosedByLog(c.log) <==> c.status == Closed)
  }

  lemma AppendOne(log: seq<Event>, event: Event)
    requires Coherent(log)
    requires event.StatusChanged? ==> event.previous == Replay(log) && Connected(event.previous, event.next)
    requires event.WasReopened? ==> ClosedByLog(log)
    ensures Coherent(log + [event])
    ensures Replay(log + [event]) == if event.StatusChanged? then event.next else Replay(log)
    ensures ClosedByLog(log + [event]) <==> event.WasClosed? || (ClosedByLog(log) && !event.WasReopened?)
  {
    var longer := log + [event];
    assert longer[..|log|] == log;
    forall i | 0 <= i < |longer| ensures Fits(longer, i) {
      if i < |log| {
        assert longer[..i] == log[..i] && Fits(log, i);
      }
    }
  }

  lemma PatchKeepsGood(c: Case, actor: Actor, to: CaseStatus)
    requires Good(c)
    ensures Good(Apply(c, Patch(actor, to)))
  {
    if PatchResponse(c.status, actor, to) == Ok {
      AcceptedExactly(c.status, actor, to);
      var log := c.log + [Updated];
      AppendOne(c.log, Updated);
      AppendOne(log, StatusChanged(c.status, to));
      log := log + [StatusChanged(c.status, to)];
      if to == Escalated {
        AppendOne(log, WasEscalated);
        log := log + [WasEscalated];
      }
      if to == Closed {
        AppendOne(log, WasClosed);
        log := log + [WasClosed];
      }
      if c.status == Closed && to != Closed {
        AppendOne(log, WasReopened);
        log := log + [WasReopened];
      }
      assert log == c.log + PatchEvents(c.status, to);
    }
  }

  lemma StepKeepsGood(c: Case, step: Step)
    requires Good(c)
    ensures Good(Apply(c, step))
  {
    match step
    case Patch(actor, to) => PatchKeepsGood(c, actor, to);
    case ExportFinished =>
      if c.status == ReadyForExport {
        AppendOne(c.log, StatusChanged(ReadyForExport, Exported));
      }
  }

  // ---------------------------------------------------------------------------
  // Runs
  // ---------------------------------------------------------------------------

  const NEW_CASE := Case(New, [])

  function Run(c: Case, steps: seq<Step>): Case
    decreases |steps|
  {
    if steps == [] then c else Run(Apply(c, steps[0]), steps[1..])
  }

  lemma {:induction false} RunKeepsGood(c: Case, steps: seq<Step>)
    requires Good(c)
    ensures Good(Run(c, steps))
    decreases |steps|
  {
    if steps != [] {
      StepKeepsGood(c, steps[0]);
      RunKeepsGood(Apply(c, steps[0]), steps[1..]);
    }
  }

  /** Over every run, replaying the log yields the stored status, and the case is closed if and only
      if the last closing or reopening event is a closing one. */
  lemma LogReplays(steps: seq<Step>)
    ensures var c := Run(NEW_CASE, steps);
      Replay(c.log) == c.status && (ClosedByLog(c.log) <==> c.status == Closed)
  {
    RunKeepsGood(NEW_CASE, steps);
  }

  /** Consecutive status changes chain: with no other change in between, the later one starts where
      the earlier one ended, and the first one starts from `new`. */
  lemma ChangesChain(steps: seq<Step>, i: int, j: nat)
    requires -1 <= i < j < |Run(NEW_CASE, steps).log| && Run(NEW_CASE, steps).log[j].StatusChanged?
    requires i >= 0 ==> Run(NEW_CASE, steps).log[i].StatusChanged?
    requires forall k | i < k < j :: !Run(NEW_CASE, steps).log[k].StatusChanged?
    ensures var log := Run(NEW_CASE, steps).log;
      log[j].previous == (if i < 0 then New else log[i].next) && Connected(log[j].previous, log[j].next)
  {
    RunKeepsGood(NEW_CASE, steps);
    var log := Run(NEW_CASE, steps).log;
    assert Fits(log, j);
    ReplaySkips(log, i, j);
  }

  /** Replaying up to j, past entries that change no status, gives what the change at i left. */
  lemma {:induction false} ReplaySkips(log: seq<Event>, i: int, j: nat)
    requires -1 <= i < j <= |log|
    requires i >= 0 ==> log[i].StatusChanged?
    requires forall k | i < k < j :: !log[k].StatusChanged?
    ensures Replay(log[..j]) == if i < 0 then New else log[i].next
    decreases j
  {
    if j > i + 1 {
      ReplaySkips(log, i, j - 1);
      assert log[..j][..j - 1] == log[..j - 1];
    }
  }

  /** Between two reopenings there is always a closing, and a closing precedes every reopening. */
  lemma ClosedBeforeReopened(steps: seq<Step>, i: int, j: nat)
    requires -1 <= i < j < |Run(NEW_CASE, steps).log| && Run(NEW_CASE, steps).log[j].WasReopened?
    requires i >= 0 ==> Run(NEW_CASE, steps).log[i].WasReopened?
    ensures exists k | i < k < j :: Run(NEW_CASE, steps).log[k].WasClosed?
  {
    RunKeepsGood(NEW_CASE, steps);
    var log := Run(NEW_CASE, steps).log;
    assert Fits(log, j);
    ClosingExists(log, i, j);
  }

  lemma {:induction false} ClosingExists(log: seq<Event>, i: int, j: nat)
    requires -1 <= i < j <= |log| && ClosedByLog(log[..j])
    requires i >= 0 ==> log[i].WasReopened?
    ensures exists k | i < k < j :: log[k].WasClosed?
    decreases j
  {
    assert log[..j][j - 1] == log[j - 1] && log[..j][..j - 1] == log[..j - 1];
    if !log[j - 1].WasClosed? {
      assert j - 1 != i;
      ClosingExists(log, i, j - 1);
    }
  }

  // ---------------------------------------------------------------------------
  // Announcements
  // ---------------------------------------------------------------------------

  datatype Kind = Escalations | Closings | Reopenings

  predicate Announces(event: Event, kind: Kind) {
    match kind
    case Escalations => event.WasEscalated?
    case Closings => event.WasClosed?
    case Reopenings => event.WasReopened?
  }

  /** The status changes that have to be announced by an event of that kind. */
  predicate Calls(event: Event, kind: Kind) {
    event.StatusChanged? &&
    match kind
    case Escalations => event.next == Escalated
    case Closings => event.next == Closed
    case Reopenings => event.previous == Closed && event.next != Closed
  }

  function Announced(log: seq<Event>, kind: Kind): nat {
    if log == [] then 0 else Announced(log[..|log| - 1], kind) + if Announces(log[|log| - 1], kind) then 1 else 0
  }

  function CalledFor(log: seq<Event>, kind: Kind): nat {
    if log == [] then 0 else CalledFor(log[..|log| - 1], kind) + if Calls(log[|log| - 1], kind) then 1 else 0
  }

  lemma {:induction false} TalliesAdd(a: seq<Event>, b: seq<Event>, kind: Kind)
    ensures Announced(a + b, kind) == Announced(a, kind) + Announced(b, kind)
    ensures CalledFor(a + b, kind) == CalledFor(a, kind) + CalledFor(b, kind)
    decreases |b|
  {
    if b == [] {
      assert a + b == a;
    } else {
      TalliesAdd(a, b[..|b| - 1], kind);
      assert (a + b)[..|a + b| - 1] == a + b[..|b| - 1];
    }
  }

  lemma TallyNone(kind: Kind)
    ensures Announced([], kind) == 0 == CalledFor([], kind)
  {}

  lemma TallyOne(event: Event, kind: Kind)
    ensures Announced([event], kind) == (if Announces(event, kind) then 1 else 0)
    ensures CalledFor([event], kind) == (if Calls(event, kind) then 1 else 0)
  {
    assert [event][..0] == [];
  }

  lemma PatchAnnounces(from: CaseStatus, to: CaseStatus, kind: Kind)
    ensures Announced(PatchEvents(from, to), kind) == CalledFor(PatchEvents(from, to), kind)
  {
    hide Announced, CalledFor;
    TallyNone(kind);
    TallyOne(Updated, kind);
    TallyOne(StatusChanged(from, to), kind);
    TallyOne(WasEscalated, kind);
    TallyOne(WasClosed, kind);
    TallyOne(WasReopened, kind);
    var change := [Updated] + [StatusChanged(from, to)];
    var escalated := if to == Escalated then [WasEscalated] else [];
    var closed := if to == Closed then [WasClosed] else [];
    var reopened := if from == Closed && to != Closed then [WasReopened] else [];
    TalliesAdd([Updated], [StatusChanged(from, to)], kind);
    TalliesAdd(change, escalated, kind);
    TalliesAdd(change + escalated, closed, kind);
    TalliesAdd(change + escalated + closed, reopened, kind);
    assert PatchEvents(from, to) == change + escalated + closed + reopened;
  }

  /** Over every run, the log holds exactly as many escalation, closing and reopening events as there
      are status changes to `escalated`, to `closed`, and out of `closed`. */
  lemma {:induction false} EveryChangeIsAnnounced(c: Case, steps: seq<Step>, kind: Kind)
    requires Announced(c.log, kind) == CalledFor(c.log, kind)
    ensures Announced(Run(c, steps).log, kind) == CalledFor(Run(c, steps).log, kind)
    decreases |steps|
  {
    if steps != [] {
      hide Announced, CalledFor, PatchResponse, PatchEvents;
      match steps[0] {
        case Patch(_, to) =>
          PatchAnnounces(c.status, to, kind);
          TalliesAdd(c.log, PatchEvents(c.status, to), kind);
        case ExportFinished =>
          TallyOne(StatusChanged(ReadyForExport, Exported), kind);
          TalliesAdd(c.log, [StatusChanged(ReadyForExport, Exported)], kind);
      }
      EveryChangeIsAnnounced(Apply(c, steps[0]), steps[1..], kind);
    }
  }

  // ---------------------------------------------------------------------------
  // Runs without special capabilities
  // ---------------------------------------------------------------------------

  predicate Ordinary(step: Step) {
    step.Patch? ==> step.actor.capabilities == {}
  }

  /** Whether an entry is one that only a special capability can cause. */
  predicate Special(event: Event) {
    event.WasEscalated? || event.WasClosed? || event.WasReopened?
  }

  lemma {:induction false} OrdinaryStep(c: Case, step: Step)
    requires Ordinary(step)
    ensures c.status == Exported || c.status == Closed ==> Apply(c, step).status == c.status
    ensures Apply(c, step).status == Closed || Apply(c, step).status == Escalated ==> Apply(c, step).status == c.status
    ensures c.log <= Apply(c, step).log
    ensures forall k | |c.log| <= k < |Apply(c, step).log| :: !Special(Apply(c, step).log[k])
  {
    if step.Patch? {
      AcceptedExactly(c.status, step.actor, step.to);
    }
  }

  /** In a run where no user holds a special capability, `exported` and `closed` are never left,
      `closed` and `escalated` are never entered, and no special event is recorded. */
  lemma {:induction false} OrdinaryRun(c: Case, steps: seq<Step>)
    requires forall i | 0 <= i < |steps| :: Ordinary(steps[i])
    ensures c.status == Exported || c.status == Closed ==> Run(c, steps).status == c.status
    ensures Run(c, steps).status == Closed || Run(c, steps).status == Escalated ==> Run(c, steps).status == c.status
    ensures c.log <= Run(c, steps).log
    ensures forall k | |c.log| <= k < |Run(c, steps).log| :: !Special(Run(c, steps).log[k])
    decreases |steps|
  {
    if steps != [] {
      OrdinaryStep(c, steps[0]);
      OrdinaryRun(Apply(c, steps[0]), steps[1..]);
    }
  }
}
