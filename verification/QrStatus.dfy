/** What each QR endpoint does to the tables, and which step a vehicle's deployment status goes back to
    (backend/app/api/routes_qr_deployment.py, routes_admin.py, routes_driver.py). */
module QrStatus {
  import opened VehicleQr

  ghost predicate HasActive(tokens: seq<Token>, v: nat) {
    exists i :: 0 <= i < |tokens| && tokens[i].vehicle == v && tokens[i].status == Active
  }

  ghost predicate InService(s: State, v: nat) {
    v in s.vehicles && s.vehicles[v].active
  }

  lemma HasActiveExactly(tokens: seq<Token>, v: nat)
    ensures HasActive(tokens, v) <==> ActiveTokens(tokens, v) != []
  {
    SomeActive(tokens, v);
  }

  // ---------------------------------------------------------------------------
  // One step
  // ---------------------------------------------------------------------------

  lemma ImportEffect(s: State, v: nat, active: bool)
    ensures var s' := Apply(s, Import(v, active));
      && s'.tokens == s.tokens && s'.log == s.log
      && s'.vehicles == s.vehicles[v := Vehicle(active, if v in s.vehicles then s.vehicles[v].deployment else NotGenerated)]
  {}

  /** A print is accepted for a vehicle in service with an active token, and marks it distributed. */
  lemma PrintEffect(s: State, v: nat)
    ensures Apply(s, Print(v))
         == if InService(s, v) && HasActive(s.tokens, v)
            then State(s.tokens, s.vehicles[v := Vehicle(true, Distributed)], s.log + [QrDistributed(v)])
            else s
  {
    HasActiveExactly(s.tokens, v);
  }

  /** Resolving an active token confirms its vehicle if that is registered, active or not; resolving
      anything else changes nothing. */
  lemma ResolveEffect(s: State, i: nat, id: nat)
    requires Good(s)
    requires i < |s.tokens| && s.tokens[i].id == id
    ensures var s', w := Apply(s, Resolve(id)), s.tokens[i].vehicle;
      if s.tokens[i].status != Active then s' == s
      else
        && s'.tokens == s.tokens && s'.log == s.log + [Resolved(w)]
        && s'.vehicles == (if w in s.vehicles then s.vehicles[w := Vehicle(s.vehicles[w].active, Confirmed)] else s.vehicles)
  {
    hide Good, LinearChain;
    FoundExactly(s.tokens, id);
    var found := ActiveWithId(s.tokens, id);
    if found != [] {
      var j :| 0 <= j < |s.tokens| && s.tokens[j] == found[0] && s.tokens[j].id == id && s.tokens[j].status == Active;
      SameId(s, i, j);
    }
  }

  lemma SameId(s: State, i: nat, j: nat)
    requires Good(s) && i < |s.tokens| && j < |s.tokens| && s.tokens[i].id == s.tokens[j].id
    ensures i == j
  {}

  lemma ResolveNothing(s: State, id: nat)
    requires NewId(s.tokens, id)
    ensures Apply(s, Resolve(id)) == s
  {
    FoundExactly(s.tokens, id);
  }

  lemma {:induction false} FoundExactly(tokens: seq<Token>, id: nat)
    ensures var found := ActiveWithId(tokens, id);
      && (found != [] <==> exists i :: 0 <= i < |tokens| && tokens[i].id == id && tokens[i].status == Active)
      && (forall k | 0 <= k < |found| ::
            exists i :: 0 <= i < |tokens| && tokens[i] == found[k] && tokens[i].id == id && tokens[i].status == Active)
  {
    if tokens != [] {
      var front, last := tokens[..|tokens| - 1], tokens[|tokens| - 1];
      FoundExactly(front, id);
      var before, found := ActiveWithId(front, id), ActiveWithId(tokens, id);
      assert forall i | 0 <= i < |front| :: front[i] == tokens[i];
      forall k | 0 <= k < |found|
        ensures exists i :: 0 <= i < |tokens| && tokens[i] == found[k] && tokens[i].id == id && tokens[i].status == Active
      {
        if k < |before| {
          assert found[k] == before[k];
          var i :| 0 <= i < |front| && front[i] == before[k] && front[i].id == id && front[i].status == Active;
          assert tokens[i] == found[k];
        } else {
          assert tokens[|tokens| - 1] == found[k];
        }
      }
      if i :| 0 <= i < |front| && front[i].id == id && front[i].status == Active {
        assert before != [];
      }
    }
  }

  /** A generation is refused for a vehicle out of service, or when it would reuse a token id; otherwise
      it marks the vehicle generated and issues a first token if there is no active one. */
  lemma GenerateEffect(s: State, v: nat, newId: nat)
    requires Good(s)
    ensures Apply(s, Generate(v, newId))
         == if !InService(s, v) || (!HasActive(s.tokens, v) && !NewId(s.tokens, newId)) then s
            else State(if HasActive(s.tokens, v) then s.tokens else s.tokens + [Token(newId, v, Active, Original)],
                       s.vehicles[v := Vehicle(true, Generated)], s.log + [QrGenerated(v)])
  {
    hide VehicleOk;
    HasActiveExactly(s.tokens, v);
    if HasActive(s.tokens, v) {
      Append0(s.tokens);
    } else if NewId(s.tokens, newId) {
      GenerationCommits(s, v, newId);
    } else {
      var after := s.tokens + [Token(newId, v, Active, Original)];
      var i :| 0 <= i < |s.tokens| && s.tokens[i].id == newId;
      assert after[i].id == after[|s.tokens|].id;
    }
  }

  /** The tokens after a rotation: the vehicle's active ones are retired, and the new one comes last. */
  ghost predicate RotatedTo(before: seq<Token>, after: seq<Token>, v: nat, newId: nat) {
    && |after| == |before| + 1
    && (forall i | 0 <= i < |before| ::
          after[i] == if before[i].vehicle == v && before[i].status == Active
                      then Token(before[i].id, v, Rotated, before[i].origin) else before[i])
    && after[|before|].id == newId && after[|before|].vehicle == v && after[|before|].status == Active
    && (forall i | 0 <= i < |before| && before[i].vehicle == v && before[i].status == Active ::
          after[|before|].origin == RotatedFrom(before[i].id))
    && (!HasActive(before, v) ==> after[|before|].origin == Original)
  }

  lemma RotatedTokensTo(s: State, v: nat, newId: nat)
    requires Good(s)
    ensures RotatedTo(s.tokens, RotatedTokens(s.tokens, v, newId), v, newId)
  {
    hide VehicleOk;
    HasActiveExactly(s.tokens, v);
    UniqueGivesOne(s.tokens, v);
    forall i | 0 <= i < |s.tokens| && s.tokens[i].vehicle == v && s.tokens[i].status == Active
      ensures ActiveTokens(s.tokens, v) == [s.tokens[i]]
    {
      OnlyActive(s.tokens, v, i);
    }
  }

  lemma {:induction false} OnlyActive(tokens: seq<Token>, v: nat, i: nat)
    requires UniqueActive(tokens) && i < |tokens| && tokens[i].vehicle == v && tokens[i].status == Active
    ensures ActiveTokens(tokens, v) == [tokens[i]]
  {
    var front := tokens[..|tokens| - 1];
    assert forall k | 0 <= k < |front| :: front[k] == tokens[k];
    SomeActive(front, v);
    if i < |front| {
      OnlyActive(front, v, i);
    }
  }

  lemma ReusedId(tokens: seq<Token>, v: nat, newId: nat)
    requires !NewId(tokens, newId)
    ensures !UniqueIds(RotatedTokens(tokens, v, newId))
  {
    var after := RotatedTokens(tokens, v, newId);
    var i :| 0 <= i < |tokens| && tokens[i].id == newId;
    assert after[i].id == newId && after[|tokens|].id == newId;
  }

  /** A desk rotation needs a vehicle in service and a new token id; it marks the vehicle generated. */
  lemma RotateEffect(s: State, v: nat, newId: nat)
    requires Good(s)
    ensures var s' := Apply(s, Rotate(v, newId));
      if !InService(s, v) || !NewId(s.tokens, newId) then s' == s
      else
        && RotatedTo(s.tokens, s'.tokens, v, newId) && s'.log == s.log + [QrRotated(v)]
        && s'.vehicles == s.vehicles[v := Vehicle(true, Generated)]
  {
    hide VehicleOk, RotatedTo, RotatedTokens;
    RotatedTokensTo(s, v, newId);
    if NewId(s.tokens, newId) {
      RotationCommits(s, v, newId);
    } else {
      ReusedId(s.tokens, v, newId);
    }
  }

  /** An admin rotation needs a new token id only, and touches no vehicle. */
  lemma AdminRotateEffect(s: State, v: nat, newId: nat)
    requires Good(s)
    ensures var s' := Apply(s, AdminRotate(v, newId));
      if !NewId(s.tokens, newId) then s' == s
      else RotatedTo(s.tokens, s'.tokens, v, newId) && s'.log == s.log + [QrRotated(v)] && s'.vehicles == s.vehicles
  {
    hide VehicleOk, RotatedTo, RotatedTokens;
    RotatedTokensTo(s, v, newId);
    if NewId(s.tokens, newId) {
      RotationCommits(s, v, newId);
    } else {
      ReusedId(s.tokens, v, newId);
    }
  }

  // ---------------------------------------------------------------------------
  // Which step a status goes back to
  // ---------------------------------------------------------------------------

  /** The step prints the vehicle's token. */
  ghost predicate Prints(s: State, step: Step, v: nat) {
    step == Print(v) && InService(s, v) && HasActive(s.tokens, v)
  }

  /** The step resolves an active token of the registered vehicle. */
  ghost predicate Scans(s: State, step: Step, v: nat) {
    && step.Resolve? && v in s.vehicles
    && exists i :: 0 <= i < |s.tokens| && s.tokens[i].id == step.token && s.tokens[i].vehicle == v && s.tokens[i].status == Active
  }

  /** The step is a committed generation or desk rotation of the vehicle. */
  ghost predicate Renews(s: State, step: Step, v: nat) {
    InService(s, v) &&
    match step
    case Generate(w, newId) => w == v && (HasActive(s.tokens, v) || NewId(s.tokens, newId))
    case Rotate(w, newId) => w == v && NewId(s.tokens, newId)
    case BulkGenerate(items) =>
      && (exists i :: 0 <= i < |items| && items[i].vehicle == v)
      && UniqueIds(s.tokens + Pending(s, items)) && !NamesNeedyTwice(s, items)
    case Import(_, _) => false
    case AdminRotate(_, _) => false
    case Print(_) => false
    case Resolve(_) => false
  }

  ghost predicate SetsStatus(s: State, step: Step, v: nat) {
    Prints(s, step, v) || Scans(s, step, v) || Renews(s, step, v)
  }

  lemma BulkSets(s: State, items: seq<BulkItem>, v: nat)
    requires Good(s)
    ensures var s' := Apply(s, BulkGenerate(items));
      && (v in s'.vehicles <==> v in s.vehicles)
      && (v in s.vehicles ==>
            s'.vehicles[v] == if Renews(s, BulkGenerate(items), v) then Vehicle(true, Generated) else s.vehicles[v])
  {
    hide VehicleOk, UniqueIds, UniqueActive, NamesNeedyTwice;
    BulkRefusedExactly(s, items);
    BulkVehiclesOf(s, items, v);
    CountedTwice(items, v);
  }

  lemma ResolveSets(s: State, id: nat, v: nat)
    requires Good(s)
    ensures var s' := Apply(s, Resolve(id));
      && (v in s'.vehicles <==> v in s.vehicles)
      && (v in s.vehicles ==>
            s'.vehicles[v] == if Scans(s, Resolve(id), v) then Vehicle(s.vehicles[v].active, Confirmed) else s.vehicles[v])
  {
    hide Good, Apply;
    if NewId(s.tokens, id) {
      ResolveNothing(s, id);
    } else {
      var i :| 0 <= i < |s.tokens| && s.tokens[i].id == id;
      ResolveEffect(s, i, id);
      forall j | 0 <= j < |s.tokens| && s.tokens[j].id == id ensures j == i {
        SameId(s, i, j);
      }
    }
  }

  /** One step: a print makes a vehicle distributed, a scan confirmed, a generation or desk rotation
      generated; nothing else, and no step for another vehicle, changes its status. */
  lemma StepSets(s: State, step: Step, v: nat)
    requires Good(s)
    ensures var s' := Apply(s, step);
      && (v in s.vehicles ==> v in s'.vehicles)
      && (v in s'.vehicles ==>
            s'.vehicles[v].deployment
            == if Prints(s, step, v) then Distributed else if Scans(s, step, v) then Confirmed
               else if Renews(s, step, v) then Generated
               else if v in s.vehicles then s.vehicles[v].deployment else NotGenerated)
  {
    hide Good, Apply, HasActive, NewId;
    match step
    case Import(w, active) => ImportEffect(s, w, active);
    case Generate(w, newId) => GenerateEffect(s, w, newId);
    case BulkGenerate(items) => BulkSets(s, items, v);
    case Rotate(w, newId) => RotateEffect(s, w, newId);
    case AdminRotate(w, newId) => AdminRotateEffect(s, w, newId);
    case Print(w) => PrintEffect(s, w);
    case Resolve(id) => ResolveSets(s, id, v);
  }

  ghost predicate SetsAt(steps: seq<Step>, i: nat, v: nat)
    requires i < |steps|
  {
    SetsStatus(Run(EMPTY, steps[..i]), steps[i], v)
  }

  /** The last of the first n steps that set the status of v, or n if none did. */
  ghost function LastSetter(steps: seq<Step>, n: nat, v: nat): (i: nat)
    requires n <= |steps|
    ensures i < n ==> SetsAt(steps, i, v) && forall j | i < j < n :: !SetsAt(steps, j, v)
    ensures i >= n ==> i == n && forall j | 0 <= j < n :: !SetsAt(steps, j, v)
  {
    if n == 0 then 0
    else if SetsAt(steps, n - 1, v) then n - 1
    else
      var i := LastSetter(steps, n - 1, v);
      if i < n - 1 then i else n
  }

  lemma {:induction false} RunSnoc(s: State, steps: seq<Step>, n: nat)
    requires n < |steps|
    ensures Run(s, steps[..n + 1]) == Apply(Run(s, steps[..n]), steps[n])
    decreases n
  {
    if n == 0 {
      assert steps[..1] == [steps[0]] && [steps[0]][1..] == [];
      assert Run(Apply(s, steps[0]), []) == Apply(s, steps[0]);
      assert Run(s, steps[..0]) == s;
    } else {
      assert steps[..n + 1][1..] == steps[1..][..n] && steps[..n][1..] == steps[1..][..n - 1];
      RunSnoc(Apply(s, steps[0]), steps[1..], n - 1);
    }
  }

  /** What the last setter made of the status. */
  ghost function StatusBy(steps: seq<Step>, n: nat, v: nat): Deployment
    requires n <= |steps|
  {
    var i := LastSetter(steps, n, v);
    if i == n then NotGenerated
    else if Prints(Run(EMPTY, steps[..i]), steps[i], v) then Distributed
    else if Scans(Run(EMPTY, steps[..i]), steps[i], v) then Confirmed
    else Generated
  }

  lemma {:induction false} StatusGoesBack(steps: seq<Step>, n: nat, v: nat)
    requires n <= |steps|
    ensures var s := Run(EMPTY, steps[..n]);
      if v in s.vehicles then s.vehicles[v].deployment == StatusBy(steps, n, v) else StatusBy(steps, n, v) == NotGenerated
    decreases n
  {
    if n == 0 {
      assert steps[..0] == [];
    } else {
      hide Prints, Scans, Renews, Apply, Run, Good;
      var s := Run(EMPTY, steps[..n - 1]);
      StatusGoesBack(steps, n - 1, v);
      EmptyIsGood();
      RunKeepsGood(EMPTY, steps[..n - 1]);
      RunSnoc(EMPTY, steps, n - 1);
      StepSets(s, steps[n - 1], v);
      OnlyRegistered(s, steps[n - 1], v);
    }
  }

  lemma OnlyRegistered(s: State, step: Step, v: nat)
    ensures SetsStatus(s, step, v) ==> v in s.vehicles
  {}

  /** Over every run: a vehicle is distributed if and only if the last step that set its status was an
      accepted print, confirmed if and only if it was the resolution of one of its active tokens,
      generated if and only if it was a committed generation or desk rotation, and not generated if
      and only if there was none. Imports and admin rotations never count. */
  lemma StatusExactly(steps: seq<Step>, v: nat)
    requires v in Run(EMPTY, steps).vehicles
    ensures var status, i := Run(EMPTY, steps).vehicles[v].deployment, LastSetter(steps, |steps|, v);
      && (status == NotGenerated <==> i == |steps|)
      && (status == Distributed <==> i < |steps| && Prints(Run(EMPTY, steps[..i]), steps[i], v))
      && (status == Confirmed <==> i < |steps| && Scans(Run(EMPTY, steps[..i]), steps[i], v))
      && (status == Generated <==> i < |steps| && Renews(Run(EMPTY, steps[..i]), steps[i], v))
  {
    StatusGoesBack(steps, |steps|, v);
    assert steps[..|steps|] == steps;
    var i := LastSetter(steps, |steps|, v);
    if i < |steps| {
      SettersDiffer(Run(EMPTY, steps[..i]), steps[i], v);
    }
  }

  lemma SettersDiffer(s: State, step: Step, v: nat)
    ensures !(Prints(s, step, v) && Scans(s, step, v)) && !(Prints(s, step, v) && Renews(s, step, v))
    ensures !(Scans(s, step, v) && Renews(s, step, v))
  {}

  // ---------------------------------------------------------------------------
  // The statistics
  // ---------------------------------------------------------------------------

  ghost function Required(s: State): set<nat> {
    set v | v in s.vehicles && s.vehicles[v].active
  }

  ghost function RequiredWithActive(s: State): set<nat> {
    set v | v in Required(s) && HasActive(s.tokens, v)
  }

  lemma GeneratedExactly(s: State)
    ensures RequiredIds(s) == Required(s) && RequiredIds(s) * GeneratedIds(s) == RequiredWithActive(s)
  {
    forall v ensures v in GeneratedIds(s) <==> HasActive(s.tokens, v) {
      if v in GeneratedIds(s) {
        var t :| t in s.tokens && t.status == Active && t.vehicle == v;
        var i :| 0 <= i < |s.tokens| && s.tokens[i] == t;
      }
    }
  }

  lemma MissingExactly(s: State)
    ensures |RequiredIds(s) - GeneratedIds(s)| > 0 <==> exists v :: v in Required(s) && !HasActive(s.tokens, v)
  {
    GeneratedExactly(s);
    var missing := RequiredIds(s) - GeneratedIds(s);
    if v :| v in Required(s) && !HasActive(s.tokens, v) {
      assert v !in RequiredWithActive(s) && v in missing;
    }
    if missing != {} {
      var v :| v in missing;
      assert v !in RequiredIds(s) * GeneratedIds(s);
    }
  }

  /** The four counts and the two blockers, in terms of the vehicles and the tokens. */
  lemma StatsExactly(s: State)
    ensures var c := VehicleQrStats(s);
      && c.required == |Required(s)| && c.generated == |RequiredWithActive(s)|
      && c.distributed == |set v | v in Required(s) && (s.vehicles[v].deployment == Distributed || s.vehicles[v].deployment == Confirmed)|
      && c.confirmed == |set v | v in Required(s) && s.vehicles[v].deployment == Confirmed|
      && (c.notGenerated <==> exists v :: v in Required(s) && !HasActive(s.tokens, v))
      && (c.notDistributed <==> c.distributed < c.required)
  {
    hide GeneratedIds, RequiredWithActive, HasActive;
    GeneratedExactly(s);
    MissingExactly(s);
    assert DistributedIds(s)
        == set v | v in Required(s) && (s.vehicles[v].deployment == Distributed || s.vehicles[v].deployment == Confirmed);
    assert ConfirmedIds(s) == set v | v in Required(s) && s.vehicles[v].deployment == Confirmed;
  }

  /** A vehicle is reported as generated by a bulk request if and only if it is named and in service, as
      skipped if and only if it is named and not; the lists follow the request. */
  lemma {:induction false} NamedExactly(s: State, items: seq<BulkItem>, v: nat)
    ensures v in Named(s, items, true) <==> InService(s, v) && exists i :: 0 <= i < |items| && items[i].vehicle == v
    ensures v in Named(s, items, false) <==> !InService(s, v) && exists i :: 0 <= i < |items| && items[i].vehicle == v
    ensures |Named(s, items, true)| + |Named(s, items, false)| == |items|
  {
    if items != [] {
      var front := items[..|items| - 1];
      NamedExactly(s, front, v);
      assert forall i | 0 <= i < |front| :: front[i] == items[i];
      if i :| 0 <= i < |items| && items[i].vehicle == v {
        assert i < |front| ==> front[i].vehicle == v;
      }
    }
  }
}
