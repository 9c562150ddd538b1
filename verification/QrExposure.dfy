/** Whether a vehicle's active token is one that has been printed or scanned: what the deployment
    status claims, and when it does (backend/app/api/routes_qr_deployment.py, routes_admin.py,
    routes_driver.py). */
module QrExposure {
  import opened VehicleQr

  /** The tables, the ids of the tokens that were printed or resolved so far, and the vehicles whose
      token an administrator has rotated since it was last printed or resolved. */
  datatype History = History(state: State, shown: set<nat>, drifted: set<nat>)

  const START := History(EMPTY, {}, {})

  predicate Printable(s: State, v: nat) {
    Registered(s.vehicles, v) && ActiveTokens(s.tokens, v) != []
  }

  predicate Commits(tokens: seq<Token>) {
    UniqueIds(tokens) && UniqueActive(tokens)
  }

  function Next(h: History, step: Step): History {
    var s, after := h.state, Apply(h.state, step);
    match step
    case Print(v) =>
      if Printable(s, v) then History(after, h.shown + {ActiveTokens(s.tokens, v)[0].id}, h.drifted - {v}) else h
    case Resolve(id) =>
      var found := ActiveWithId(s.tokens, id);
      if found != [] then History(after, h.shown + {id}, h.drifted - {found[0].vehicle}) else h
    case AdminRotate(v, newId) =>
      History(after, h.shown, if Commits(RotatedTokens(s.tokens, v, newId)) then h.drifted + {v} else h.drifted)
    case Import(_, _) => h.(state := after)
    case Generate(_, _) => h.(state := after)
    case BulkGenerate(_) => h.(state := after)
    case Rotate(_, _) => h.(state := after)
  }

  function Trace(h: History, steps: seq<Step>): History
    decreases |steps|
  {
    if steps == [] then h else Trace(Next(h, steps[0]), steps[1..])
  }

  /** The vehicle's status says that its token is on the vehicle. */
  predicate CountedAsDistributed(s: State, v: nat) {
    v in s.vehicles && (s.vehicles[v].deployment == Distributed || s.vehicles[v].deployment == Confirmed)
  }

  ghost predicate Exposed(h: History, v: nat) {
    CountedAsDistributed(h.state, v) ==>
      && ActiveTokens(h.state.tokens, v) != []
      && (ActiveTokens(h.state.tokens, v)[0].id in h.shown <==> v !in h.drifted)
  }

  ghost predicate Known(h: History) {
    forall id | id in h.shown :: !NewId(h.state.tokens, id)
  }

  ghost predicate Sound(h: History) {
    Good(h.state) && Known(h) && forall v :: Exposed(h, v)
  }

  // ---------------------------------------------------------------------------
  // Active tokens through a step
  // ---------------------------------------------------------------------------

  lemma {:induction false} ActivesAreMine(tokens: seq<Token>, v: nat)
    ensures forall t | t in ActiveTokens(tokens, v) :: t in tokens && t.vehicle == v
  {
    if tokens != [] {
      ActivesAreMine(tokens[..|tokens| - 1], v);
    }
  }

  lemma {:induction false} RotatedActives(tokens: seq<Token>, w: nat, v: nat)
    ensures ActiveTokens(RotateActive(tokens, w), v) == if v == w then [] else ActiveTokens(tokens, v)
  {
    if tokens != [] {
      var front, last := tokens[..|tokens| - 1], tokens[|tokens| - 1];
      var rotated := RotateActive(tokens, w);
      RotatedActives(front, w, v);
      assert rotated[..|rotated| - 1] == RotateActive(front, w);
    }
  }

  /** After a rotation the vehicle's only active token is the new one; other vehicles keep theirs. */
  lemma ActivesAfterRotation(tokens: seq<Token>, w: nat, newId: nat, v: nat)
    ensures var after := ActiveTokens(RotatedTokens(tokens, w, newId), v);
      if v == w then |after| == 1 && after[0].id == newId else after == ActiveTokens(tokens, v)
  {
    RotatedActives(tokens, w, v);
    var rotated := RotatedTokens(tokens, w, newId);
    assert rotated[..|rotated| - 1] == RotateActive(tokens, w);
    Append0(ActiveTokens(RotateActive(tokens, w), v));
  }

  lemma DistinctActives(tokens: seq<Token>, v: nat, w: nat)
    requires UniqueIds(tokens) && v != w
    ensures forall a, b | a in ActiveTokens(tokens, v) && b in ActiveTokens(tokens, w) :: a.id != b.id
  {
    ActivesAreMine(tokens, v);
    ActivesAreMine(tokens, w);
    forall a, b | a in ActiveTokens(tokens, v) && b in ActiveTokens(tokens, w) ensures a.id != b.id {
      var i :| 0 <= i < |tokens| && tokens[i] == a;
      var j :| 0 <= j < |tokens| && tokens[j] == b;
    }
  }

  lemma KnownGrows(h: History, tokens: seq<Token>)
    requires Known(h) && |h.state.tokens| <= |tokens|
    requires forall i | 0 <= i < |h.state.tokens| :: tokens[i].id == h.state.tokens[i].id
    ensures forall id | id in h.shown :: !NewId(tokens, id)
  {
    forall id | id in h.shown ensures !NewId(tokens, id) {
      var i :| 0 <= i < |h.state.tokens| && h.state.tokens[i].id == id;
      assert tokens[i].id == id;
    }
  }

  /** A vehicle a step leaves alone. */
  lemma Untouched(h: History, h': History, v: nat)
    requires Exposed(h, v) && (CountedAsDistributed(h'.state, v) ==> CountedAsDistributed(h.state, v))
    requires ActiveTokens(h'.state.tokens, v) == ActiveTokens(h.state.tokens, v)
    requires h'.shown == h.shown && (v in h'.drifted <==> v in h.drifted)
    ensures Exposed(h', v)
  {}

  // ---------------------------------------------------------------------------
  // The steps
  // ---------------------------------------------------------------------------

  lemma GenerateKeeps(h: History, w: nat, newId: nat, v: nat)
    requires Sound(h)
    ensures Exposed(Next(h, Generate(w, newId)), v)
  {
    hide Good, Commits, UniqueIds, UniqueActive;
    var s, h' := h.state, Next(h, Generate(w, newId));
    var added := MissingToken(s.tokens, w, newId);
    ActivesAppend(s.tokens, added, v);
    if v != w {
      assert ActiveTokens(added, v) == [] by {
        if added != [] {
          assert added[..0] == [];
        }
      }
      Append0(ActiveTokens(s.tokens, v));
      Untouched(h, h', v);
    } else if h'.state == s {
      Untouched(h, h', v);
    }
  }

  lemma BulkKeeps(h: History, items: seq<BulkItem>, v: nat)
    requires Sound(h)
    ensures Exposed(Next(h, BulkGenerate(items)), v)
  {
    var s, h' := h.state, Next(h, BulkGenerate(items));
    BulkVehiclesOf(s, items, v);
    if CountedAsDistributed(h'.state, v) {
      assert Exposed(h, v) && CountedAsDistributed(s, v);
      PendingOf(s, items, v);
      ActivesAppend(s.tokens, Pending(s, items), v);
      Append0(ActiveTokens(s.tokens, v));
      assert TokensOf(Pending(s, items), v) == [];
      Untouched(h, h', v);
    }
  }

  lemma RotateKeeps(h: History, w: nat, newId: nat, v: nat)
    requires Sound(h)
    ensures Exposed(Next(h, Rotate(w, newId)), v)
  {
    hide Good, UniqueIds, UniqueActive, RotatedTokens, ActiveTokens;
    ActivesAfterRotation(h.state.tokens, w, newId, v);
    assert Exposed(h, v);
  }

  lemma AdminRotateKeeps(h: History, w: nat, newId: nat, v: nat)
    requires Sound(h)
    ensures Exposed(Next(h, AdminRotate(w, newId)), v)
  {
    var after := RotatedTokens(h.state.tokens, w, newId);
    assert Exposed(h, v);
    ActivesAfterRotation(h.state.tokens, w, newId, v);
    if v == w && Commits(after) {
      NewIdNotShown(h, w, newId);
    }
  }

  /** The primary key keeps a rotation from reissuing a token that was shown. */
  lemma NewIdNotShown(h: History, w: nat, newId: nat)
    requires Known(h) && UniqueIds(RotatedTokens(h.state.tokens, w, newId))
    ensures newId !in h.shown
  {
    var tokens, after := h.state.tokens, RotatedTokens(h.state.tokens, w, newId);
    assert forall i | 0 <= i < |tokens| :: after[i].id == tokens[i].id;
    assert after[|tokens|].id == newId;
    assert NewId(tokens, newId);
  }

  lemma PrintKeeps(h: History, w: nat, v: nat)
    requires Sound(h)
    ensures Exposed(Next(h, Print(w)), v)
  {
    hide LinearChain, UniqueIds, UniqueActive, ActiveTokens;
    assert Exposed(h, v);
    if v != w {
      DistinctActives(h.state.tokens, v, w);
    }
  }

  lemma ResolveKeeps(h: History, id: nat, v: nat)
    requires Sound(h)
    ensures Exposed(Next(h, Resolve(id)), v)
  {
    var tokens := h.state.tokens;
    var found := ActiveWithId(tokens, id);
    assert Exposed(h, v);
    if found != [] {
      var w := found[0].vehicle;
      FoundIsActive(tokens, id);
      assert found[0] in found;
      if v != w {
        DistinctActives(tokens, v, w);
      } else {
        UniqueGivesOne(tokens, v);
      }
    }
  }

  lemma NextKeepsKnown(h: History, step: Step)
    requires Sound(h)
    ensures Known(Next(h, step))
  {
    var s, h' := h.state, Next(h, step);
    KnownGrows(h, h'.state.tokens);
    match step
    case Print(v) =>
      if Printable(s, v) {
        ActivesAreMine(s.tokens, v);
        var t := ActiveTokens(s.tokens, v)[0];
        assert t in ActiveTokens(s.tokens, v) && t in s.tokens;
      }
    case Resolve(id) =>
      var found := ActiveWithId(s.tokens, id);
      if found != [] {
        FoundIsActive(s.tokens, id);
        assert found[0] in found;
        ActivesAreMine(s.tokens, found[0].vehicle);
        assert found[0] in s.tokens;
      }
    case Import(_, _) =>
    case Generate(_, _) =>
    case BulkGenerate(_) =>
    case Rotate(_, _) =>
    case AdminRotate(_, _) =>
  }

  lemma NextKeepsSound(h: History, step: Step)
    requires Sound(h)
    ensures Sound(Next(h, step)) && Next(h, step).state == Apply(h.state, step)
  {
    StepKeepsGood(h.state, step);
    NextKeepsKnown(h, step);
    forall v ensures Exposed(Next(h, step), v) {
      hide Good, Known, Next;
      match step
      case Import(w, active) => ImportKeeps(h, w, active, v);
      case Generate(w, newId) => GenerateKeeps(h, w, newId, v);
      case BulkGenerate(items) => BulkKeeps(h, items, v);
      case Rotate(w, newId) => RotateKeeps(h, w, newId, v);
      case AdminRotate(w, newId) => AdminRotateKeeps(h, w, newId, v);
      case Print(w) => PrintKeeps(h, w, v);
      case Resolve(id) => ResolveKeeps(h, id, v);
    }
  }

  lemma ImportKeeps(h: History, w: nat, active: bool, v: nat)
    requires Sound(h)
    ensures Exposed(Next(h, Import(w, active)), v)
  {
    Untouched(h, Next(h, Import(w, active)), v);
  }

  lemma {:induction false} TraceKeepsSound(h: History, steps: seq<Step>)
    requires Sound(h)
    ensures Sound(Trace(h, steps)) && Trace(h, steps).state == Run(h.state, steps)
    decreases |steps|
  {
    if steps != [] {
      NextKeepsSound(h, steps[0]);
      TraceKeepsSound(Next(h, steps[0]), steps[1..]);
    }
  }

  /** Over every run: the active token of a vehicle counted as distributed or confirmed has been
      printed or resolved if and only if no admin rotation came after the last print or resolve. */
  lemma DistributedMeansShownExactly(steps: seq<Step>, v: nat)
    requires CountedAsDistributed(Run(EMPTY, steps), v)
    ensures var h := Trace(START, steps);
      && h.state == Run(EMPTY, steps) && |ActiveTokens(h.state.tokens, v)| == 1
      && (ActiveTokens(h.state.tokens, v)[0].id in h.shown <==> v !in h.drifted)
  {
    EmptyIsGood();
    TraceKeepsSound(START, steps);
    TokensFormOneChain(steps, v);
    assert Exposed(Trace(START, steps), v);
  }

  const FIRST := Token(1, 7, Active, Original)

  /** One vehicle with its first token. */
  function OneVehicle(deployment: Deployment, log: seq<Event>): State {
    State([FIRST], map[7 := Vehicle(true, deployment)], log)
  }

  lemma OneVehicleTokens()
    ensures ActiveTokens([FIRST], 7) == [FIRST] && ActiveWithId([FIRST], 1) == [FIRST]
    ensures RotatedTokens([FIRST], 7, 2) == [FIRST.(status := Rotated), Token(2, 7, Active, RotatedFrom(1))]
  {
    assert [FIRST][..0] == [];
  }

  lemma GeneratedExample()
    ensures Trace(START, [Import(7, true), Generate(7, 1)])
         == History(OneVehicle(Generated, [QrGenerated(7)]), {}, {})
  {
    var steps := [Import(7, true), Generate(7, 1)];
    var h := Next(START, steps[0]);
    assert h.state == State([], map[7 := Vehicle(true, NotGenerated)], []);
    assert MissingToken([], 7, 1) == [FIRST] && [] + [FIRST] == [FIRST] && [] + [QrGenerated(7)] == [QrGenerated(7)];
    assert Next(h, steps[1]).state == OneVehicle(Generated, [QrGenerated(7)]);
    assert steps[1..] == [Generate(7, 1)] && steps[1..][1..] == [];
    assert Trace(h, steps[1..]) == Next(h, steps[1]);
  }

  /** From there: printed, scanned, and rotated by an administrator. */
  lemma DriftExample()
    ensures var h := Trace(History(OneVehicle(Generated, [QrGenerated(7)]), {}, {}), [Print(7), Resolve(1), AdminRotate(7, 2)]);
      && h.state.vehicles == map[7 := Vehicle(true, Confirmed)]
      && h.state.tokens == [FIRST.(status := Rotated), Token(2, 7, Active, RotatedFrom(1))]
      && h.shown == {1} && h.drifted == {7}
  {
    hide ActiveTokens, ActiveWithId, RotatedTokens;
    OneVehicleTokens();
    var h := History(OneVehicle(Generated, [QrGenerated(7)]), {}, {});
    var h2 := Next(h, Print(7));
    assert h2 == History(OneVehicle(Distributed, h.state.log + [QrDistributed(7)]), {1}, {});
    var h3 := Next(h2, Resolve(1));
    assert h3 == History(OneVehicle(Confirmed, h2.state.log + [Resolved(7)]), {1}, {});
    TraceThree(h, Print(7), Resolve(1), AdminRotate(7, 2));
  }

  /** A vehicle that stays confirmed although its active token was never printed or scanned. */
  lemma ConfirmedButNeverShown()
    ensures var h := Trace(START, [Import(7, true), Generate(7, 1)] + [Print(7), Resolve(1), AdminRotate(7, 2)]);
      && ConfirmedIds(h.state) == {7} && h.shown == {1} && h.drifted == {7}
      && h.state.tokens == [FIRST.(status := Rotated), Token(2, 7, Active, RotatedFrom(1))]
  {
    TraceAppend(START, [Import(7, true), Generate(7, 1)], [Print(7), Resolve(1), AdminRotate(7, 2)]);
    GeneratedExample();
    DriftExample();
  }

  lemma {:induction false} TraceAppend(h: History, a: seq<Step>, b: seq<Step>)
    ensures Trace(h, a + b) == Trace(Trace(h, a), b)
    decreases |a|
  {
    if a == [] {
      assert a + b == b;
    } else {
      assert (a + b)[1..] == a[1..] + b;
      TraceAppend(Next(h, a[0]), a[1..], b);
    }
  }

  lemma TraceThree(h: History, a: Step, b: Step, c: Step)
    ensures Trace(h, [a, b, c]) == Next(Next(Next(h, a), b), c)
  {
    assert [a, b, c][1..] == [b, c] && [b, c][1..] == [c] && [c][1..] == [];
    assert Trace(Next(Next(h, a), b), [c]) == Next(Next(Next(h, a), b), c);
  }
}
