/** Vehicle QR tokens and deployment status (backend/app/api/routes_qr_deployment.py, routes_admin.py,
    routes_driver.py), for one organisation. */
module VehicleQr {

  datatype TokenStatus = Active | Rotated
  datatype Origin = Original | RotatedFrom(id: nat)
  datatype Token = Token(id: nat, vehicle: nat, status: TokenStatus, origin: Origin)

  datatype Deployment = NotGenerated | Generated | Distributed | Confirmed
  datatype Vehicle = Vehicle(active: bool, deployment: Deployment)

  datatype Event = QrGenerated(vehicle: nat) | QrRotated(vehicle: nat) | QrDistributed(vehicle: nat) | Resolved(vehicle: nat)

  /** The token table in insertion order, the vehicle registry by unit number, and the event log. */
  datatype State = State(tokens: seq<Token>, vehicles: map<nat, Vehicle>, log: seq<Event>)

  const EMPTY := State([], map[], [])

  // ---------------------------------------------------------------------------
  // Queries and table constraints
  // ---------------------------------------------------------------------------

  function TokensOf(tokens: seq<Token>, vehicle: nat): seq<Token> {
    if tokens == [] then []
    else
      var last := tokens[|tokens| - 1];
      TokensOf(tokens[..|tokens| - 1], vehicle) + if last.vehicle == vehicle then [last] else []
  }

  function ActiveTokens(tokens: seq<Token>, vehicle: nat): seq<Token> {
    if tokens == [] then []
    else
      var last := tokens[|tokens| - 1];
      ActiveTokens(tokens[..|tokens| - 1], vehicle)
      + if last.vehicle == vehicle && last.status == Active then [last] else []
  }

  predicate Registered(vehicles: map<nat, Vehicle>, vehicle: nat) {
    vehicle in vehicles && vehicles[vehicle].active
  }

  function SetDeployment(vehicles: map<nat, Vehicle>, vehicle: nat, deployment: Deployment): map<nat, Vehicle> {
    if vehicle in vehicles then vehicles[vehicle := vehicles[vehicle].(deployment := deployment)] else vehicles
  }

  /** The primary key. */
  predicate UniqueIds(tokens: seq<Token>) {
    forall i, j | 0 <= i < j < |tokens| :: tokens[i].id != tokens[j].id
  }

  /** The partial unique index on active tokens. */
  predicate UniqueActive(tokens: seq<Token>) {
    forall i, j | 0 <= i < j < |tokens| && tokens[i].status == Active && tokens[j].status == Active ::
      tokens[i].vehicle != tokens[j].vehicle
  }

  /** db.commit(): the new state if the constraints hold, the old one otherwise. */
  function Commit(before: State, after: State): State {
    if UniqueIds(after.tokens) && UniqueActive(after.tokens) then after else before
  }

  // ---------------------------------------------------------------------------
  // The endpoints
  // ---------------------------------------------------------------------------

  datatype BulkItem = BulkItem(vehicle: nat, newId: nat)

  datatype Step =
    | Import(vehicle: nat, active: bool)
    | Generate(vehicle: nat, newId: nat)
    | BulkGenerate(items: seq<BulkItem>)
    | Rotate(vehicle: nat, newId: nat)
    | AdminRotate(vehicle: nat, newId: nat)
    | Print(vehicle: nat)
    | Resolve(token: nat)

  function RotateActive(tokens: seq<Token>, vehicle: nat): seq<Token> {
    seq(|tokens|, i requires 0 <= i < |tokens| =>
      if tokens[i].vehicle == vehicle && tokens[i].status == Active then tokens[i].(status := Rotated) else tokens[i])
  }

  /** Retire the active tokens and issue a new one that remembers the first of them. */
  function RotatedTokens(tokens: seq<Token>, vehicle: nat, newId: nat): seq<Token> {
    var active := ActiveTokens(tokens, vehicle);
    RotateActive(tokens, vehicle)
    + [Token(newId, vehicle, Active, if active == [] then Original else RotatedFrom(active[0].id))]
  }

  /** The tokens a generation inserts, looked up in the committed table only. */
  function MissingToken(tokens: seq<Token>, vehicle: nat, newId: nat): seq<Token> {
    if ActiveTokens(tokens, vehicle) == [] then [Token(newId, vehicle, Active, Original)] else []
  }

  /** The pending inserts of a bulk request: its queries do not see them (autoflush is off). */
  function Pending(s: State, items: seq<BulkItem>): seq<Token> {
    if items == [] then []
    else
      var last := items[|items| - 1];
      Pending(s, items[..|items| - 1])
      + if Registered(s.vehicles, last.vehicle) then MissingToken(s.tokens, last.vehicle, last.newId) else []
  }

  function BulkVehicles(s: State, items: seq<BulkItem>): map<nat, Vehicle> {
    if items == [] then s.vehicles
    else
      var last := items[|items| - 1];
      var before := BulkVehicles(s, items[..|items| - 1]);
      if Registered(s.vehicles, last.vehicle) then SetDeployment(before, last.vehicle, Generated) else before
  }

  function BulkEvents(s: State, items: seq<BulkItem>): seq<Event> {
    if items == [] then []
    else
      var last := items[|items| - 1];
      BulkEvents(s, items[..|items| - 1])
      + if Registered(s.vehicles, last.vehicle) then [QrGenerated(last.vehicle)] else []
  }

  /** The requested vehicles that are registered, or those that are not, in request order. */
  function Named(s: State, items: seq<BulkItem>, registered: bool): seq<nat> {
    if items == [] then []
    else
      var last := items[|items| - 1];
      Named(s, items[..|items| - 1], registered)
      + if Registered(s.vehicles, last.vehicle) == registered then [last.vehicle] else []
  }

  /** One turn of the bulk loop. */
  lemma BulkNext(s: State, items: seq<BulkItem>, i: nat)
    requires i < |items|
    ensures var (before, after, v) := (items[..i], items[..i + 1], items[i].vehicle);
      if Registered(s.vehicles, v) then
        && Pending(s, after) == Pending(s, before) + MissingToken(s.tokens, v, items[i].newId)
        && BulkVehicles(s, after) == SetDeployment(BulkVehicles(s, before), v, Generated)
        && BulkEvents(s, after) == BulkEvents(s, before) + [QrGenerated(v)]
        && Named(s, after, true) == Named(s, before, true) + [v] && Named(s, after, false) == Named(s, before, false)
      else
        && Pending(s, after) == Pending(s, before) && BulkVehicles(s, after) == BulkVehicles(s, before)
        && BulkEvents(s, after) == BulkEvents(s, before)
        && Named(s, after, true) == Named(s, before, true) && Named(s, after, false) == Named(s, before, false) + [v]
  {
    hide MissingToken, SetDeployment;
    var before := items[..i];
    assert items[..i + 1][..i] == before;
    Append0(Pending(s, before));
    Append0(BulkEvents(s, before));
    Append0(Named(s, before, true));
    Append0(Named(s, before, false));
  }

  lemma Append0<T>(s: seq<T>)
    ensures s + [] == s
  {}

  function Apply(s: State, step: Step): State {
    match step
    case Import(v, active) =>
      s.(vehicles := s.vehicles[v := if v in s.vehicles then s.vehicles[v].(active := active)
                                     else Vehicle(active, NotGenerated)])
    case Generate(v, newId) =>
      if !Registered(s.vehicles, v) then s
      else Commit(s, State(s.tokens + MissingToken(s.tokens, v, newId), SetDeployment(s.vehicles, v, Generated),
                           s.log + [QrGenerated(v)]))
    case BulkGenerate(items) =>
      Commit(s, State(s.tokens + Pending(s, items), BulkVehicles(s, items), s.log + BulkEvents(s, items)))
    case Rotate(v, newId) =>
      if !Registered(s.vehicles, v) then s
      else Commit(s, State(RotatedTokens(s.tokens, v, newId), SetDeployment(s.vehicles, v, Generated),
                           s.log + [QrRotated(v)]))
    case AdminRotate(v, newId) =>
      Commit(s, State(RotatedTokens(s.tokens, v, newId), s.vehicles, s.log + [QrRotated(v)]))
    case Print(v) =>
      if !Registered(s.vehicles, v) || ActiveTokens(s.tokens, v) == [] then s
      else State(s.tokens, SetDeployment(s.vehicles, v, Distributed), s.log + [QrDistributed(v)])
    case Resolve(id) =>
      var found := ActiveWithId(s.tokens, id);
      if found == [] then s
      else State(s.tokens, SetDeployment(s.vehicles, found[0].vehicle, Confirmed), s.log + [Resolved(found[0].vehicle)])
  }

  function ActiveWithId(tokens: seq<Token>, id: nat): seq<Token> {
    if tokens == [] then []
    else
      var last := tokens[|tokens| - 1];
      ActiveWithId(tokens[..|tokens| - 1], id) + if last.id == id && last.status == Active then [last] else []
  }

  datatype Response = Done | NotFound | Conflict

  /** The answer of a transaction that would leave these tokens: the constraints decide. */
  function Outcome(tokens': seq<Token>): Response {
    if UniqueIds(tokens') && UniqueActive(tokens') then Done else Conflict
  }

  /** The tables, as the endpoints update them; each method runs in one transaction. */
  class QrDesk {
    var tokens: seq<Token>
    var vehicles: map<nat, Vehicle>
    var log: seq<Event>

    constructor ()
      ensures View() == EMPTY
    {
      tokens, vehicles, log := [], map[], [];
    }

    function View(): State
      reads this
    {
      State(tokens, vehicles, log)
    }

    /** Write a transaction's tables unless a constraint rejects them. */
    method CommitTables(tokens': seq<Token>, vehicles': map<nat, Vehicle>, log': seq<Event>) returns (response: Response)
      modifies this
      ensures View() == Commit(old(View()), State(tokens', vehicles', log'))
      ensures response == Outcome(tokens')
    {
      if UniqueIds(tokens') && UniqueActive(tokens') {
        tokens, vehicles, log := tokens', vehicles', log';
        response := Done;
      } else {
        response := Conflict;
      }
    }

    method GenerateVehicleQr(vehicle: nat, newId: nat) returns (response: Response)
      modifies this
      ensures View() == Apply(old(View()), Generate(vehicle, newId))
      ensures response == if !Registered(old(vehicles), vehicle) then NotFound
                          else Outcome(old(tokens) + MissingToken(old(tokens), vehicle, newId))
    {
      if !Registered(vehicles, vehicle) {
        return NotFound;
      }
      var tokens' := tokens;
      if ActiveTokens(tokens, vehicle) == [] {
        tokens' := tokens' + [Token(newId, vehicle, Active, Original)];
      }
      assert tokens' == tokens + MissingToken(tokens, vehicle, newId);
      response := CommitTables(tokens', SetDeployment(vehicles, vehicle, Generated), log + [QrGenerated(vehicle)]);
    }

    method BulkGenerateVehicleQr(items: seq<BulkItem>)
        returns (response: Response, generated: seq<nat>, skipped: seq<nat>)
      modifies this
      ensures View() == Apply(old(View()), BulkGenerate(items))
      ensures response == Outcome(old(tokens) + Pending(old(View()), items))
      ensures generated == Named(old(View()), items, true) && skipped == Named(old(View()), items, false)
    {
      hide Registered, MissingToken, SetDeployment;
      ghost var s := View();
      var added: seq<Token>, vehicles', events: seq<Event> := [], vehicles, [];
      generated, skipped := [], [];
      for i := 0 to |items|
        invariant View() == s
        invariant added == Pending(s, items[..i])
        invariant vehicles' == BulkVehicles(s, items[..i])
        invariant events == BulkEvents(s, items[..i])
        invariant generated == Named(s, items[..i], true) && skipped == Named(s, items[..i], false)
      {
        var v := items[i].vehicle;
        BulkNext(s, items, i);
        if Registered(vehicles, v) {
          added := added + MissingToken(tokens, v, items[i].newId);
          vehicles' := SetDeployment(vehicles', v, Generated);
          events := events + [QrGenerated(v)];
          generated := generated + [v];
        } else {
          skipped := skipped + [v];
        }
      }
      assert items[..|items|] == items;
      response := CommitTables(tokens + added, vehicles', log + events);
    }

    /** The loop that marks a vehicle's active tokens. */
    method MarkRotated(vehicle: nat) returns (tokens': seq<Token>)
      ensures tokens' == RotateActive(tokens, vehicle)
    {
      tokens' := [];
      for i := 0 to |tokens|
        invariant tokens' == RotateActive(tokens, vehicle)[..i]
      {
        var row := tokens[i];
        if row.vehicle == vehicle && row.status == Active {
          row := row.(status := Rotated);
        }
        tokens' := tokens' + [row];
      }
    }

    method RotateVehicleQr(vehicle: nat, newId: nat) returns (response: Response)
      modifies this
      ensures View() == Apply(old(View()), Rotate(vehicle, newId))
      ensures response == if !Registered(old(vehicles), vehicle) then NotFound
                          else Outcome(RotatedTokens(old(tokens), vehicle, newId))
    {
      if !Registered(vehicles, vehicle) {
        return NotFound;
      }
      var active := ActiveTokens(tokens, vehicle);
      var tokens' := MarkRotated(vehicle);
      var origin := if active == [] then Original else RotatedFrom(active[0].id);
      tokens' := tokens' + [Token(newId, vehicle, Active, origin)];
      response := CommitTables(tokens', SetDeployment(vehicles, vehicle, Generated), log + [QrRotated(vehicle)]);
    }

    method AdminRotateQr(vehicle: nat, newId: nat) returns (response: Response)
      modifies this
      ensures View() == Apply(old(View()), AdminRotate(vehicle, newId))
      ensures response == Outcome(RotatedTokens(old(tokens), vehicle, newId))
    {
      var active := ActiveTokens(tokens, vehicle);
      var tokens' := MarkRotated(vehicle);
      var origin := if active == [] then Original else RotatedFrom(active[0].id);
      tokens' := tokens' + [Token(newId, vehicle, Active, origin)];
      response := CommitTables(tokens', vehicles, log + [QrRotated(vehicle)]);
    }

    method DownloadPrintable(vehicle: nat) returns (response: Response)
      modifies this
      ensures View() == Apply(old(View()), Print(vehicle))
      ensures response == Done <==> Registered(old(vehicles), vehicle) && ActiveTokens(old(tokens), vehicle) != []
    {
      if !Registered(vehicles, vehicle) || ActiveTokens(tokens, vehicle) == [] {
        return NotFound;
      }
      vehicles := SetDeployment(vehicles, vehicle, Distributed);
      log := log + [QrDistributed(vehicle)];
      response := Done;
    }

    method ResolveQr(token: nat) returns (response: Response)
      modifies this
      ensures View() == Apply(old(View()), Resolve(token))
      ensures response == Done <==> ActiveWithId(old(tokens), token) != []
    {
      var found := ActiveWithId(tokens, token);
      if found == [] {
        return NotFound;
      }
      log := log + [Resolved(found[0].vehicle)];
      vehicles := SetDeployment(vehicles, found[0].vehicle, Confirmed);
      response := Done;
    }
  }

  // ---------------------------------------------------------------------------
  // Chains
  // ---------------------------------------------------------------------------

  /** Each token but the first was rotated from the one before it; only the last one is active. */
  ghost predicate LinearChain(chain: seq<Token>) {
    forall i | 0 <= i < |chain| :: ChainLink(chain, i)
  }

  ghost predicate ChainLink(chain: seq<Token>, i: nat)
    requires i < |chain|
  {
    && chain[i].origin == (if i == 0 then Original else RotatedFrom(chain[i - 1].id))
    && chain[i].status == if i == |chain| - 1 then Active else Rotated
  }

  lemma {:induction false} TokensAppend(a: seq<Token>, b: seq<Token>, v: nat)
    ensures TokensOf(a + b, v) == TokensOf(a, v) + TokensOf(b, v)
    decreases |b|
  {
    if b == [] {
      assert a + b == a && TokensOf(a, v) + [] == TokensOf(a, v);
    } else {
      var front, last := b[..|b| - 1], b[|b| - 1];
      assert (a + b)[..|a + b| - 1] == a + front;
      TokensAppend(a, front, v);
      Assoc(TokensOf(a, v), TokensOf(front, v), if last.vehicle == v then [last] else []);
    }
  }

  lemma Assoc<T>(a: seq<T>, b: seq<T>, c: seq<T>)
    ensures (a + b) + c == a + (b + c)
  {}

  lemma {:induction false} TokensMembers(tokens: seq<Token>, v: nat)
    ensures forall t | t in TokensOf(tokens, v) :: t in tokens && t.vehicle == v
  {
    if tokens != [] {
      TokensMembers(tokens[..|tokens| - 1], v);
    }
  }

  lemma {:induction false} ActivesAreTokens(tokens: seq<Token>, v: nat)
    ensures ActiveTokens(tokens, v) == ActiveTokens(TokensOf(tokens, v), v)
  {
    if tokens != [] {
      var front, last := tokens[..|tokens| - 1], tokens[|tokens| - 1];
      ActivesAreTokens(front, v);
      if last.vehicle == v {
        assert (TokensOf(front, v) + [last])[..|TokensOf(front, v)|] == TokensOf(front, v);
      } else {
        assert TokensOf(front, v) + [] == TokensOf(front, v);
        assert ActiveTokens(front, v) + [] == ActiveTokens(front, v);
      }
    }
  }

  lemma {:induction false} NoActives(tokens: seq<Token>, v: nat)
    requires forall i | 0 <= i < |tokens| :: tokens[i].status != Active
    ensures ActiveTokens(tokens, v) == []
  {
    if tokens != [] {
      NoActives(tokens[..|tokens| - 1], v);
    }
  }

  /** The single active token of a chain is its end. */
  lemma ActiveIsLast(tokens: seq<Token>, v: nat)
    requires LinearChain(TokensOf(tokens, v))
    ensures var chain := TokensOf(tokens, v);
      ActiveTokens(tokens, v) == if chain == [] then [] else [chain[|chain| - 1]]
  {
    var chain := TokensOf(tokens, v);
    ActivesAreTokens(tokens, v);
    TokensMembers(tokens, v);
    if chain != [] {
      var n := |chain| - 1;
      assert ChainLink(chain, n) && chain[n] in chain;
      forall i | 0 <= i < n ensures chain[..n][i].status != Active {
        assert ChainLink(chain, i);
      }
      NoActives(chain[..n], v);
    }
  }

  lemma RotateAppend(tokens: seq<Token>, last: Token, v: nat)
    ensures RotateActive(tokens + [last], v) == RotateActive(tokens, v) + RotateActive([last], v)
  {}

  lemma {:induction false} TokensRotated(tokens: seq<Token>, v: nat, w: nat)
    ensures TokensOf(RotateActive(tokens, v), w)
         == if w == v then RotateActive(TokensOf(tokens, v), v) else TokensOf(tokens, w)
  {
    if tokens == [] {
      assert RotateActive(tokens, v) == [] && RotateActive([], v) == [];
    } else {
      var front, last := tokens[..|tokens| - 1], tokens[|tokens| - 1];
      TokensRotated(front, v, w);
      var rotated := RotateActive(tokens, v);
      assert tokens == front + [last];
      RotateAppend(front, last, v);
      assert rotated[..|rotated| - 1] == RotateActive(front, v);
      RotateAppend(TokensOf(front, v), last, v);
      Append0(TokensOf(front, v));
      Append0(RotateActive(TokensOf(front, v), v));
    }
  }

  lemma RotatedChain(chain: seq<Token>, v: nat, newId: nat)
    requires LinearChain(chain) && forall t | t in chain :: t.vehicle == v
    ensures LinearChain(RotateActive(chain, v)
                        + [Token(newId, v, Active, if chain == [] then Original else RotatedFrom(chain[|chain| - 1].id))])
  {
    var chain' := RotateActive(chain, v)
                  + [Token(newId, v, Active, if chain == [] then Original else RotatedFrom(chain[|chain| - 1].id))];
    forall i | 0 <= i < |chain'| ensures ChainLink(chain', i) {
      if i < |chain| {
        assert ChainLink(chain, i) && chain[i] in chain;
      }
    }
  }

  /** Rotation extends the vehicle's chain by one and touches no other. */
  lemma RotationExtendsChain(tokens: seq<Token>, v: nat, newId: nat, w: nat)
    requires LinearChain(TokensOf(tokens, v)) && LinearChain(TokensOf(tokens, w))
    ensures var after := RotatedTokens(tokens, v, newId);
      LinearChain(TokensOf(after, w)) && |TokensOf(after, w)| == |TokensOf(tokens, w)| + if w == v then 1 else 0
  {
    var chain, rotated := TokensOf(tokens, v), RotateActive(tokens, v);
    var after := RotatedTokens(tokens, v, newId);
    ActiveIsLast(tokens, v);
    TokensRotated(tokens, v, w);
    TokensMembers(tokens, v);
    assert after[..|after| - 1] == rotated;
    if w == v {
      RotatedChain(chain, v, newId);
    } else {
      assert TokensOf(rotated, w) + [] == TokensOf(rotated, w);
    }
  }

  // ---------------------------------------------------------------------------
  // The run invariant
  // ---------------------------------------------------------------------------

  /** How many tokens of a vehicle its events account for: one at the first generation or rotation,
      and one more at every later rotation. */
  function Issued(log: seq<Event>, v: nat): nat {
    if log == [] then 0
    else
      var before := Issued(log[..|log| - 1], v);
      match log[|log| - 1]
      case QrGenerated(w) => if w == v && before == 0 then 1 else before
      case QrRotated(w) => if w == v then before + 1 else before
      case QrDistributed(_) => before
      case Resolved(_) => before
  }

  ghost predicate VehicleOk(s: State, v: nat) {
    && LinearChain(TokensOf(s.tokens, v))
    && |TokensOf(s.tokens, v)| == Issued(s.log, v)
    && (v in s.vehicles && s.vehicles[v].deployment != NotGenerated ==> TokensOf(s.tokens, v) != [])
  }

  ghost predicate Good(s: State) {
    UniqueIds(s.tokens) && UniqueActive(s.tokens) && forall v :: VehicleOk(s, v)
  }

  lemma IssuedAppend(log: seq<Event>, e: Event, v: nat)
    ensures Issued(log + [e], v)
         == match e
            case QrGenerated(w) => if w == v && Issued(log, v) == 0 then 1 else Issued(log, v)
            case QrRotated(w) => if w == v then Issued(log, v) + 1 else Issued(log, v)
            case QrDistributed(_) => Issued(log, v)
            case Resolved(_) => Issued(log, v)
  {
    assert (log + [e])[..|log|] == log;
  }

  lemma RotateKeepsOk(s: State, v: nat, newId: nat, vehicles: map<nat, Vehicle>, w: nat)
    requires VehicleOk(s, v) && VehicleOk(s, w)
    requires vehicles == s.vehicles || vehicles == SetDeployment(s.vehicles, v, Generated)
    ensures VehicleOk(State(RotatedTokens(s.tokens, v, newId), vehicles, s.log + [QrRotated(v)]), w)
  {
    RotationExtendsChain(s.tokens, v, newId, w);
    IssuedAppend(s.log, QrRotated(v), w);
  }

  lemma MissingTokenOk(s: State, v: nat, newId: nat, w: nat)
    requires VehicleOk(s, v) && VehicleOk(s, w)
    ensures var after := s.tokens + MissingToken(s.tokens, v, newId);
      && LinearChain(TokensOf(after, w))
      && |TokensOf(after, w)| == Issued(s.log + [QrGenerated(v)], w)
  {
    var added := MissingToken(s.tokens, v, newId);
    ActiveIsLast(s.tokens, v);
    TokensAppend(s.tokens, added, w);
    IssuedAppend(s.log, QrGenerated(v), w);
    if added != [] {
      assert added[..0] == [];
      assert TokensOf(added, w) == if w == v then added else [];
    }
    assert TokensOf(s.tokens, w) + [] == TokensOf(s.tokens, w);
    if w == v && added != [] {
      assert TokensOf(s.tokens, v) == [] && [] + added == added;
      assert ChainLink(added, 0);
    }
  }

  lemma {:induction false} FoundIsActive(tokens: seq<Token>, id: nat)
    ensures forall t | t in ActiveWithId(tokens, id) :: t.id == id && t in ActiveTokens(tokens, t.vehicle)
  {
    if tokens != [] {
      FoundIsActive(tokens[..|tokens| - 1], id);
    }
  }

  // ---------------------------------------------------------------------------
  // Bulk generation
  // ---------------------------------------------------------------------------

  lemma {:induction false} ActivesAppend(a: seq<Token>, b: seq<Token>, v: nat)
    ensures ActiveTokens(a + b, v) == ActiveTokens(a, v) + ActiveTokens(b, v)
    decreases |b|
  {
    if b == [] {
      assert a + b == a && ActiveTokens(a, v) + [] == ActiveTokens(a, v);
    } else {
      var front, last := b[..|b| - 1], b[|b| - 1];
      assert (a + b)[..|a + b| - 1] == a + front;
      ActivesAppend(a, front, v);
      Assoc(ActiveTokens(a, v), ActiveTokens(front, v), if last.vehicle == v && last.status == Active then [last] else []);
    }
  }

  lemma {:induction false} SomeActive(tokens: seq<Token>, v: nat)
    ensures ActiveTokens(tokens, v) != [] <==> exists i | 0 <= i < |tokens| :: tokens[i].vehicle == v && tokens[i].status == Active
  {
    if tokens != [] {
      var front := tokens[..|tokens| - 1];
      SomeActive(front, v);
      assert forall i | 0 <= i < |front| :: front[i] == tokens[i];
    }
  }

  lemma {:induction false} UniqueGivesOne(tokens: seq<Token>, v: nat)
    requires UniqueActive(tokens)
    ensures |ActiveTokens(tokens, v)| <= 1
  {
    if tokens != [] {
      var front := tokens[..|tokens| - 1];
      UniqueGivesOne(front, v);
      SomeActive(front, v);
      assert forall i | 0 <= i < |front| :: front[i] == tokens[i];
    }
  }

  lemma DuplicateGivesTwo(tokens: seq<Token>, i: nat, j: nat)
    requires i < j < |tokens| && tokens[i].status == Active && tokens[j].status == Active
    requires tokens[i].vehicle == tokens[j].vehicle
    ensures |ActiveTokens(tokens, tokens[i].vehicle)| >= 2
  {
    var v, front, back := tokens[i].vehicle, tokens[..j], tokens[j..];
    assert front[i] == tokens[i] && back[0] == tokens[j] && tokens == front + back;
    SomeActive(front, v);
    SomeActive(back, v);
    ActivesAppend(front, back, v);
  }

  /** The index constraint bounds every vehicle's active tokens by one, and is nothing more. */
  lemma UniqueActiveMeans(tokens: seq<Token>)
    ensures UniqueActive(tokens) <==> forall v :: |ActiveTokens(tokens, v)| <= 1
  {
    if UniqueActive(tokens) {
      forall v ensures |ActiveTokens(tokens, v)| <= 1 {
        UniqueGivesOne(tokens, v);
      }
    } else {
      var i, j :| 0 <= i < j < |tokens| && tokens[i].status == Active && tokens[j].status == Active
                  && tokens[i].vehicle == tokens[j].vehicle;
      DuplicateGivesTwo(tokens, i, j);
    }
  }

  /** A vehicle for which a bulk item inserts a token. */
  predicate Needs(s: State, v: nat) {
    Registered(s.vehicles, v) && ActiveTokens(s.tokens, v) == []
  }

  function CountItems(items: seq<BulkItem>, v: nat): nat {
    if items == [] then 0
    else CountItems(items[..|items| - 1], v) + if items[|items| - 1].vehicle == v then 1 else 0
  }

  /** The pending inserts of a vehicle: one original token per item that names it, if it needs one. */
  lemma {:induction false} PendingOf(s: State, items: seq<BulkItem>, v: nat)
    ensures var mine := TokensOf(Pending(s, items), v);
      && |mine| == (if Needs(s, v) then CountItems(items, v) else 0)
      && (forall i | 0 <= i < |mine| :: mine[i].status == Active && mine[i].origin == Original)
      && ActiveTokens(Pending(s, items), v) == mine
  {
    if items != [] {
      var front, last := items[..|items| - 1], items[|items| - 1];
      var before := Pending(s, front);
      PendingOf(s, front, v);
      var added := if Registered(s.vehicles, last.vehicle) then MissingToken(s.tokens, last.vehicle, last.newId) else [];
      TokensAppend(before, added, v);
      ActivesAppend(before, added, v);
      if added != [] {
        assert added[..0] == [];
      }
    }
  }

  lemma {:induction false} BulkVehiclesOf(s: State, items: seq<BulkItem>, v: nat)
    ensures var after := BulkVehicles(s, items);
      && (v in after <==> v in s.vehicles)
      && (v in after ==> after[v].active == s.vehicles[v].active)
      && (v in after ==>
          after[v].deployment == if Registered(s.vehicles, v) && CountItems(items, v) > 0 then Generated
                                 else s.vehicles[v].deployment)
  {
    if items != [] {
      BulkVehiclesOf(s, items[..|items| - 1], v);
    }
  }

  lemma {:induction false} BulkIssued(s: State, items: seq<BulkItem>, v: nat)
    ensures Issued(s.log + BulkEvents(s, items), v)
         == if Issued(s.log, v) == 0 && Registered(s.vehicles, v) && CountItems(items, v) > 0 then 1 else Issued(s.log, v)
  {
    if items == [] {
      assert s.log + [] == s.log;
    } else {
      var front, last := items[..|items| - 1], items[|items| - 1];
      BulkIssued(s, front, v);
      var before := s.log + BulkEvents(s, front);
      if Registered(s.vehicles, last.vehicle) {
        Assoc(s.log, BulkEvents(s, front), [QrGenerated(last.vehicle)]);
        IssuedAppend(before, QrGenerated(last.vehicle), v);
      } else {
        assert BulkEvents(s, front) + [] == BulkEvents(s, front);
      }
    }
  }

  lemma BulkChain(s: State, items: seq<BulkItem>, v: nat)
    requires LinearChain(TokensOf(s.tokens, v)) && UniqueActive(s.tokens + Pending(s, items))
    ensures var chain, after := TokensOf(s.tokens, v), TokensOf(s.tokens + Pending(s, items), v);
      && LinearChain(after)
      && |after| == if chain == [] && Registered(s.vehicles, v) && CountItems(items, v) > 0 then 1 else |chain|
  {
    var chain, mine := TokensOf(s.tokens, v), TokensOf(Pending(s, items), v);
    ActiveIsLast(s.tokens, v);
    PendingOf(s, items, v);
    TokensAppend(s.tokens, Pending(s, items), v);
    if chain == [] {
      ActivesAppend(s.tokens, Pending(s, items), v);
      UniqueGivesOne(s.tokens + Pending(s, items), v);
      assert [] + mine == mine;
      if mine != [] {
        assert ChainLink(mine, 0);
      }
    } else {
      assert mine == [] && chain + [] == chain;
    }
  }

  lemma BulkKeepsOk(s: State, items: seq<BulkItem>, v: nat)
    requires VehicleOk(s, v) && UniqueActive(s.tokens + Pending(s, items))
    ensures VehicleOk(State(s.tokens + Pending(s, items), BulkVehicles(s, items), s.log + BulkEvents(s, items)), v)
  {
    hide LinearChain, UniqueActive;
    BulkChain(s, items, v);
    BulkVehiclesOf(s, items, v);
    BulkIssued(s, items, v);
  }

  // ---------------------------------------------------------------------------
  // Every step, every run
  // ---------------------------------------------------------------------------

  lemma DeploymentOk(s: State, v: nat, vehicles: map<nat, Vehicle>, log: seq<Event>)
    requires VehicleOk(s, v) && Issued(log, v) == Issued(s.log, v)
    requires v in vehicles && vehicles[v].deployment != NotGenerated ==> TokensOf(s.tokens, v) != []
    ensures VehicleOk(State(s.tokens, vehicles, log), v)
  {}

  lemma ActiveMeansIssued(s: State, v: nat)
    requires VehicleOk(s, v)
    ensures ActiveTokens(s.tokens, v) != [] <==> TokensOf(s.tokens, v) != []
  {
    ActiveIsLast(s.tokens, v);
  }

  lemma StepKeepsOk(s: State, step: Step, v: nat)
    requires Good(s)
    ensures VehicleOk(Apply(s, step), v)
  {
    hide LinearChain, UniqueIds, UniqueActive, TokensOf, ActiveTokens, Issued;
    assert VehicleOk(s, v);
    match step
    case Import(w, active) => DeploymentOk(s, v, Apply(s, step).vehicles, s.log);
    case Generate(w, newId) =>
      assert VehicleOk(s, w);
      MissingTokenOk(s, w, newId, v);
      GeneratedHasToken(s, w, newId);
      TokensAppend(s.tokens, MissingToken(s.tokens, w, newId), v);
    case BulkGenerate(items) =>
      if UniqueActive(s.tokens + Pending(s, items)) {
        BulkKeepsOk(s, items, v);
      }
    case Rotate(w, newId) =>
      assert VehicleOk(s, w);
      RotateKeepsOk(s, w, newId, SetDeployment(s.vehicles, w, Generated), v);
    case AdminRotate(w, newId) =>
      assert VehicleOk(s, w);
      RotateKeepsOk(s, w, newId, s.vehicles, v);
    case Print(w) =>
      if Registered(s.vehicles, w) && ActiveTokens(s.tokens, w) != [] {
        assert VehicleOk(s, w);
        ActiveMeansIssued(s, w);
        IssuedAppend(s.log, QrDistributed(w), v);
        DeploymentOk(s, v, SetDeployment(s.vehicles, w, Distributed), s.log + [QrDistributed(w)]);
      }
    case Resolve(id) =>
      var found := ActiveWithId(s.tokens, id);
      if found != [] {
        var w := found[0].vehicle;
        FoundIsActive(s.tokens, id);
        assert found[0] in found && VehicleOk(s, w);
        ActiveMeansIssued(s, w);
        IssuedAppend(s.log, Resolved(w), v);
        DeploymentOk(s, v, SetDeployment(s.vehicles, w, Confirmed), s.log + [Resolved(w)]);
      }
  }

  lemma GeneratedHasToken(s: State, v: nat, newId: nat)
    requires VehicleOk(s, v)
    ensures TokensOf(s.tokens + MissingToken(s.tokens, v, newId), v) != []
  {
    ActiveIsLast(s.tokens, v);
    var added := MissingToken(s.tokens, v, newId);
    TokensAppend(s.tokens, added, v);
    if added != [] {
      assert added[..0] == [];
    }
  }

  lemma StepKeepsGood(s: State, step: Step)
    requires Good(s)
    ensures Good(Apply(s, step))
  {
    forall v ensures VehicleOk(Apply(s, step), v) {
      StepKeepsOk(s, step, v);
    }
  }

  function Run(s: State, steps: seq<Step>): State
    decreases |steps|
  {
    if steps == [] then s else Run(Apply(s, steps[0]), steps[1..])
  }

  lemma {:induction false} RunKeepsGood(s: State, steps: seq<Step>)
    requires Good(s)
    ensures Good(Run(s, steps))
    decreases |steps|
  {
    if steps != [] {
      StepKeepsGood(s, steps[0]);
      RunKeepsGood(Apply(s, steps[0]), steps[1..]);
    }
  }

  lemma EmptyIsGood()
    ensures Good(EMPTY)
  {
    forall v ensures VehicleOk(EMPTY, v) {}
  }

  /** Over every run: a vehicle's tokens form one linear chain as long as its log accounts for, whose
      end is its only active token; a vehicle that has left not_generated has exactly one. */
  lemma TokensFormOneChain(steps: seq<Step>, v: nat)
    ensures var s := Run(EMPTY, steps);
      var chain := TokensOf(s.tokens, v);
      && UniqueIds(s.tokens) && LinearChain(chain) && |chain| == Issued(s.log, v)
      && ActiveTokens(s.tokens, v) == (if chain == [] then [] else [chain[|chain| - 1]])
      && (v in s.vehicles && s.vehicles[v].deployment != NotGenerated ==> |ActiveTokens(s.tokens, v)| == 1)
  {
    EmptyIsGood();
    RunKeepsGood(EMPTY, steps);
    assert VehicleOk(Run(EMPTY, steps), v);
    ActiveIsLast(Run(EMPTY, steps).tokens, v);
  }

  /** The log's count in closed form: after the first token, one more per rotation. */
  function Rotations(log: seq<Event>, v: nat): nat {
    if log == [] then 0 else Rotations(log[..|log| - 1], v) + if log[|log| - 1] == QrRotated(v) then 1 else 0
  }

  lemma {:induction false} IssuedCountsRotations(log: seq<Event>, more: seq<Event>, v: nat)
    requires Issued(log, v) == 1
    ensures Issued(log + more, v) == 1 + Rotations(more, v)
    decreases |more|
  {
    if more == [] {
      assert log + more == log;
    } else {
      var front, last := more[..|more| - 1], more[|more| - 1];
      IssuedCountsRotations(log, front, v);
      assert log + more == (log + front) + [last];
      IssuedAppend(log + front, last, v);
    }
  }

  // ---------------------------------------------------------------------------
  // When a commit is refused
  // ---------------------------------------------------------------------------

  ghost predicate NewId(tokens: seq<Token>, id: nat) {
    forall i | 0 <= i < |tokens| :: tokens[i].id != id
  }

  /** With a new id a rotation always commits. */
  lemma RotationCommits(s: State, v: nat, newId: nat)
    requires Good(s) && NewId(s.tokens, newId)
    ensures UniqueIds(RotatedTokens(s.tokens, v, newId)) && UniqueActive(RotatedTokens(s.tokens, v, newId))
  {}

  /** With a new id a single generation always commits. */
  lemma GenerationCommits(s: State, v: nat, newId: nat)
    requires Good(s) && NewId(s.tokens, newId)
    ensures UniqueIds(s.tokens + MissingToken(s.tokens, v, newId))
    ensures UniqueActive(s.tokens + MissingToken(s.tokens, v, newId))
  {
    SomeActive(s.tokens, v);
  }

  /** Two items of the request name the same vehicle, and it is registered without an active token. */
  ghost predicate NamesNeedyTwice(s: State, items: seq<BulkItem>) {
    exists i, j | 0 <= i < j < |items| :: items[i].vehicle == items[j].vehicle && Needs(s, items[i].vehicle)
  }

  lemma {:induction false} CountedTwice(items: seq<BulkItem>, v: nat)
    ensures CountItems(items, v) >= 1 <==> exists i | 0 <= i < |items| :: items[i].vehicle == v
    ensures CountItems(items, v) >= 2
       <==> exists i, j | 0 <= i < j < |items| :: items[i].vehicle == v && items[j].vehicle == v
  {
    if items != [] {
      var front := items[..|items| - 1];
      CountedTwice(front, v);
      assert forall i | 0 <= i < |front| :: front[i] == items[i];
    }
  }

  /** The index refuses a bulk request exactly when it names a vehicle that needs a token twice. */
  lemma BulkRefusedExactly(s: State, items: seq<BulkItem>)
    requires Good(s)
    ensures !UniqueActive(s.tokens + Pending(s, items)) <==> NamesNeedyTwice(s, items)
  {
    var after := s.tokens + Pending(s, items);
    UniqueActiveMeans(s.tokens);
    UniqueActiveMeans(after);
    forall v ensures |ActiveTokens(after, v)| > 1 <==> Needs(s, v) && CountItems(items, v) >= 2 {
      ActivesAppend(s.tokens, Pending(s, items), v);
      PendingOf(s, items, v);
      assert |ActiveTokens(s.tokens, v)| <= 1;
    }
    if !UniqueActive(after) {
      var v :| |ActiveTokens(after, v)| > 1;
      CountedTwice(items, v);
    }
    if NamesNeedyTwice(s, items) {
      var i, j :| 0 <= i < j < |items| && items[i].vehicle == items[j].vehicle && Needs(s, items[i].vehicle);
      CountedTwice(items, items[i].vehicle);
      assert |ActiveTokens(after, items[i].vehicle)| > 1;
    }
  }

  /** A request that is refused: one new vehicle, named twice. */
  lemma BulkRefusedExample()
    ensures var s := Run(EMPTY, [Import(7, true)]);
      && !UniqueActive(s.tokens + Pending(s, [BulkItem(7, 1), BulkItem(7, 2)]))
      && Apply(s, BulkGenerate([BulkItem(7, 1), BulkItem(7, 2)])) == s
  {
    var s, items := Run(EMPTY, [Import(7, true)]), [BulkItem(7, 1), BulkItem(7, 2)];
    EmptyIsGood();
    RunKeepsGood(EMPTY, [Import(7, true)]);
    assert [Import(7, true)][1..] == [] && s.tokens == [] && Registered(s.vehicles, 7);
    BulkRefusedExactly(s, items);
    assert items[0].vehicle == items[1].vehicle && Needs(s, items[0].vehicle);
  }

  // ---------------------------------------------------------------------------
  // Coverage statistics
  // ---------------------------------------------------------------------------

  datatype Coverage = Coverage(
    required: nat, generated: nat, distributed: nat, confirmed: nat, notGenerated: bool, notDistributed: bool)

  function RequiredIds(s: State): set<nat> {
    set v | v in s.vehicles && s.vehicles[v].active
  }

  function GeneratedIds(s: State): set<nat> {
    set t | t in s.tokens && t.status == Active :: t.vehicle
  }

  function DistributedIds(s: State): set<nat> {
    set v | v in RequiredIds(s) && (s.vehicles[v].deployment == Distributed || s.vehicles[v].deployment == Confirmed)
  }

  function ConfirmedIds(s: State): set<nat> {
    set v | v in RequiredIds(s) && s.vehicles[v].deployment == Confirmed
  }

  function VehicleQrStats(s: State): Coverage {
    Coverage(|RequiredIds(s)|, |RequiredIds(s) * GeneratedIds(s)|, |DistributedIds(s)|, |ConfirmedIds(s)|,
             |RequiredIds(s) - GeneratedIds(s)| > 0, |DistributedIds(s)| < |RequiredIds(s)|)
  }

  lemma SubsetSize(a: set<nat>, b: set<nat>)
    requires a <= b
    ensures |a| <= |b| && (|a| == |b| <==> a == b)
  {
    assert b == a + (b - a);
  }

  lemma OrderedSizes(required: set<nat>, generated: set<nat>, distributed: set<nat>, confirmed: set<nat>)
    requires confirmed <= distributed <= required * generated
    ensures |confirmed| <= |distributed| <= |required * generated| <= |required|
    ensures |required - generated| == 0 <==> |required * generated| == |required|
    ensures |distributed| == |required| ==> |required - generated| == 0
  {
    SubsetSize(confirmed, distributed);
    SubsetSize(distributed, required * generated);
    SubsetSize(required * generated, required);
    assert required == required * generated + (required - generated);
  }

  lemma DistributedIsGenerated(s: State)
    requires Good(s)
    ensures DistributedIds(s) <= RequiredIds(s) * GeneratedIds(s)
  {
    forall v | v in DistributedIds(s) ensures v in GeneratedIds(s) {
      assert VehicleOk(s, v);
      ActiveMeansIssued(s, v);
      SomeActive(s.tokens, v);
    }
  }

  /** In every reachable state the four counts are ordered; the first blocker is absent exactly when
      all required vehicles are generated, and whenever the second one is absent. */
  lemma CoverageIsOrdered(steps: seq<Step>)
    ensures var c := VehicleQrStats(Run(EMPTY, steps));
      && c.confirmed <= c.distributed <= c.generated <= c.required
      && (!c.notGenerated <==> c.generated == c.required)
      && (!c.notDistributed ==> !c.notGenerated)
  {
    var s := Run(EMPTY, steps);
    EmptyIsGood();
    RunKeepsGood(EMPTY, steps);
    DistributedIsGenerated(s);
    assert ConfirmedIds(s) <= DistributedIds(s);
    OrderedSizes(RequiredIds(s), GeneratedIds(s), DistributedIds(s), ConfirmedIds(s));
  }
}
