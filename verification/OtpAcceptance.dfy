/** Which codes the legacy driver login accepts, and what each call does to the challenges
    (backend/app/api/routes_driver.py). */
module OtpAcceptance {
  import opened OtpChallenges

  // ---------------------------------------------------------------------------
  // One call
  // ---------------------------------------------------------------------------

  /** A verification for the phone of a pending challenge: after ten minutes the challenge expires;
      until then the right code verifies it, and a wrong one costs an attempt, the fifth the challenge. */
  lemma VerifyExactly(rows: seq<Challenge>, k: nat, codeHash: nat, driverExists: bool, now: int, cooldown: int)
    requires Good(rows, now, cooldown) && k < |rows| && rows[k].status == Pending
    requires rows[k].phone != 0 && codeHash != 0
    ensures var (rows', response) := AfterVerify(rows, rows[k].phone, codeHash, driverExists, now);
      && rows' == rows[k := rows'[k]]
      && if now > rows[k].issued + 600_000_000 then
           response == HasExpired(k) && rows'[k] == rows[k].(status := Expired)
         else if codeHash == rows[k].codeHash then
           && response == (if driverExists then LoggedIn(k) else NoDriver(k))
           && rows'[k] == rows[k].(attempts := rows[k].attempts + 1, status := Verified)
         else
           && response == Wrong(k)
           && rows'[k] == rows[k].(attempts := rows[k].attempts + 1, status := if rows[k].attempts == 4 then Locked else Pending)
  {
    OnlyOnePending(rows, k, now, cooldown);
    assert RowOk(rows[k], now, cooldown);
  }

  /** Blank input, and a phone without a pending challenge, are refused without a change. */
  lemma VerifyRefused(rows: seq<Challenge>, phone: nat, codeHash: nat, driverExists: bool, now: int)
    requires phone == 0 || codeHash == 0 || forall i | 0 <= i < |rows| && rows[i].phone == phone :: rows[i].status != Pending
    ensures AfterVerify(rows, phone, codeHash, driverExists, now)
         == (rows, if phone == 0 || codeHash == 0 then BadRequest else NotFound)
  {}

  /** A pending challenge of the phone was issued less than the cooldown ago. */
  ghost predicate Recent(rows: seq<Challenge>, phone: nat, now: int, cooldown: int, i: nat) {
    i < |rows| && rows[i].phone == phone && rows[i].status == Pending && now - rows[i].issued < cooldown
  }

  /** A request within the cooldown is refused without a change, with the remaining whole seconds, but
      at least one, as the hint. */
  lemma RequestRefused(rows: seq<Challenge>, phone: nat, codeHash: nat, now: int, cooldown: int, i: nat)
    requires Good(rows, now, cooldown) && cooldown <= LIFETIME && phone != 0 && Recent(rows, phone, now, cooldown, i)
    ensures var (rows', response) := AfterRequest(rows, phone, codeHash, now, cooldown);
      var remaining := cooldown - (now - rows[i].issued);
      && rows' == rows && response.TooSoon?
      && (if remaining < 1_000_000 then response.retryAfter == 1
          else response.retryAfter * 1_000_000 <= remaining < (response.retryAfter + 1) * 1_000_000)
  {
    OnlyOnePending(rows, i, now, cooldown);
    assert RowOk(rows[i], now, cooldown);
  }

  /** Any other request for a phone retires its pending challenges and issues a new one for ten
      minutes with the hash of the code that was sent; a blank phone is refused. */
  lemma RequestSent(rows: seq<Challenge>, phone: nat, codeHash: nat, now: int, cooldown: int)
    requires Good(rows, now, cooldown) && forall i :: !Recent(rows, phone, now, cooldown, i)
    ensures var (rows', response) := AfterRequest(rows, phone, codeHash, now, cooldown);
      if phone == 0 then rows' == rows && response == BadRequest
      else
        && response == Sent(|rows|) && |rows'| == |rows| + 1
        && (forall i | 0 <= i < |rows| ::
              rows'[i] == if rows[i].phone == phone && rows[i].status == Pending then rows[i].(status := Expired) else rows[i])
        && rows'[|rows|] == Challenge(phone, codeHash, now, now + 600_000_000, 0, Pending, SentAt(now))
  {
    var latest := LatestPending(rows, phone);
    if latest.Some? {
      assert RowOk(rows[latest.index], now, cooldown) && !Recent(rows, phone, now, cooldown, latest.index);
    }
  }

  // ---------------------------------------------------------------------------
  // Over a run
  // ---------------------------------------------------------------------------

  lemma {:induction false} RunSnoc(rows: seq<Challenge>, steps: seq<Step>, n: nat, cooldown: int)
    requires n < |steps|
    ensures Run(rows, steps[..n + 1], cooldown) == Apply(Run(rows, steps[..n], cooldown), steps[n], cooldown).0
    decreases n
  {
    if n == 0 {
      assert steps[..1] == [steps[0]] && [steps[0]][1..] == [];
    } else {
      assert steps[..n + 1][1..] == steps[1..][..n] && steps[..n][1..] == steps[1..][..n - 1];
      RunSnoc(Apply(rows, steps[0], cooldown).0, steps[1..], n - 1, cooldown);
    }
  }

  /** The response of step n. */
  function ResponseAt(steps: seq<Step>, n: nat, cooldown: int): Response
    requires n < |steps|
  {
    Apply(Run([], steps[..n], cooldown), steps[n], cooldown).1
  }

  lemma {:induction false} ResponsesFrom(rows: seq<Challenge>, steps: seq<Step>, n: nat, cooldown: int)
    requires n < |steps|
    ensures |Responses(rows, steps, cooldown)| == |steps|
    ensures Responses(rows, steps, cooldown)[n] == Apply(Run(rows, steps[..n], cooldown), steps[n], cooldown).1
    decreases |steps|
  {
    var (rows', response) := Apply(rows, steps[0], cooldown);
    var rest := Responses(rows', steps[1..], cooldown);
    assert Responses(rows, steps, cooldown) == [response] + rest;
    if |steps| == 1 {
      assert steps[1..] == [] && rest == [] && steps[..0] == [];
    } else if n == 0 {
      ResponsesFrom(rows', steps[1..], 0, cooldown);
      assert steps[..0] == [];
    } else {
      ResponsesFrom(rows', steps[1..], n - 1, cooldown);
      assert steps[..n][1..] == steps[1..][..n - 1];
    }
  }

  lemma ResponsesAt(steps: seq<Step>, n: nat, cooldown: int)
    requires n < |steps|
    ensures |Responses([], steps, cooldown)| == |steps| && Responses([], steps, cooldown)[n] == ResponseAt(steps, n, cooldown)
  {
    ResponsesFrom([], steps, n, cooldown);
  }

  /** Step i is the request that issued challenge k. */
  ghost predicate Issues(steps: seq<Step>, i: nat, cooldown: int, k: nat) {
    i < |steps| && steps[i].Request? && ResponseAt(steps, i, cooldown) == Sent(k)
  }

  /** A step keeps what identifies a challenge, and adds one only by a request that says so. */
  lemma StepKeepsIdentity(rows: seq<Challenge>, step: Step, cooldown: int, k: nat)
    ensures var (rows', response) := Apply(rows, step, cooldown);
      && |rows| <= |rows'| <= |rows| + 1
      && (k < |rows| ==> rows'[k].phone == rows[k].phone && rows'[k].codeHash == rows[k].codeHash && rows'[k].issued == rows[k].issued)
      && (|rows| <= k < |rows'| ==>
            && step.Request? && response == Sent(k)
            && rows'[k].phone == step.phone && rows'[k].codeHash == step.codeHash && rows'[k].issued == step.now)
  {}

  /** Every challenge goes back to the request that issued it. */
  lemma {:induction false} IssuedBy(steps: seq<Step>, n: nat, cooldown: int, k: nat) returns (i: nat)
    requires n <= |steps| && k < |Run([], steps[..n], cooldown)|
    ensures i < n && Issues(steps, i, cooldown, k)
    ensures var row := Run([], steps[..n], cooldown)[k];
      row.phone == steps[i].phone && row.codeHash == steps[i].codeHash && row.issued == steps[i].now
    decreases n
  {
    if n == 0 {
      assert false;
    } else {
      var rows := Run([], steps[..n - 1], cooldown);
      RunSnoc([], steps, n - 1, cooldown);
      StepKeepsIdentity(rows, steps[n - 1], cooldown, k);
      if k < |rows| {
        i := IssuedBy(steps, n - 1, cooldown, k);
      } else {
        i := n - 1;
      }
    }
  }

  /** What a comparing response says about the step and the row. */
  lemma ComparedRow(rows: seq<Challenge>, step: Step, cooldown: int, k: nat)
    requires var response := Apply(rows, step, cooldown).1;
      response == Wrong(k) || response == LoggedIn(k) || response == NoDriver(k)
    ensures step.Verify? && k < |rows| && rows[k].phone == step.phone
    ensures step.codeHash == rows[k].codeHash <==> Apply(rows, step, cooldown).1 != Wrong(k)
  {}

  /** Over every run: a response that compares challenge k answers a verification for the phone of the
      request that issued k. It accepts if and only if the code is the one sent then. */
  lemma AcceptedExactly(steps: seq<Step>, cooldown: int, j: nat, k: nat) returns (i: nat)
    requires j < |steps| && |Responses([], steps, cooldown)| == |steps|
    requires var response := Responses([], steps, cooldown)[j];
      response == Wrong(k) || response == LoggedIn(k) || response == NoDriver(k)
    ensures i < j && steps[i].Request? && Responses([], steps, cooldown)[i] == Sent(k)
    ensures steps[j].Verify? && steps[j].phone == steps[i].phone
    ensures var response := Responses([], steps, cooldown)[j];
      && (response == LoggedIn(k) || response == NoDriver(k) <==> steps[j].codeHash == steps[i].codeHash)
      && (response == Wrong(k) <==> steps[j].codeHash != steps[i].codeHash)
  {
    ResponsesAt(steps, j, cooldown);
    var rows := Run([], steps[..j], cooldown);
    ComparedRow(rows, steps[j], cooldown, k);
    i := IssuedBy(steps, j, cooldown, k);
    ResponsesAt(steps, i, cooldown);
  }

  lemma {:induction false} ClockedPrefix(steps: seq<Step>, n: nat, start: int)
    requires Clocked(steps, start) && n < |steps|
    ensures Clocked(steps[..n], start) && EndTime(steps[..n], start) <= steps[n].now
    decreases n
  {
    if n == 0 {
      assert steps[..0] == [];
    } else {
      ClockedPrefix(steps[1..], n - 1, steps[0].now);
      assert steps[..n][1..] == steps[1..][..n - 1];
    }
  }

  /** Over every run: a verification with the code that was sent for a challenge that is still pending,
      and at most ten minutes old, is accepted. */
  lemma RightCodeAccepted(steps: seq<Step>, start: int, cooldown: int, i: nat, j: nat, k: nat)
    requires Clocked(steps, start) && cooldown <= LIFETIME && i < j < |steps|
    requires |Responses([], steps, cooldown)| == |steps|
    requires steps[i].Request? && Responses([], steps, cooldown)[i] == Sent(k)
    requires k < |Run([], steps[..j], cooldown)| && Run([], steps[..j], cooldown)[k].status == Pending
    requires steps[j].Verify? && steps[j].phone == steps[i].phone != 0 && steps[j].codeHash == steps[i].codeHash != 0
    requires steps[j].now <= steps[i].now + 600_000_000
    ensures Responses([], steps, cooldown)[j] == if steps[j].driverExists then LoggedIn(k) else NoDriver(k)
  {
    var rows := Run([], steps[..j], cooldown);
    var i' := IssuedBy(steps, j, cooldown, k);
    ResponsesAt(steps, i, cooldown);
    ResponsesAt(steps, j, cooldown);
    IssuedOnce(steps, cooldown, i, i', k);
    ClockedPrefix(steps, j, start);
    RunKeepsGood([], steps[..j], start, cooldown);
    TimePasses(rows, EndTime(steps[..j], start), steps[j].now, cooldown);
    VerifyExactly(rows, k, steps[j].codeHash, steps[j].driverExists, steps[j].now, cooldown);
  }

  lemma {:induction false} RowsGrow(steps: seq<Step>, m: nat, n: nat, cooldown: int)
    requires m <= n <= |steps|
    ensures |Run([], steps[..m], cooldown)| <= |Run([], steps[..n], cooldown)|
    decreases n
  {
    if m < n {
      RowsGrow(steps, m, n - 1, cooldown);
      RunSnoc([], steps, n - 1, cooldown);
      StepKeepsIdentity(Run([], steps[..n - 1], cooldown), steps[n - 1], cooldown, 0);
    }
  }

  lemma SentAdds(rows: seq<Challenge>, step: Step, cooldown: int, k: nat)
    requires Apply(rows, step, cooldown).1 == Sent(k)
    ensures |rows| == k && |Apply(rows, step, cooldown).0| == k + 1
  {}

  /** A challenge is issued by one request only. */
  lemma IssuedOnce(steps: seq<Step>, cooldown: int, i: nat, j: nat, k: nat)
    requires Issues(steps, i, cooldown, k) && Issues(steps, j, cooldown, k)
    ensures i == j
  {
    var a, b := if i < j then i else j, if i < j then j else i;
    SentAdds(Run([], steps[..a], cooldown), steps[a], cooldown, k);
    SentAdds(Run([], steps[..b], cooldown), steps[b], cooldown, k);
    RunSnoc([], steps, a, cooldown);
    if a < b {
      RowsGrow(steps, a + 1, b, cooldown);
    }
  }
}
