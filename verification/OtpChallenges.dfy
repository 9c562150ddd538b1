/** The one-time-password challenges of the legacy driver login (backend/app/api/routes_driver.py). */
module OtpChallenges {

  datatype Status = Pending | Verified | Expired | Locked

  datatype LastSent = Never | SentAt(time: int)

  /** A challenge row; `issued` is its creation time. All times are in microseconds. */
  datatype Challenge = Challenge(
    phone: nat, codeHash: nat, issued: int, expiresAt: int, attempts: nat, status: Status, lastSent: LastSent)

  const SECOND := 1_000_000
  const LIFETIME := 600 * SECOND
  const MAX_ATTEMPTS := 5

  /** The phone number (or code) that is blank after stripping. */
  const BLANK := 0

  datatype Response =
    | BadRequest
    | Sent(challenge: nat)
    | TooSoon(retryAfter: int)
    | NotFound
    | HasExpired(challenge: nat)
    | IsLocked(challenge: nat)
    | Wrong(challenge: nat)
    | LoggedIn(challenge: nat)
    | NoDriver(challenge: nat)

  datatype Step =
    | Request(phone: nat, codeHash: nat, now: int)
    | Verify(phone: nat, codeHash: nat, driverExists: bool, now: int)

  datatype Found = None | Some(index: nat)

  // ---------------------------------------------------------------------------
  // The endpoints
  // ---------------------------------------------------------------------------

  /** The newest pending challenge of a phone; rows are listed in creation order. */
  function LatestPending(rows: seq<Challenge>, phone: nat): (found: Found)
    ensures found.Some? ==> found.index < |rows| && rows[found.index].phone == phone && rows[found.index].status == Pending
    ensures found.Some? ==> forall i | found.index < i < |rows| && rows[i].phone == phone :: rows[i].status != Pending
    ensures found.None? ==> forall i | 0 <= i < |rows| && rows[i].phone == phone :: rows[i].status != Pending
  {
    if rows == [] then None
    else
      var last := |rows| - 1;
      if rows[last].phone == phone && rows[last].status == Pending then Some(last)
      else LatestPending(rows[..last], phone)
  }

  function SetStatus(rows: seq<Challenge>, i: nat, status: Status): seq<Challenge>
    requires i < |rows|
  {
    rows[i := rows[i].(status := status)]
  }

  function ExpirePending(rows: seq<Challenge>, phone: nat): seq<Challenge> {
    seq(|rows|, i requires 0 <= i < |rows| =>
      if rows[i].phone == phone && rows[i].status == Pending then rows[i].(status := Expired) else rows[i])
  }

  /** The cooldown still to wait, if the challenge was sent too recently. */
  function Remaining(row: Challenge, now: int, cooldown: int): int {
    if row.expiresAt >= now && row.lastSent.SentAt? && now - row.lastSent.time < cooldown
    then cooldown - (now - row.lastSent.time) else 0
  }

  /** max(1, int(seconds)) for a positive number of seconds. */
  function WholeSeconds(remaining: int): int {
    if remaining / SECOND < 1 then 1 else remaining / SECOND
  }

  function NewChallenge(phone: nat, codeHash: nat, now: int): Challenge {
    Challenge(phone, codeHash, now, now + LIFETIME, 0, Pending, SentAt(now))
  }

  function AfterRequest(rows: seq<Challenge>, phone: nat, codeHash: nat, now: int, cooldown: int): (seq<Challenge>, Response) {
    if phone == BLANK then (rows, BadRequest)
    else
      var latest := LatestPending(rows, phone);
      if latest.Some? && Remaining(rows[latest.index], now, cooldown) > 0 then
        (rows, TooSoon(WholeSeconds(Remaining(rows[latest.index], now, cooldown))))
      else
        (ExpirePending(rows, phone) + [NewChallenge(phone, codeHash, now)], Sent(|rows|))
  }

  function AfterVerify(rows: seq<Challenge>, phone: nat, codeHash: nat, driverExists: bool, now: int): (seq<Challenge>, Response) {
    if phone == BLANK || codeHash == BLANK then (rows, BadRequest)
    else
      match LatestPending(rows, phone)
      case None => (rows, NotFound)
      case Some(k) =>
        if rows[k].expiresAt < now then (SetStatus(rows, k, Expired), HasExpired(k))
        else if rows[k].attempts >= MAX_ATTEMPTS then (SetStatus(rows, k, Locked), IsLocked(k))
        else
          var counted := rows[k := rows[k].(attempts := rows[k].attempts + 1)];
          if codeHash != rows[k].codeHash then
            (if counted[k].attempts >= MAX_ATTEMPTS then SetStatus(counted, k, Locked) else counted, Wrong(k))
          else
            (SetStatus(counted, k, Verified), if driverExists then LoggedIn(k) else NoDriver(k))
  }

  function Apply(rows: seq<Challenge>, step: Step, cooldown: int): (seq<Challenge>, Response) {
    match step
    case Request(phone, codeHash, now) => AfterRequest(rows, phone, codeHash, now, cooldown)
    case Verify(phone, codeHash, driverExists, now) => AfterVerify(rows, phone, codeHash, driverExists, now)
  }

  class OtpDesk {
    var rows: seq<Challenge>

    constructor ()
      ensures rows == []
    {
      rows := [];
    }

    /** The loop that retires whatever is still pending for the phone. */
    method RetirePending(phone: nat)
      modifies this
      ensures rows == ExpirePending(old(rows), phone)
    {
      for i := 0 to |rows|
        invariant |rows| == |old(rows)|
        invariant rows[..i] == ExpirePending(old(rows), phone)[..i] && rows[i..] == old(rows)[i..]
      {
        if rows[i].phone == phone && rows[i].status == Pending {
          rows := SetStatus(rows, i, Expired);
        }
      }
    }

    method RequestDriverOtp(phone: nat, codeHash: nat, now: int, cooldown: int) returns (response: Response)
      modifies this
      ensures (rows, response) == AfterRequest(old(rows), phone, codeHash, now, cooldown)
    {
      if phone == BLANK {
        return BadRequest;
      }
      var latest := LatestPending(rows, phone);
      if latest.Some? {
        var row := rows[latest.index];
        if row.expiresAt < now {
          rows := SetStatus(rows, latest.index, Expired);
        } else if row.lastSent.SentAt? {
          var elapsed := now - row.lastSent.time;
          if elapsed < cooldown {
            return TooSoon(WholeSeconds(cooldown - elapsed));
          }
        }
      }
      assert ExpirePending(rows, phone) == ExpirePending(old(rows), phone);
      RetirePending(phone);
      response := Sent(|rows|);
      rows := rows + [NewChallenge(phone, codeHash, now)];
    }

    method VerifyDriverOtp(phone: nat, codeHash: nat, driverExists: bool, now: int) returns (response: Response)
      modifies this
      ensures (rows, response) == AfterVerify(old(rows), phone, codeHash, driverExists, now)
    {
      if phone == BLANK || codeHash == BLANK {
        return BadRequest;
      }
      var found := LatestPending(rows, phone);
      if found.None? {
        return NotFound;
      }
      var k := found.index;
      if rows[k].expiresAt < now {
        rows := SetStatus(rows, k, Expired);
        return HasExpired(k);
      }
      if rows[k].attempts >= MAX_ATTEMPTS {
        rows := SetStatus(rows, k, Locked);
        return IsLocked(k);
      }
      rows := rows[k := rows[k].(attempts := rows[k].attempts + 1)];
      if codeHash != rows[k].codeHash {
        if rows[k].attempts >= MAX_ATTEMPTS {
          rows := SetStatus(rows, k, Locked);
        }
        return Wrong(k);
      }
      rows := SetStatus(rows, k, Verified);
      response := if driverExists then LoggedIn(k) else NoDriver(k);
    }
  }

  // ---------------------------------------------------------------------------
  // The run invariant
  // ---------------------------------------------------------------------------

  /** What holds of one row at time `now`. */
  ghost predicate RowOk(row: Challenge, now: int, cooldown: int) {
    && row.issued <= now && row.expiresAt == row.issued + LIFETIME && row.lastSent == SentAt(row.issued)
    && row.attempts <= MAX_ATTEMPTS
    && (row.status == Pending ==> row.attempts < MAX_ATTEMPTS)
    && (row.status == Locked ==> row.attempts == MAX_ATTEMPTS)
    && (row.status == Verified ==> row.attempts >= 1)
    && (row.status == Expired ==> now >= row.issued + cooldown)
  }

  /** What an earlier challenge of the same phone looks like once a later one was issued. */
  ghost predicate PairOk(earlier: Challenge, later: Challenge, cooldown: int) {
    && earlier.status != Pending
    && (later.issued - earlier.issued < cooldown ==> earlier.status == Verified || earlier.status == Locked)
  }

  ghost predicate Good(rows: seq<Challenge>, now: int, cooldown: int) {
    && (forall i | 0 <= i < |rows| :: RowOk(rows[i], now, cooldown))
    && (forall i, j | 0 <= i < j < |rows| && rows[i].phone == rows[j].phone :: PairOk(rows[i], rows[j], cooldown))
  }

  /** Replacing the pending row of a phone by a settled or still pending version of itself. */
  lemma UpdateKeepsGood(rows: seq<Challenge>, k: nat, row: Challenge, now: int, cooldown: int)
    requires Good(rows, now, cooldown) && k < |rows| && rows[k].status == Pending
    requires row.phone == rows[k].phone && row.issued == rows[k].issued && RowOk(row, now, cooldown)
    ensures Good(rows[k := row], now, cooldown)
  {
    var rows' := rows[k := row];
    forall i, j | 0 <= i < j < |rows'| && rows'[i].phone == rows'[j].phone ensures PairOk(rows'[i], rows'[j], cooldown) {
      assert PairOk(rows[i], rows[j], cooldown);
    }
  }

  lemma TimePasses(rows: seq<Challenge>, last: int, now: int, cooldown: int)
    requires Good(rows, last, cooldown) && last <= now
    ensures Good(rows, now, cooldown)
  {
    forall i | 0 <= i < |rows| ensures RowOk(rows[i], now, cooldown) {
      assert RowOk(rows[i], last, cooldown);
    }
  }

  lemma VerifyKeepsGood(rows: seq<Challenge>, phone: nat, codeHash: nat, driverExists: bool, now: int, cooldown: int)
    requires Good(rows, now, cooldown) && cooldown <= LIFETIME
    ensures Good(AfterVerify(rows, phone, codeHash, driverExists, now).0, now, cooldown)
  {
    var rows' := AfterVerify(rows, phone, codeHash, driverExists, now).0;
    var found := LatestPending(rows, phone);
    if phone != BLANK && codeHash != BLANK && found.Some? {
      var k := found.index;
      assert RowOk(rows[k], now, cooldown);
      assert rows' == rows[k := rows'[k]];
      UpdateKeepsGood(rows, k, rows'[k], now, cooldown);
    }
  }

  lemma RequestKeepsGood(rows: seq<Challenge>, phone: nat, codeHash: nat, now: int, cooldown: int)
    requires Good(rows, now, cooldown) && cooldown <= LIFETIME
    ensures Good(AfterRequest(rows, phone, codeHash, now, cooldown).0, now, cooldown)
  {
    var (rows', response) := AfterRequest(rows, phone, codeHash, now, cooldown);
    if response.Sent? {
      var retired := ExpirePending(rows, phone);
      var latest := LatestPending(rows, phone);
      forall i | 0 <= i < |rows| && rows[i].phone == phone && rows[i].status == Pending
        ensures now >= rows[i].issued + cooldown
      {
        OnlyOnePending(rows, i, now, cooldown);
        assert latest == Some(i) && RowOk(rows[i], now, cooldown);
      }
      forall i | 0 <= i < |rows| ensures RowOk(retired[i], now, cooldown) {
        assert RowOk(rows[i], now, cooldown);
      }
      forall i, j | 0 <= i < j < |rows'| && rows'[i].phone == rows'[j].phone ensures PairOk(rows'[i], rows'[j], cooldown) {
        assert RowOk(rows[i], now, cooldown);
        if j < |rows| {
          assert PairOk(rows[i], rows[j], cooldown);
        }
      }
    }
  }

  lemma OnlyOnePending(rows: seq<Challenge>, i: nat, now: int, cooldown: int)
    requires Good(rows, now, cooldown) && i < |rows| && rows[i].status == Pending
    ensures LatestPending(rows, rows[i].phone) == Some(i)
  {
    assert forall j | i < j < |rows| && rows[j].phone == rows[i].phone :: PairOk(rows[i], rows[j], cooldown);
    assert forall j | 0 <= j < i && rows[j].phone == rows[i].phone :: PairOk(rows[j], rows[i], cooldown);
  }

  lemma StepKeepsGood(rows: seq<Challenge>, step: Step, last: int, cooldown: int)
    requires Good(rows, last, cooldown) && last <= step.now && cooldown <= LIFETIME
    ensures Good(Apply(rows, step, cooldown).0, step.now, cooldown)
  {
    TimePasses(rows, last, step.now, cooldown);
    match step
    case Request(phone, codeHash, now) => RequestKeepsGood(rows, phone, codeHash, now, cooldown);
    case Verify(phone, codeHash, driverExists, now) => VerifyKeepsGood(rows, phone, codeHash, driverExists, now, cooldown);
  }

  // ---------------------------------------------------------------------------
  // Runs
  // ---------------------------------------------------------------------------

  function Run(rows: seq<Challenge>, steps: seq<Step>, cooldown: int): seq<Challenge>
    decreases |steps|
  {
    if steps == [] then rows else Run(Apply(rows, steps[0], cooldown).0, steps[1..], cooldown)
  }

  function Responses(rows: seq<Challenge>, steps: seq<Step>, cooldown: int): seq<Response>
    decreases |steps|
  {
    if steps == [] then []
    else
      var (rows', response) := Apply(rows, steps[0], cooldown);
      [response] + Responses(rows', steps[1..], cooldown)
  }

  /** The steps happen on one clock, from `last` on. */
  predicate Clocked(steps: seq<Step>, last: int)
    decreases |steps|
  {
    steps == [] || (last <= steps[0].now && Clocked(steps[1..], steps[0].now))
  }

  function EndTime(steps: seq<Step>, last: int): int {
    if steps == [] then last else steps[|steps| - 1].now
  }

  lemma {:induction false} RunKeepsGood(rows: seq<Challenge>, steps: seq<Step>, last: int, cooldown: int)
    requires Good(rows, last, cooldown) && Clocked(steps, last) && cooldown <= LIFETIME
    ensures Good(Run(rows, steps, cooldown), EndTime(steps, last), cooldown)
    decreases |steps|
  {
    if steps != [] {
      StepKeepsGood(rows, steps[0], last, cooldown);
      RunKeepsGood(Apply(rows, steps[0], cooldown).0, steps[1..], steps[0].now, cooldown);
    }
  }

  /** Over every run: a phone's earlier challenges are settled, so at most its last one is pending, with
      fewer than five attempts; and two challenges issued less than the
      cooldown apart were separated by a verification or a lock-out of the first. */
  lemma AtMostOnePending(steps: seq<Step>, start: int, cooldown: int, i: nat, j: nat)
    requires Clocked(steps, start) && cooldown <= LIFETIME
    requires i < j < |Run([], steps, cooldown)|
    requires Run([], steps, cooldown)[i].phone == Run([], steps, cooldown)[j].phone
    ensures var rows := Run([], steps, cooldown);
      && rows[i].status != Pending
      && (rows[j].status == Pending ==> rows[j].attempts < MAX_ATTEMPTS)
      && (rows[j].issued - rows[i].issued < cooldown ==> rows[i].status == Verified || rows[i].status == Locked)
  {
    RunKeepsGood([], steps, start, cooldown);
    var rows := Run([], steps, cooldown);
    assert PairOk(rows[i], rows[j], cooldown) && RowOk(rows[j], EndTime(steps, start), cooldown);
  }

  /** Over every run, any pending challenge has fewer than five attempts. */
  lemma PendingHasAttemptsLeft(steps: seq<Step>, start: int, cooldown: int, i: nat)
    requires Clocked(steps, start) && cooldown <= LIFETIME
    requires i < |Run([], steps, cooldown)| && Run([], steps, cooldown)[i].status == Pending
    ensures Run([], steps, cooldown)[i].attempts < MAX_ATTEMPTS
  {
    RunKeepsGood([], steps, start, cooldown);
    assert RowOk(Run([], steps, cooldown)[i], EndTime(steps, start), cooldown);
  }

  /** The lock-out branch in front of the comparison is never taken. */
  lemma PreCheckNeverLocks(steps: seq<Step>, start: int, cooldown: int, phone: nat, codeHash: nat, driverExists: bool, now: int)
    requires Clocked(steps, start) && cooldown <= LIFETIME
    ensures !AfterVerify(Run([], steps, cooldown), phone, codeHash, driverExists, now).1.IsLocked?
  {
    RunKeepsGood([], steps, start, cooldown);
    var rows := Run([], steps, cooldown);
    var found := LatestPending(rows, phone);
    if found.Some? {
      assert RowOk(rows[found.index], EndTime(steps, start), cooldown);
    }
  }

  /** A settled challenge never changes again, whatever happens. */
  lemma SettledStays(rows: seq<Challenge>, step: Step, cooldown: int, k: nat)
    requires k < |rows| && rows[k].status != Pending
    ensures k < |Apply(rows, step, cooldown).0| && Apply(rows, step, cooldown).0[k] == rows[k]
  {}

  lemma {:induction false} SettledForever(rows: seq<Challenge>, steps: seq<Step>, cooldown: int, k: nat)
    requires k < |rows| && rows[k].status != Pending
    ensures k < |Run(rows, steps, cooldown)| && Run(rows, steps, cooldown)[k] == rows[k]
    decreases |steps|
  {
    if steps != [] {
      SettledStays(rows, steps[0], cooldown, k);
      SettledForever(Apply(rows, steps[0], cooldown).0, steps[1..], cooldown, k);
    }
  }

  // ---------------------------------------------------------------------------
  // Comparisons
  // ---------------------------------------------------------------------------

  /** The response of a verification that compared the code of challenge k. */
  predicate Compares(response: Response, k: nat) {
    response == Wrong(k) || Accepts(response, k)
  }

  predicate Accepts(response: Response, k: nat) {
    response == LoggedIn(k) || response == NoDriver(k)
  }

  function Comparisons(responses: seq<Response>, k: nat): nat {
    if responses == [] then 0 else Comparisons(responses[1..], k) + if Compares(responses[0], k) then 1 else 0
  }

  function Acceptances(responses: seq<Response>, k: nat): nat {
    if responses == [] then 0 else Acceptances(responses[1..], k) + if Accepts(responses[0], k) then 1 else 0
  }

  function AttemptsAt(rows: seq<Challenge>, k: nat): nat {
    if k < |rows| then rows[k].attempts else 0
  }

  function VerifiedAt(rows: seq<Challenge>, k: nat): nat {
    if k < |rows| && rows[k].status == Verified then 1 else 0
  }

  /** One step counts exactly the comparison it makes, and verifies exactly what it accepts. */
  lemma StepCounts(rows: seq<Challenge>, step: Step, cooldown: int, k: nat)
    ensures var (rows', response) := Apply(rows, step, cooldown);
      && AttemptsAt(rows', k) == AttemptsAt(rows, k) + (if Compares(response, k) then 1 else 0)
      && VerifiedAt(rows', k) == VerifiedAt(rows, k) + (if Accepts(response, k) then 1 else 0)
  {}

  lemma {:induction false} RunCounts(rows: seq<Challenge>, steps: seq<Step>, cooldown: int, k: nat)
    ensures AttemptsAt(Run(rows, steps, cooldown), k)
         == AttemptsAt(rows, k) + Comparisons(Responses(rows, steps, cooldown), k)
    ensures VerifiedAt(Run(rows, steps, cooldown), k)
         == VerifiedAt(rows, k) + Acceptances(Responses(rows, steps, cooldown), k)
    decreases |steps|
  {
    if steps != [] {
      StepCounts(rows, steps[0], cooldown, k);
      var (rows', response) := Apply(rows, steps[0], cooldown);
      RunCounts(rows', steps[1..], cooldown, k);
      assert ([response] + Responses(rows', steps[1..], cooldown))[1..] == Responses(rows', steps[1..], cooldown);
    }
  }

  /** Over every run, each challenge is compared at most five times and accepted at most once, and
      it is verified exactly when it was accepted. */
  lemma AtMostFiveComparisons(steps: seq<Step>, start: int, cooldown: int, k: nat)
    requires Clocked(steps, start) && cooldown <= LIFETIME
    ensures var responses := Responses([], steps, cooldown);
      && Comparisons(responses, k) <= MAX_ATTEMPTS
      && Acceptances(responses, k) == VerifiedAt(Run([], steps, cooldown), k) <= 1
  {
    RunCounts([], steps, cooldown, k);
    RunKeepsGood([], steps, start, cooldown);
    var rows := Run([], steps, cooldown);
    if k < |rows| {
      assert RowOk(rows[k], EndTime(steps, start), cooldown);
    }
  }

  // ---------------------------------------------------------------------------
  // The resend hint
  // ---------------------------------------------------------------------------

  /** The resend hint is the remaining time rounded down: a caller who waits exactly that long is
      refused again unless the remaining time was a whole number of seconds or less than one. */
  lemma ResendHintExactly(rows: seq<Challenge>, phone: nat, codeHash: nat, codeHash': nat, now: int, cooldown: int)
    requires AfterRequest(rows, phone, codeHash, now, cooldown).1.TooSoon?
    requires Good(rows, now, cooldown) && cooldown <= LIFETIME
    ensures var hint := AfterRequest(rows, phone, codeHash, now, cooldown).1.retryAfter;
      var remaining := Remaining(rows[LatestPending(rows, phone).index], now, cooldown);
      AfterRequest(rows, phone, codeHash', now + hint * SECOND, cooldown).1.Sent?
      <==> remaining % SECOND == 0 || remaining < SECOND
  {
    assert RowOk(rows[LatestPending(rows, phone).index], now, cooldown);
  }

  /** A hint that does not suffice: half a second after a challenge the caller is told to wait 59 of
      the remaining 59.5 seconds, and is refused again when it has waited exactly that long. */
  lemma ResendHintTooShort()
    ensures var rows := Run([], [Request(1, 1, 0)], 60 * SECOND);
      && AfterRequest(rows, 1, 1, 500_000, 60 * SECOND).1 == TooSoon(59)
      && AfterRequest(rows, 1, 1, 500_000 + 59 * SECOND, 60 * SECOND).1 == TooSoon(1)
  {
    var rows := Run([], [Request(1, 1, 0)], 60 * SECOND);
    assert [Request(1, 1, 0)][1..] == [] && ExpirePending([], 1) == [];
    assert rows == [NewChallenge(1, 1, 0)];
    assert LatestPending(rows, 1) == Some(0);
  }
}
