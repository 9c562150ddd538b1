/** The sliding-window OTP rate limiter: the Redis script of backend/app/api/routes_driver_auth.py. */
module RateLimiter {

  /** The id `now_ms .. '-' .. seq`, which is determined by its two numbers. */
  datatype Member = Member(nowMs: int, seqNo: nat)

  datatype Entry = Entry(score: int, member: Member)

  /** The sorted set `key` and the counter `key:seq` with their expiry times in milliseconds.
      An empty set and a zero counter stand for absent keys. */
  datatype Keys = Keys(zset: seq<Entry>, zsetExpiry: int, counter: nat, counterExpiry: int)

  datatype Reply = Admitted | Denied(retryAfter: int)

  const NO_KEYS := Keys([], 0, 0, 0)

  // ---------------------------------------------------------------------------
  // Redis commands
  // ---------------------------------------------------------------------------

  /** ZREMRANGEBYSCORE key 0 bound */
  function Prune(zset: seq<Entry>, bound: int): seq<Entry> {
    if zset == [] then []
    else (if 0 <= zset[0].score <= bound then [] else [zset[0]]) + Prune(zset[1..], bound)
  }

  function Without(zset: seq<Entry>, member: Member): seq<Entry> {
    if zset == [] then []
    else (if zset[0].member == member then [] else [zset[0]]) + Without(zset[1..], member)
  }

  function InsertByScore(zset: seq<Entry>, e: Entry): seq<Entry> {
    if zset == [] || e.score < zset[0].score then [e] + zset else [zset[0]] + InsertByScore(zset[1..], e)
  }

  /** ZADD: an existing member is moved to its new score, a new one is inserted. */
  function ZAdd(zset: seq<Entry>, e: Entry): seq<Entry> {
    InsertByScore(Without(zset, e.member), e)
  }

  /** Keys whose time to live has run out are gone before the script looks at them. */
  function DropExpired(k: Keys, nowMs: int): Keys {
    k.(zset := if nowMs > k.zsetExpiry then [] else k.zset,
       counter := if nowMs > k.counterExpiry then 0 else k.counter)
  }

  /** math.ceil(ms / 1000) */
  function CeilSeconds(ms: int): int {
    (ms + 999) / 1000
  }

  // ---------------------------------------------------------------------------
  // The script
  // ---------------------------------------------------------------------------

  function RetryAfter(zset: seq<Entry>, nowMs: int, windowMs: int): int {
    if zset == [] then 1
    else
      var seconds := CeilSeconds(zset[0].score + windowMs - nowMs);
      if seconds < 1 then 1 else seconds
  }

  function Script(k: Keys, nowMs: int, windowMs: int, maxCalls: int): (Keys, Reply) {
    var alive := DropExpired(k, nowMs);
    var zset := Prune(alive.zset, nowMs - windowMs);
    if |zset| >= maxCalls then
      (alive.(zset := zset), Denied(RetryAfter(zset, nowMs, windowMs)))
    else
      var seqNo := alive.counter + 1;
      var expiry := nowMs + 1000 * CeilSeconds(windowMs);
      (Keys(ZAdd(zset, Entry(nowMs, Member(nowMs, seqNo))), expiry, seqNo, expiry), Admitted)
  }

  /** One bucket's keys in Redis, mutated by every evaluation of the script. */
  class Bucket {
    var zset: seq<Entry>
    var zsetExpiry: int
    var counter: nat
    var counterExpiry: int

    constructor ()
      ensures View() == NO_KEYS
    {
      zset, zsetExpiry, counter, counterExpiry := [], 0, 0, 0;
    }

    function View(): Keys
      reads this
    {
      Keys(zset, zsetExpiry, counter, counterExpiry)
    }

    method EvalScript(nowMs: int, windowMs: int, maxCalls: int) returns (reply: Reply)
      modifies this
      ensures (View(), reply) == Script(old(View()), nowMs, windowMs, maxCalls)
    {
      hide Prune, ZAdd, CeilSeconds;
      if nowMs > zsetExpiry {
        zset := [];
      }
      if nowMs > counterExpiry {
        counter := 0;
      }
      zset := Prune(zset, nowMs - windowMs);
      var current := |zset|;
      if current >= maxCalls {
        var retryAfter := 1;
        if zset != [] {
          retryAfter := CeilSeconds(zset[0].score + windowMs - nowMs);
          if retryAfter < 1 {
            retryAfter := 1;
          }
        }
        return Denied(retryAfter);
      }
      counter := counter + 1;
      zset := ZAdd(zset, Entry(nowMs, Member(nowMs, counter)));
      zsetExpiry := nowMs + 1000 * CeilSeconds(windowMs);
      counterExpiry := zsetExpiry;
      reply := Admitted;
    }
  }

  // ---------------------------------------------------------------------------
  // The ideal limiter: the whole admission log, counted in (now - window, now]
  // ---------------------------------------------------------------------------

  /** How many entries of the log lie in (lo, hi]. */
  function CountIn(log: seq<int>, lo: int, hi: int): nat {
    if log == [] then 0
    else CountIn(log[..|log| - 1], lo, hi) + if lo < log[|log| - 1] <= hi then 1 else 0
  }

  predicate IdealAdmits(log: seq<int>, nowMs: int, windowMs: int, maxCalls: int) {
    CountIn(log, nowMs - windowMs, nowMs) < maxCalls
  }

  function IdealStep(log: seq<int>, nowMs: int, windowMs: int, maxCalls: int): seq<int> {
    if IdealAdmits(log, nowMs, windowMs, maxCalls) then log + [nowMs] else log
  }

  function Decisions(k: Keys, calls: seq<int>, windowMs: int, maxCalls: int): seq<bool>
    decreases |calls|
  {
    if calls == [] then []
    else
      var (k', reply) := Script(k, calls[0], windowMs, maxCalls);
      [reply.Admitted?] + Decisions(k', calls[1..], windowMs, maxCalls)
  }

  function IdealDecisions(log: seq<int>, calls: seq<int>, windowMs: int, maxCalls: int): seq<bool>
    decreases |calls|
  {
    if calls == [] then []
    else
      [IdealAdmits(log, calls[0], windowMs, maxCalls)]
      + IdealDecisions(IdealStep(log, calls[0], windowMs, maxCalls), calls[1..], windowMs, maxCalls)
  }

  /** The times of the calls the script admitted. */
  function AdmittedTimes(k: Keys, calls: seq<int>, windowMs: int, maxCalls: int): seq<int>
    decreases |calls|
  {
    if calls == [] then []
    else
      var (k', reply) := Script(k, calls[0], windowMs, maxCalls);
      (if reply.Admitted? then [calls[0]] else []) + AdmittedTimes(k', calls[1..], windowMs, maxCalls)
  }

  predicate Nondecreasing(s: seq<int>) {
    forall i, j | 0 <= i < j < |s| :: s[i] <= s[j]
  }

  /** A call sequence on one clock that starts no earlier than `from`. */
  predicate Clocked(calls: seq<int>, from: int) {
    Nondecreasing(calls) && forall i | 0 <= i < |calls| :: from <= calls[i]
  }

  // ---------------------------------------------------------------------------
  // The abstraction: the log is a stale part followed by what the set still holds
  // ---------------------------------------------------------------------------

  function Scores(zset: seq<Entry>): seq<int> {
    seq(|zset|, i requires 0 <= i < |zset| => zset[i].score)
  }

  ghost predicate AllAtMost(s: seq<int>, bound: int) {
    forall i | 0 <= i < |s| :: s[i] <= bound
  }

  ghost predicate AllWithin(s: seq<int>, lo: int, hi: int) {
    forall i | 0 <= i < |s| :: lo < s[i] <= hi
  }

  /** Sequence numbers grow along the set, so no id is used twice while it lives. */
  ghost predicate DistinctIds(zset: seq<Entry>, counter: nat) {
    && (forall i, j | 0 <= i < j < |zset| :: zset[i].member.seqNo < zset[j].member.seqNo)
    && (forall i | 0 <= i < |zset| :: zset[i].member.seqNo <= counter)
  }

  ghost predicate GoodSet(k: Keys, now: int, windowMs: int) {
    && Nondecreasing(Scores(k.zset))
    && AllWithin(Scores(k.zset), -1, now)
    && AllAtMost(Scores(k.zset), k.zsetExpiry - windowMs)
    && k.zsetExpiry == k.counterExpiry
    && DistinctIds(k.zset, k.counter)
  }

  ghost predicate Tracks(k: Keys, stale: seq<int>, now: int, windowMs: int) {
    GoodSet(k, now, windowMs) && AllAtMost(stale, now - windowMs)
  }

  function Log(stale: seq<int>, k: Keys): seq<int> {
    stale + Scores(k.zset)
  }

  lemma {:induction false} PruneNothing(zset: seq<Entry>, bound: int)
    requires forall i | 0 <= i < |zset| :: zset[i].score > bound
    ensures Prune(zset, bound) == zset
  {
    if zset != [] {
      PruneNothing(zset[1..], bound);
      assert zset == [zset[0]] + zset[1..];
    }
  }

  ghost predicate ByScore(zset: seq<Entry>) {
    && (forall i | 0 <= i < |zset| :: 0 <= zset[i].score)
    && (forall i | 0 < i < |zset| :: zset[0].score <= zset[i].score)
    && (zset != [] ==> ByScore(zset[1..]))
  }

  /** The first n entries are the stale ones. */
  ghost predicate StaleFront(zset: seq<Entry>, n: nat, bound: int) {
    && n <= |zset|
    && (forall i | 0 <= i < n :: zset[i].score <= bound)
    && (forall i | n <= i < |zset| :: zset[i].score > bound)
  }

  lemma StaleFrontNext(zset: seq<Entry>, m: nat, bound: int)
    requires zset != [] && zset[0].score <= bound && StaleFront(zset[1..], m, bound)
    ensures StaleFront(zset, m + 1, bound) && zset[1..][m..] == zset[m + 1..]
  {
    assert forall i | 1 <= i < |zset| :: zset[i] == zset[1..][i - 1];
  }

  lemma {:induction false} PruneIsSuffix(zset: seq<Entry>, bound: int) returns (n: nat)
    requires ByScore(zset)
    ensures StaleFront(zset, n, bound) && Prune(zset, bound) == zset[n..]
    decreases |zset|
  {
    if zset == [] || zset[0].score > bound {
      n := 0;
      PruneNothing(zset, bound);
      assert zset[0..] == zset;
    } else {
      var m := PruneIsSuffix(zset[1..], bound);
      n := m + 1;
      StaleFrontNext(zset, m, bound);
      assert [] + zset[n..] == zset[n..];
    }
  }

  lemma {:induction false} OrderedByScore(zset: seq<Entry>, now: int)
    requires Nondecreasing(Scores(zset)) && AllWithin(Scores(zset), -1, now)
    ensures ByScore(zset)
    decreases |zset|
  {
    var scores := Scores(zset);
    assert forall i | 0 <= i < |zset| :: zset[i].score == scores[i];
    if zset != [] {
      assert Scores(zset[1..]) == scores[1..];
      SuffixOrdered(scores, 1, now);
      OrderedByScore(zset[1..], now);
    }
  }

  lemma {:induction false} CountAppend(a: seq<int>, b: seq<int>, lo: int, hi: int)
    ensures CountIn(a + b, lo, hi) == CountIn(a, lo, hi) + CountIn(b, lo, hi)
    decreases |b|
  {
    if b == [] {
      assert a + b == a;
    } else {
      assert (a + b)[..|a + b| - 1] == a + b[..|b| - 1];
      CountAppend(a, b[..|b| - 1], lo, hi);
    }
  }

  lemma {:induction false} CountOutside(s: seq<int>, lo: int, hi: int)
    requires AllAtMost(s, lo)
    ensures CountIn(s, lo, hi) == 0
  {
    if s != [] {
      CountOutside(s[..|s| - 1], lo, hi);
    }
  }

  lemma {:induction false} CountInside(s: seq<int>, lo: int, hi: int)
    requires AllWithin(s, lo, hi)
    ensures CountIn(s, lo, hi) == |s|
  {
    if s != [] {
      CountInside(s[..|s| - 1], lo, hi);
    }
  }

  lemma {:induction false} WithoutFresh(zset: seq<Entry>, member: Member)
    requires forall i | 0 <= i < |zset| :: zset[i].member != member
    ensures Without(zset, member) == zset
  {
    if zset != [] {
      WithoutFresh(zset[1..], member);
      assert zset == [zset[0]] + zset[1..];
    }
  }

  lemma {:induction false} InsertLast(zset: seq<Entry>, e: Entry)
    requires forall i | 0 <= i < |zset| :: zset[i].score <= e.score
    ensures InsertByScore(zset, e) == zset + [e]
  {
    if zset != [] {
      InsertLast(zset[1..], e);
      assert zset == [zset[0]] + zset[1..];
    }
  }

  function Pruned(k: Keys, now: int, windowMs: int): Keys {
    var alive := DropExpired(k, now);
    alive.(zset := Prune(alive.zset, now - windowMs))
  }

  lemma DropExpiredTracks(k: Keys, stale: seq<int>, last: int, now: int, windowMs: int) returns (stale': seq<int>)
    requires Tracks(k, stale, last, windowMs) && last <= now
    ensures Tracks(DropExpired(k, now), stale', now, windowMs)
    ensures Log(stale', DropExpired(k, now)) == Log(stale, k)
  {
    if now > k.zsetExpiry {
      stale' := Log(stale, k);
      assert stale' + Scores([]) == stale';
    } else {
      stale' := stale;
    }
  }

  lemma PruneTracks(k: Keys, stale: seq<int>, now: int, windowMs: int) returns (stale': seq<int>)
    requires Tracks(k, stale, now, windowMs)
    ensures var k' := k.(zset := Prune(k.zset, now - windowMs));
      Tracks(k', stale', now, windowMs) && Log(stale', k') == Log(stale, k)
      && AllWithin(Scores(k'.zset), now - windowMs, now)
  {
    var scores := Scores(k.zset);
    OrderedByScore(k.zset, now);
    var n := PruneIsSuffix(k.zset, now - windowMs);
    stale' := stale + scores[..n];
    SuffixGood(k, n, now, windowMs);
    StaleScores(k.zset, n, now - windowMs, now);
    assert scores[..n] + scores[n..] == scores;
    Assoc(stale, scores[..n], scores[n..]);
  }

  lemma StaleScores(zset: seq<Entry>, n: nat, bound: int, now: int)
    requires StaleFront(zset, n, bound) && AllWithin(Scores(zset), -1, now)
    ensures AllAtMost(Scores(zset)[..n], bound) && AllWithin(Scores(zset)[n..], bound, now)
  {
    assert forall i | 0 <= i < |zset| :: zset[i].score == Scores(zset)[i];
  }

  lemma SuffixGood(k: Keys, n: nat, now: int, windowMs: int)
    requires n <= |k.zset| && GoodSet(k, now, windowMs)
    ensures Scores(k.zset[n..]) == Scores(k.zset)[n..]
    ensures GoodSet(k.(zset := k.zset[n..]), now, windowMs)
  {
    var scores := Scores(k.zset);
    assert Scores(k.zset[n..]) == scores[n..];
    SuffixOrdered(scores, n, now);
    assert AllAtMost(scores[n..], k.zsetExpiry - windowMs);
    assert DistinctIds(k.zset[n..], k.counter);
  }

  lemma SuffixOrdered(s: seq<int>, n: nat, now: int)
    requires n <= |s| && Nondecreasing(s) && AllWithin(s, -1, now)
    ensures Nondecreasing(s[n..]) && AllWithin(s[n..], -1, now)
  {
    assert forall i | 0 <= i < |s[n..]| :: s[n..][i] == s[n + i];
  }

  /** Expiry and pruning keep the log and leave the set with exactly the entries of the current window. */
  lemma PrunedTracks(k: Keys, stale: seq<int>, last: int, now: int, windowMs: int) returns (stale': seq<int>)
    requires Tracks(k, stale, last, windowMs) && last <= now
    ensures var k' := Pruned(k, now, windowMs);
      && Tracks(k', stale', now, windowMs)
      && Log(stale', k') == Log(stale, k)
      && AllWithin(Scores(k'.zset), now - windowMs, now)
      && |k'.zset| == CountIn(Log(stale, k), now - windowMs, now)
  {
    stale' := DropExpiredTracks(k, stale, last, now, windowMs);
    stale' := PruneTracks(DropExpired(k, now), stale', now, windowMs);
    var scores := Scores(Pruned(k, now, windowMs).zset);
    assert Log(stale, k) == stale' + scores;
    CountAppend(stale', scores, now - windowMs, now);
    CountOutside(stale', now - windowMs, now);
    CountInside(scores, now - windowMs, now);
  }

  function Added(k: Keys, now: int, windowMs: int): Keys {
    var seqNo, expiry := k.counter + 1, now + 1000 * CeilSeconds(windowMs);
    Keys(ZAdd(k.zset, Entry(now, Member(now, seqNo))), expiry, seqNo, expiry)
  }

  /** ZADD never meets a live member of the same id, and appends. */
  lemma AddAppends(k: Keys, now: int, windowMs: int)
    requires GoodSet(k, now, windowMs)
    ensures var e := Entry(now, Member(now, k.counter + 1));
      && (forall i | 0 <= i < |k.zset| :: k.zset[i].member != e.member)
      && ZAdd(k.zset, e) == k.zset + [e]
  {
    var e := Entry(now, Member(now, k.counter + 1));
    assert forall i | 0 <= i < |k.zset| :: k.zset[i].score == Scores(k.zset)[i];
    WithoutFresh(k.zset, e.member);
    InsertLast(k.zset, e);
  }

  lemma AddTracks(k: Keys, stale: seq<int>, now: int, windowMs: int)
    requires Tracks(k, stale, now, windowMs) && 0 <= now
    ensures Tracks(Added(k, now, windowMs), stale, now, windowMs)
    ensures Log(stale, Added(k, now, windowMs)) == Log(stale, k) + [now]
  {
    AddAppends(k, now, windowMs);
    var zset' := k.zset + [Entry(now, Member(now, k.counter + 1))];
    assert Scores(zset') == Scores(k.zset) + [now];
    assert stale + (Scores(k.zset) + [now]) == Log(stale, k) + [now];
  }

  lemma ScriptOnPruned(k: Keys, now: int, windowMs: int, maxCalls: int)
    ensures var k1 := Pruned(k, now, windowMs);
      Script(k, now, windowMs, maxCalls)
      == if |k1.zset| >= maxCalls then (k1, Denied(RetryAfter(k1.zset, now, windowMs)))
         else (Added(k1, now, windowMs), Admitted)
  {}

  /** One call: same decision as the ideal limiter, and the abstraction is kept. */
  lemma StepRefines(k: Keys, stale: seq<int>, last: int, now: int, windowMs: int, maxCalls: int) returns (stale': seq<int>)
    requires Tracks(k, stale, last, windowMs) && last <= now && 0 <= now
    ensures var (k', reply) := Script(k, now, windowMs, maxCalls);
      && (reply.Admitted? <==> IdealAdmits(Log(stale, k), now, windowMs, maxCalls))
      && Tracks(k', stale', now, windowMs)
      && Log(stale', k') == IdealStep(Log(stale, k), now, windowMs, maxCalls)
  {
    stale' := PrunedTracks(k, stale, last, now, windowMs);
    var k1 := Pruned(k, now, windowMs);
    ScriptOnPruned(k, now, windowMs, maxCalls);
    if |k1.zset| < maxCalls {
      AddTracks(k1, stale', now, windowMs);
    }
  }

  lemma {:induction false} RunRefines(k: Keys, stale: seq<int>, last: int, calls: seq<int>, windowMs: int, maxCalls: int)
    requires Tracks(k, stale, last, windowMs) && Clocked(calls, last) && 0 <= last
    ensures Decisions(k, calls, windowMs, maxCalls) == IdealDecisions(Log(stale, k), calls, windowMs, maxCalls)
    decreases |calls|
  {
    if calls != [] {
      ClockedTail(calls, last);
      var stale' := StepRefines(k, stale, last, calls[0], windowMs, maxCalls);
      RunRefines(Script(k, calls[0], windowMs, maxCalls).0, stale', calls[0], calls[1..], windowMs, maxCalls);
    }
  }

  /** Refinement: on every call sequence the script decides as the ideal limiter does. */
  lemma ScriptRefinesIdeal(calls: seq<int>, windowMs: int, maxCalls: int)
    requires Clocked(calls, 0)
    ensures Decisions(NO_KEYS, calls, windowMs, maxCalls) == IdealDecisions([], calls, windowMs, maxCalls)
  {
    NoKeysTrack(windowMs);
    RunRefines(NO_KEYS, [], 0, calls, windowMs, maxCalls);
  }

  lemma NoKeysTrack(windowMs: int)
    ensures Tracks(NO_KEYS, [], 0, windowMs) && Log([], NO_KEYS) == []
  {}

  /** Counting entries of the log is counting its positions. */
  lemma {:induction false} CountInExactly(log: seq<int>, lo: int, hi: int)
    ensures CountIn(log, lo, hi) == |set i | 0 <= i < |log| && lo < log[i] <= hi|
  {
    var here := set i | 0 <= i < |log| && lo < log[i] <= hi;
    if log == [] {
      assert here == {};
    } else {
      var n, front := |log| - 1, log[..|log| - 1];
      CountInExactly(front, lo, hi);
      var before := set i | 0 <= i < |front| && lo < front[i] <= hi;
      assert here == before + if lo < log[n] <= hi then {n} else {};
    }
  }

  /** An admission gives both keys the window, rounded up to whole seconds, to live; a denial renews
      neither. Until then both keys stay as they are; after it both are gone. */
  lemma KeysExpireExactly(k: Keys, now: int, windowMs: int, maxCalls: int, later: int)
    ensures var (k', reply) := Script(k, now, windowMs, maxCalls);
      && (reply.Denied? ==> k'.zsetExpiry == k.zsetExpiry && k'.counterExpiry == k.counterExpiry)
      && (reply.Admitted? ==>
            && k'.zsetExpiry == k'.counterExpiry && (k'.zsetExpiry - now) % 1000 == 0
            && windowMs <= k'.zsetExpiry - now < windowMs + 1000
            && k'.counter == (if now > k.counterExpiry then 1 else k.counter + 1)
            && (DropExpired(k', later) == if later <= k'.zsetExpiry then k' else Keys([], k'.zsetExpiry, 0, k'.counterExpiry)))
  {}

  // ---------------------------------------------------------------------------
  // Safety over whole runs
  // ---------------------------------------------------------------------------

  /** Every interval (lo, lo + window] holds at most maxCalls entries. */
  ghost predicate Limited(log: seq<int>, windowMs: int, maxCalls: int) {
    forall lo, hi | hi == lo + windowMs :: CountIn(log, lo, hi) <= maxCalls
  }

  lemma {:induction false} CountMonotone(log: seq<int>, lo: int, hi: int, lo': int, hi': int)
    requires lo' <= lo && AllAtMost(log, hi')
    ensures CountIn(log, lo, hi) <= CountIn(log, lo', hi')
    decreases |log|
  {
    if log != [] {
      CountMonotone(log[..|log| - 1], lo, hi, lo', hi');
    }
  }

  lemma AdmissionKeepsLimit(log: seq<int>, now: int, windowMs: int, maxCalls: int)
    requires AllAtMost(log, now) && Limited(log, windowMs, maxCalls) && IdealAdmits(log, now, windowMs, maxCalls)
    ensures Limited(log + [now], windowMs, maxCalls)
  {
    assert (log + [now])[..|log|] == log;
    forall lo, hi | hi == lo + windowMs ensures CountIn(log + [now], lo, hi) <= maxCalls {
      if lo < now <= hi {
        CountMonotone(log, lo, hi, now - windowMs, now);
      }
    }
  }

  /** One call keeps the limit. */
  lemma StepIsLimited(k: Keys, stale: seq<int>, last: int, now: int, windowMs: int, maxCalls: int) returns (stale': seq<int>)
    requires Tracks(k, stale, last, windowMs) && last <= now && 0 <= now && 0 <= windowMs
    requires Limited(Log(stale, k), windowMs, maxCalls)
    ensures var (k', reply) := Script(k, now, windowMs, maxCalls);
      && Tracks(k', stale', now, windowMs)
      && Log(stale', k') == Log(stale, k) + (if reply.Admitted? then [now] else [])
      && Limited(Log(stale', k'), windowMs, maxCalls)
  {
    stale' := StepRefines(k, stale, last, now, windowMs, maxCalls);
    var log := Log(stale, k);
    assert log + [] == log;
    if IdealAdmits(log, now, windowMs, maxCalls) {
      assert AllAtMost(log, now);
      AdmissionKeepsLimit(log, now, windowMs, maxCalls);
    }
  }

  function KeysAfter(k: Keys, calls: seq<int>, windowMs: int, maxCalls: int): Keys
    decreases |calls|
  {
    if calls == [] then k else KeysAfter(Script(k, calls[0], windowMs, maxCalls).0, calls[1..], windowMs, maxCalls)
  }

  lemma ClockedTail(calls: seq<int>, from: int)
    requires calls != [] && Clocked(calls, from)
    ensures from <= calls[0] && Clocked(calls[1..], calls[0])
  {
    assert forall i | 0 <= i < |calls[1..]| :: calls[1..][i] == calls[i + 1];
  }

  /** A run appends its admissions to the log, and keeps the limit. */
  lemma {:induction false} RunIsLimited(k: Keys, stale: seq<int>, last: int, calls: seq<int>, windowMs: int, maxCalls: int)
      returns (stale': seq<int>, last': int)
    requires Tracks(k, stale, last, windowMs) && Clocked(calls, last) && 0 <= last && 0 <= windowMs
    requires Limited(Log(stale, k), windowMs, maxCalls)
    ensures var k' := KeysAfter(k, calls, windowMs, maxCalls);
      && Tracks(k', stale', last', windowMs)
      && Log(stale', k') == Log(stale, k) + AdmittedTimes(k, calls, windowMs, maxCalls)
      && Limited(Log(stale', k'), windowMs, maxCalls)
    ensures 0 <= last' == if calls == [] then last else calls[|calls| - 1]
    decreases |calls|
  {
    stale', last' := stale, last;
    var log := Log(stale, k);
    if calls == [] {
      assert log + [] == log;
    } else {
      ClockedTail(calls, last);
      var stale1 := StepIsLimited(k, stale, last, calls[0], windowMs, maxCalls);
      var (k1, reply) := Script(k, calls[0], windowMs, maxCalls);
      stale', last' := RunIsLimited(k1, stale1, calls[0], calls[1..], windowMs, maxCalls);
      var now, rest := if reply.Admitted? then [calls[0]] else [], AdmittedTimes(k1, calls[1..], windowMs, maxCalls);
      Assoc(log, now, rest);
    }
  }

  lemma Assoc(a: seq<int>, b: seq<int>, c: seq<int>)
    ensures (a + b) + c == a + (b + c)
  {}

  /** Safety: whatever the calls, no interval (lo, lo + window] sees more than maxCalls admissions. */
  lemma AtMostMaxCallsPerWindow(calls: seq<int>, windowMs: nat, maxCalls: nat, lo: int)
    requires Clocked(calls, 0)
    ensures CountIn(AdmittedTimes(NO_KEYS, calls, windowMs, maxCalls), lo, lo + windowMs) <= maxCalls
  {
    NoKeysTrack(windowMs);
    var _, _ := RunIsLimited(NO_KEYS, [], 0, calls, windowMs, maxCalls);
    var times := AdmittedTimes(NO_KEYS, calls, windowMs, maxCalls);
    assert [] + times == times;
  }

  // ---------------------------------------------------------------------------
  // The retry hint
  // ---------------------------------------------------------------------------

  /** What a denial leaves behind: a full set of entries inside the current window. */
  ghost predicate Full(k: Keys, now: int, windowMs: int, maxCalls: int) {
    && |k.zset| == maxCalls >= 1
    && GoodSet(k, now, windowMs)
    && AllWithin(Scores(k.zset), now - windowMs, now)
  }

  lemma DenialIsFull(k: Keys, stale: seq<int>, last: int, now: int, windowMs: int, maxCalls: int)
    requires Tracks(k, stale, last, windowMs) && Limited(Log(stale, k), windowMs, maxCalls) && last <= now && 1 <= maxCalls
    requires Script(k, now, windowMs, maxCalls).1.Denied?
    ensures Full(Script(k, now, windowMs, maxCalls).0, now, windowMs, maxCalls)
  {
    var _ := PrunedTracks(k, stale, last, now, windowMs);
  }

  /** From a full set, a later call is admitted exactly when the oldest entry has left the window;
      until then a call changes nothing. */
  lemma FullAdmitsExactly(k: Keys, now: int, later: int, windowMs: int, maxCalls: int)
    requires Full(k, now, windowMs, maxCalls) && now <= later
    ensures var (k', reply) := Script(k, later, windowMs, maxCalls);
      && (reply.Admitted? <==> later >= k.zset[0].score + windowMs)
      && (reply.Denied? ==> k' == k)
  {
    assert forall i | 0 <= i < |k.zset| :: k.zset[i].score == Scores(k.zset)[i];
    if later < k.zset[0].score + windowMs {
      assert DropExpired(k, later) == k;
      PruneNothing(k.zset, later - windowMs);
    } else if later <= k.zsetExpiry {
      OrderedByScore(k.zset, now);
      var n := PruneIsSuffix(k.zset, later - windowMs);
      assert n > 0;
    }
  }

  /** Calls of which none is admitted all come before the oldest entry leaves, and change nothing. */
  lemma {:induction false} DeniedCallsChangeNothing(k: Keys, now: int, calls: seq<int>, windowMs: int, maxCalls: int)
    requires Full(k, now, windowMs, maxCalls) && Clocked(calls, now)
    requires AdmittedTimes(k, calls, windowMs, maxCalls) == []
    ensures KeysAfter(k, calls, windowMs, maxCalls) == k
    decreases |calls|
  {
    if calls != [] {
      ClockedTail(calls, now);
      FullAdmitsExactly(k, now, calls[0], windowMs, maxCalls);
      assert Clocked(calls[1..], now);
      DeniedCallsChangeNothing(k, now, calls[1..], windowMs, maxCalls);
    }
  }

  /** The hint is exact: after any run, a denied caller who comes back s whole seconds later, with
      only denied calls in between, is admitted if and only if s is at least the hint, which is the
      time until the oldest entry leaves, rounded up. The clamp to one second plays no part in it. */
  lemma RetryAfterIsExact(calls: seq<int>, now: int, between: seq<int>, s: nat, windowMs: nat, maxCalls: int)
    requires 1 <= maxCalls && Clocked(calls, 0) && 0 <= now && (calls != [] ==> calls[|calls| - 1] <= now)
    requires Clocked(between, now)
    requires Script(KeysAfter(NO_KEYS, calls, windowMs, maxCalls), now, windowMs, maxCalls).1.Denied?
    requires AdmittedTimes(Script(KeysAfter(NO_KEYS, calls, windowMs, maxCalls), now, windowMs, maxCalls).0,
                           between, windowMs, maxCalls) == []
    ensures var (k, reply) := Script(KeysAfter(NO_KEYS, calls, windowMs, maxCalls), now, windowMs, maxCalls);
      && k.zset != [] && reply.retryAfter == CeilSeconds(k.zset[0].score + windowMs - now) >= 1
      && (Script(KeysAfter(k, between, windowMs, maxCalls), now + 1000 * s, windowMs, maxCalls).1.Admitted?
          <==> s >= reply.retryAfter)
  {
    NoKeysTrack(windowMs);
    var k0 := KeysAfter(NO_KEYS, calls, windowMs, maxCalls);
    var stale, last := RunIsLimited(NO_KEYS, [], 0, calls, windowMs, maxCalls);
    var (k, reply) := Script(k0, now, windowMs, maxCalls);
    DenialIsFull(k0, stale, last, now, windowMs, maxCalls);
    assert k.zset[0].score == Scores(k.zset)[0];
    DeniedCallsChangeNothing(k, now, between, windowMs, maxCalls);
    FullAdmitsExactly(k, now, now + 1000 * s, windowMs, maxCalls);
  }
}
