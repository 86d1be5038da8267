// The login limiter, internal/authn/rate_limit.go, and the order in which HandleLogin of
// internal/dashboard/auth_api.go uses it. Times are in nanoseconds.

module LoginLimiter {
  import opened GoText

  const SECOND := 1000000000
  const DEFAULT_WINDOW := 600 * SECOND
  const DEFAULT_MAX_ATTEMPTS := 10

  // ---------------------------------------------------------------- the full history

  // The failures that lie inside the window at time `now`, oldest first.
  function InWindow(hits: seq<int>, now: int, window: int): seq<int> {
    if hits == [] then []
    else (if now - hits[0] < window then [hits[0]] else []) + InWindow(hits[1..], now, window)
  }

  predicate Ordered(hits: seq<int>) {
    forall i, j :: 0 <= i < j < |hits| ==> hits[i] <= hits[j]
  }

  predicate AllBefore(hits: seq<int>, now: int) {
    forall i :: 0 <= i < |hits| ==> hits[i] <= now
  }

  lemma {:induction false} InWindowAppend(hits: seq<int>, t: int, now: int, window: int)
    ensures InWindow(hits + [t], now, window) == InWindow(hits, now, window) + if now - t < window then [t] else []
  {
    if hits == [] {
      assert [t][1..] == [] && [] + [t] == [t];
    } else {
      assert (hits + [t])[1..] == hits[1..] + [t];
      InWindowAppend(hits[1..], t, now, window);
    }
  }

  // Forgetting what has left the window loses nothing for later times.
  lemma {:induction false} PruningIsHarmless(hits: seq<int>, t1: int, t2: int, window: int)
    requires t1 <= t2
    ensures InWindow(InWindow(hits, t1, window), t2, window) == InWindow(hits, t2, window)
    ensures |InWindow(hits, t2, window)| <= |InWindow(hits, t1, window)|
  {
    if hits != [] {
      PruningIsHarmless(hits[1..], t1, t2, window);
      var rest := InWindow(hits[1..], t1, window);
      if t1 - hits[0] < window {
        assert ([hits[0]] + rest)[1..] == rest;
        assert InWindow([hits[0]] + rest, t2, window) == (if t2 - hits[0] < window then [hits[0]] else []) + InWindow(rest, t2, window);
      } else {
        assert InWindow(hits, t1, window) == rest && InWindow(hits, t2, window) == InWindow(hits[1..], t2, window);
      }
    }
  }

  lemma {:induction false} InWindowMembers(hits: seq<int>, now: int, window: int)
    ensures forall t :: t in InWindow(hits, now, window) <==> t in hits && now - t < window
  {
    if hits != [] {
      InWindowMembers(hits[1..], now, window);
    }
  }

  lemma OldestInside(hits: seq<int>, now: int, window: int)
    requires InWindow(hits, now, window) != []
    ensures now - InWindow(hits, now, window)[0] < window
  {
  }

  lemma {:induction false} AllInside(hits: seq<int>, now: int, window: int)
    requires Ordered(hits) && (hits != [] ==> now - hits[0] < window)
    ensures InWindow(hits, now, window) == hits
    ensures forall i :: 0 <= i < |hits| ==> now - hits[i] < window
  {
    if hits != [] {
      assert forall i :: 0 <= i < |hits[1..]| ==> hits[0] <= hits[1..][i];
      AllInside(hits[1..], now, window);
    }
  }

  // On an ordered history the window cuts off a prefix.
  lemma {:induction false} WindowIsSuffix(hits: seq<int>, now: int, window: int) returns (k: nat)
    requires Ordered(hits)
    ensures k <= |hits| && InWindow(hits, now, window) == hits[k..]
    ensures forall i :: 0 <= i < k ==> now - hits[i] >= window
    ensures forall i :: k <= i < |hits| ==> now - hits[i] < window
  {
    if hits == [] || now - hits[0] < window {
      k := 0;
      AllInside(hits, now, window);
    } else {
      k := WindowIsSuffix(hits[1..], now, window);
      k := k + 1;
      assert forall i :: 0 < i < |hits| ==> hits[i] == hits[1..][i - 1];
    }
  }

  // ---------------------------------------------------------------- the limiter

  function HitsOf(m: map<string, seq<int>>, key: string): seq<int> {
    if key in m then m[key] else []
  }

  // The stored list is what was inside the window when it was last pruned.
  ghost predicate Tracks(stored: seq<int>, history: seq<int>, prunedAt: int, clock: int, window: int) {
    prunedAt <= clock && stored == InWindow(history, prunedAt, window)
  }

  // Pruning again at a later time, and recording a failure at that time.
  lemma TracksLater(stored: seq<int>, history: seq<int>, prunedAt: int, clock: int, window: int, now: int)
    requires Tracks(stored, history, prunedAt, clock, window) && clock <= now && window > 0
    ensures InWindow(stored, now, window) == InWindow(history, now, window)
    ensures Tracks(InWindow(stored, now, window), history, now, now, window)
    ensures Tracks(InWindow(stored, now, window) + [now], history + [now], now, now, window)
    ensures Tracks(stored, history, prunedAt, now, window)
  {
    PruningIsHarmless(history, prunedAt, now, window);
    InWindowAppend(history, now, now, window);
  }

  type Lists = map<string, seq<int>>

  ghost predicate Consistent(attempts: Lists, history: Lists, prunedAt: map<string, int>, clock: int, window: int) {
    && attempts.Keys <= history.Keys <= prunedAt.Keys
    && forall key :: key in history ==> Tracks(HitsOf(attempts, key), history[key], prunedAt[key], clock, window)
  }

  // The lists after pruning one key, and after also recording a failure for it.
  lemma PruneOneKey(attempts: Lists, history: Lists, prunedAt: map<string, int>, clock: int, window: int, key: string, now: int)
    requires window > 0 && clock <= now && Consistent(attempts, history, prunedAt, clock, window)
    requires key in history
    ensures var filtered := InWindow(HitsOf(attempts, key), now, window);
            && filtered == InWindow(HitsOf(history, key), now, window)
            && Consistent(if filtered == [] then attempts - {key} else attempts[key := filtered],
                          history, prunedAt[key := now], now, window)
  {
    var filtered := InWindow(HitsOf(attempts, key), now, window);
    var pruned := if filtered == [] then attempts - {key} else attempts[key := filtered];
    forall k | k in history ensures Tracks(HitsOf(pruned, k), history[k], prunedAt[key := now][k], now, window) {
      TracksLater(HitsOf(attempts, k), history[k], prunedAt[k], clock, window, now);
    }
    TracksLater(HitsOf(attempts, key), history[key], prunedAt[key], clock, window, now);
  }

  lemma NothingToPrune(attempts: Lists, history: Lists, prunedAt: map<string, int>, clock: int, window: int, key: string, now: int)
    requires clock <= now && Consistent(attempts, history, prunedAt, clock, window) && HitsOf(attempts, key) == []
    ensures Consistent(attempts, history, prunedAt, now, window)
    ensures InWindow(HitsOf(history, key), now, window) == []
  {
    if key in history {
      assert Tracks([], history[key], prunedAt[key], clock, window);
      PruningIsHarmless(history[key], prunedAt[key], now, window);
    }
  }

  lemma RecordOneFailure(attempts: Lists, history: Lists, prunedAt: map<string, int>, window: int, key: string, now: int)
    requires window > 0 && Consistent(attempts, history, prunedAt, now, window)
    requires HitsOf(attempts, key) == InWindow(HitsOf(history, key), now, window)
    ensures Consistent(attempts[key := HitsOf(attempts, key) + [now]], history[key := HitsOf(history, key) + [now]],
                       prunedAt[key := now], now, window)
  {
    var hits, all := HitsOf(attempts, key), HitsOf(history, key);
    assert Tracks(hits + [now], all + [now], now, now, window) by {
      InWindowAppend(all, now, now, window);
    }
    forall k | k in history && k != key ensures Tracks(HitsOf(attempts, k), history[k], prunedAt[k], now, window) {
    }
  }

  // One key's history has become `hits`; nobody else's has changed.
  ghost predicate OnlyHistoryOf(before: Lists, after: Lists, key: string, hits: seq<int>) {
    HitsOf(after, key) == hits && forall k :: k != key ==> HitsOf(after, k) == HitsOf(before, k)
  }

  class AttemptLimiter {
    const window: int
    const maxAttempts: int
    var attempts: map<string, seq<int>>

    ghost var history: map<string, seq<int>>  // all failures since the key's last reset
    ghost var prunedAt: map<string, int>      // when the key's list was last pruned
    ghost var clock: int                      // the latest time seen

    ghost predicate Valid()
      reads this
    {
      window > 0 && maxAttempts > 0 && Consistent(attempts, history, prunedAt, clock, window)
    }

    constructor (configuredWindow: int, configuredMax: int)
      ensures Valid() && history == map[]
      ensures window == if configuredWindow <= 0 then DEFAULT_WINDOW else configuredWindow
      ensures maxAttempts == if configuredMax <= 0 then DEFAULT_MAX_ATTEMPTS else configuredMax
    {
      window := if configuredWindow <= 0 then DEFAULT_WINDOW else configuredWindow;
      maxAttempts := if configuredMax <= 0 then DEFAULT_MAX_ATTEMPTS else configuredMax;
      attempts, history, prunedAt, clock := map[], map[], map[], 0;
    }

    static method FilterRecent(hits: seq<int>, now: int, window: int) returns (filtered: seq<int>)
      ensures filtered == InWindow(hits, now, window)
    {
      filtered := [];
      for i := 0 to |hits|
        invariant filtered == InWindow(hits[..i], now, window)
      {
        assert hits[..i + 1] == hits[..i] + [hits[i]];
        InWindowAppend(hits[..i], hits[i], now, window);
        if now - hits[i] < window {
          filtered := filtered + [hits[i]];
        }
      }
      assert hits[..|hits|] == hits;
    }

    // pruneLocked: the filtered list, stored back, or no entry at all if nothing is left.
    method Prune(key: string, now: int) returns (filtered: seq<int>)
      requires Valid() && clock <= now
      modifies this`attempts, this`prunedAt, this`clock
      ensures Valid() && clock == now
      ensures filtered == HitsOf(attempts, key) == InWindow(HitsOf(history, key), now, window)
    {
      var hits := HitsOf(attempts, key);
      if |hits| == 0 {
        NothingToPrune(attempts, history, prunedAt, clock, window, key, now);
        clock := now;
        return [];
      }
      PruneOneKey(attempts, history, prunedAt, clock, window, key, now);
      prunedAt, clock := prunedAt[key := now], now;
      filtered := FilterRecent(hits, now, window);
      if |filtered| == 0 {
        attempts := attempts - {key};
      } else {
        attempts := attempts[key := filtered];
      }
    }

    // Allowed exactly when fewer than the maximum of all recorded failures lie inside the window.
    method Allow(rawKey: string, now: int) returns (ok: bool, retryAfter: int)
      requires Valid() && clock <= now
      modifies this`attempts, this`prunedAt, this`clock
      ensures Valid()
      ensures clock == if TrimSpace(rawKey) == "" then old(clock) else now
      ensures TrimSpace(rawKey) == "" ==> ok
      ensures TrimSpace(rawKey) != "" ==>
                var inside := InWindow(HitsOf(history, TrimSpace(rawKey)), now, window);
                && (ok <==> |inside| < maxAttempts)
                && (!ok ==> retryAfter == window - (now - inside[0]) && 0 < retryAfter)
      ensures ok ==> retryAfter == 0
    {
      var key := TrimSpace(rawKey);
      if key == "" {
        return true, 0;
      }
      var filtered := Prune(key, now);
      if |filtered| < maxAttempts {
        return true, 0;
      }
      OldestInside(HitsOf(history, key), now, window);
      retryAfter := window - (now - filtered[0]);
      if retryAfter < 0 {
        retryAfter := 0;
      }
      ok := false;
    }

    method RecordFailure(rawKey: string, now: int)
      requires Valid() && clock <= now
      modifies this
      ensures Valid()
      ensures clock == if TrimSpace(rawKey) == "" then old(clock) else now
      ensures TrimSpace(rawKey) == "" ==> history == old(history)
      ensures TrimSpace(rawKey) != "" ==>
                OnlyHistoryOf(old(history), history, TrimSpace(rawKey), HitsOf(old(history), TrimSpace(rawKey)) + [now])
    {
      var key := TrimSpace(rawKey);
      if key == "" {
        return;
      }
      var filtered := Prune(key, now);
      RecordOneFailure(attempts, history, prunedAt, window, key, now);
      attempts := attempts[key := filtered + [now]];
      history := history[key := HitsOf(history, key) + [now]];
      prunedAt := prunedAt[key := now];
    }

    method Reset(rawKey: string)
      requires Valid()
      modifies this
      ensures Valid() && clock == old(clock)
      ensures TrimSpace(rawKey) == "" ==> history == old(history)
      ensures TrimSpace(rawKey) != "" ==> OnlyHistoryOf(old(history), history, TrimSpace(rawKey), [])
    {
      var key := TrimSpace(rawKey);
      if key == "" {
        return;
      }
      attempts := attempts - {key};
      history := history - {key};
    }
  }

  // Whole seconds, rounded up, and at least one.
  method SecondsCeil(d: int) returns (sec: int)
    ensures sec == Seconds(d)
  {
    if d <= 0 {
      return 1;
    }
    sec := d / SECOND;
    if d % SECOND != 0 {
      sec := sec + 1;
    }
    if sec <= 0 {
      return 1;
    }
  }

  // The least number of seconds, from one up, that covers d.
  function Seconds(d: int): (sec: int)
    ensures sec >= 1 && sec * SECOND >= d
    ensures sec > 1 ==> (sec - 1) * SECOND < d
  {
    if d <= 0 then 1 else (d + SECOND - 1) / SECOND
  }

  // ---------------------------------------------------------------- HandleLogin

  // What the handler finds out about a request: before it asks the limiter whether the server has a token
  // at all, the rest afterwards.
  datatype Login = Login(
    serverHasToken: bool,
    bodyDecodes: bool,
    tokenGiven: bool,
    needsHTTPS: bool,
    tokenMatches: bool,
    sessionsConfigured: bool,
    sessionCreated: bool)

  datatype Status = OK | BadRequest | Unauthorized | TooManyRequests(retryAfterSec: int) | InternalError | ServiceUnavailable

  predicate Counts(r: Login) {
    r.bodyDecodes && (!r.tokenGiven || (!r.needsHTTPS && !r.tokenMatches))
  }

  // The failures are forgotten before the session is created, so also if that fails.
  predicate Resets(r: Login) {
    r.bodyDecodes && r.tokenGiven && !r.needsHTTPS && r.tokenMatches && r.sessionsConfigured
  }

  // The address's history after a request that passed the limiter.
  function AfterRequest(hits: seq<int>, r: Login, recordedAt: int): seq<int> {
    if Counts(r) then hits + [recordedAt] else if Resets(r) then [] else hits
  }

  function Answer(r: Login): Status {
    if Counts(r) then Unauthorized
    else if Resets(r) && r.sessionCreated then OK
    else if r.bodyDecodes && r.tokenGiven && !r.needsHTTPS then InternalError
    else BadRequest
  }

  // What a request does to its address's history, and the answer it gets.
  function LoginEffect(hits: seq<int>, r: Login, askedAt: int, recordedAt: int, window: int, max: int): (seq<int>, Status)
    requires max > 0
  {
    var inside := InWindow(hits, askedAt, window);
    if !r.serverHasToken then (hits, ServiceUnavailable)
    else if |inside| >= max then (hits, TooManyRequests(Seconds(window - (askedAt - inside[0]))))
    else (AfterRequest(hits, r, recordedAt), Answer(r))
  }

  // The limiter is asked first, a failure is recorded only then, and success resets it.
  method HandleLogin(limiter: AttemptLimiter, ip: string, r: Login, askedAt: int, recordedAt: int) returns (status: Status)
    requires limiter.Valid() && limiter.clock <= askedAt <= recordedAt
    modifies limiter
    ensures limiter.Valid()
    ensures TrimSpace(ip) == "" ==>
              limiter.history == old(limiter.history) && status == if r.serverHasToken then Answer(r) else ServiceUnavailable
    ensures TrimSpace(ip) != "" ==>
              var key := TrimSpace(ip);
              var (hits, answer) := LoginEffect(HitsOf(old(limiter.history), key), r, askedAt, recordedAt, limiter.window, limiter.maxAttempts);
              status == answer && OnlyHistoryOf(old(limiter.history), limiter.history, key, hits)
  {
    hide TrimSpace, InWindow, Seconds;
    if !r.serverHasToken {
      return ServiceUnavailable;
    }
    var allowed, retryAfter := limiter.Allow(ip, askedAt);
    if !allowed {
      var sec := SecondsCeil(retryAfter);
      return TooManyRequests(sec);
    }
    if !r.bodyDecodes {
      return BadRequest;
    }
    if !r.tokenGiven {
      limiter.RecordFailure(ip, recordedAt);
      return Unauthorized;
    }
    if r.needsHTTPS {
      return BadRequest;
    }
    if !r.tokenMatches {
      limiter.RecordFailure(ip, recordedAt);
      return Unauthorized;
    }
    if !r.sessionsConfigured {
      return InternalError;
    }
    limiter.Reset(ip);
    return if r.sessionCreated then OK else InternalError;
  }

  // ---------------------------------------------------------------- runs of one address

  datatype Request = Request(login: Login, askedAt: int, recordedAt: int)

  function Handle(hits: seq<int>, q: Request, window: int, max: int): seq<int>
    requires max > 0
  {
    LoginEffect(hits, q.login, q.askedAt, q.recordedAt, window, max).0
  }

  function HandleAll(hits: seq<int>, qs: seq<Request>, window: int, max: int): seq<int>
    requires max > 0
    decreases |qs|
  {
    if qs == [] then hits else HandleAll(Handle(hits, qs[0], window, max), qs[1..], window, max)
  }

  // One request after the other, on a clock that does not run backwards.
  predicate Sequential(qs: seq<Request>, start: int) {
    && (forall i :: 0 <= i < |qs| ==> start <= qs[i].askedAt <= qs[i].recordedAt)
    && (forall i, j :: 0 <= i < j < |qs| ==> qs[i].recordedAt <= qs[j].askedAt)
  }

  // At no time from `now` on are there more than the maximum of failures in the window.
  ghost predicate Bounded(hits: seq<int>, now: int, window: int, max: int) {
    && Ordered(hits) && AllBefore(hits, now)
    && |InWindow(hits, now, window)| <= max
  }

  lemma HandleStaysBounded(hits: seq<int>, q: Request, now: int, window: int, max: int)
    requires window > 0 && max > 0 && Bounded(hits, now, window, max) && now <= q.askedAt <= q.recordedAt
    ensures Bounded(Handle(hits, q, window, max), q.recordedAt, window, max)
  {
    PruningIsHarmless(hits, now, q.askedAt, window);
    PruningIsHarmless(hits, q.askedAt, q.recordedAt, window);
    InWindowAppend(hits, q.recordedAt, q.recordedAt, window);
  }

  lemma {:induction false} RunStaysBounded(hits: seq<int>, qs: seq<Request>, now: int, end: int, window: int, max: int)
    requires window > 0 && max > 0 && Bounded(hits, now, window, max)
    requires Sequential(qs, now) && now <= end && forall i :: 0 <= i < |qs| ==> qs[i].recordedAt <= end
    ensures Bounded(HandleAll(hits, qs, window, max), end, window, max)
    decreases |qs|
  {
    if qs == [] {
      PruningIsHarmless(hits, now, end, window);
    } else {
      HandleStaysBounded(hits, qs[0], now, window, max);
      forall i | 0 <= i < |qs[1..]| ensures qs[0].recordedAt <= qs[1..][i].askedAt <= qs[1..][i].recordedAt {
        assert qs[1..][i] == qs[i + 1];
      }
      RunStaysBounded(Handle(hits, qs[0], window, max), qs[1..], qs[0].recordedAt, end, window, max);
    }
  }

  // ---------------------------------------------------------------- whom the limiter refuses

  lemma {:induction false} HandleOneMore(hits: seq<int>, qs: seq<Request>, q: Request, window: int, max: int)
    requires max > 0
    ensures HandleAll(hits, qs + [q], window, max) == Handle(HandleAll(hits, qs, window, max), q, window, max)
    decreases |qs|
  {
    if qs == [] {
      assert [q][1..] == [] && [] + [q] == [q];
    } else {
      assert (qs + [q])[0] == qs[0] && (qs + [q])[1..] == qs[1..] + [q];
      HandleOneMore(Handle(hits, qs[0], window, max), qs[1..], q, window, max);
    }
  }

  // What the k-th request of an address is answered.
  function StatusOf(qs: seq<Request>, k: nat, window: int, max: int): Status
    requires max > 0 && k < |qs|
  {
    LoginEffect(HandleAll([], qs[..k], window, max), qs[k].login, qs[k].askedAt, qs[k].recordedAt, window, max).1
  }

  // A login that got as far as a session: the token was right, the connection safe enough and sessions are
  // configured, whether or not one could be created.
  predicate ReachesSession(q: Request, status: Status) {
    && (status.OK? || status.InternalError?)
    && q.login.bodyDecodes && q.login.tokenGiven && !q.login.needsHTTPS && q.login.tokenMatches && q.login.sessionsConfigured
  }

  // The i-th request was answered Unauthorized, and no login before the k-th got as far as a session since.
  predicate FailedSince(qs: seq<Request>, i: nat, k: nat, window: int, max: int)
    requires max > 0 && k <= |qs|
  {
    && i < k && StatusOf(qs, i, window, max) == Unauthorized
    && forall j :: i < j < k ==> !ReachesSession(qs[j], StatusOf(qs, j, window, max))
  }

  // Those of them within the window at some time.
  function FailedRecently(qs: seq<Request>, k: nat, now: int, window: int, max: int): set<nat>
    requires max > 0 && k <= |qs|
  {
    set i: nat | i < k && FailedSince(qs, i, k, window, max) && now - qs[i].recordedAt < window
  }

  lemma FailedSinceOneMore(qs: seq<Request>, i: nat, k: nat, window: int, max: int)
    requires max > 0 && k < |qs|
    ensures FailedSince(qs, i, k + 1, window, max)
       <==> if i == k then StatusOf(qs, k, window, max) == Unauthorized
            else FailedSince(qs, i, k, window, max) && !ReachesSession(qs[k], StatusOf(qs, k, window, max))
  {
    hide StatusOf, ReachesSession;
  }

  lemma RecentlyOneMore(qs: seq<Request>, k: nat, now: int, window: int, max: int)
    requires max > 0 && k < |qs|
    ensures var status, before := StatusOf(qs, k, window, max), FailedRecently(qs, k, now, window, max);
            FailedRecently(qs, k + 1, now, window, max)
            == if ReachesSession(qs[k], status) then {}
               else if status == Unauthorized && now - qs[k].recordedAt < window then before + {k} else before
  {
    forall i: nat ensures FailedSince(qs, i, k + 1, window, max)
       <==> if i == k then StatusOf(qs, k, window, max) == Unauthorized
            else FailedSince(qs, i, k, window, max) && !ReachesSession(qs[k], StatusOf(qs, k, window, max)) {
      FailedSinceOneMore(qs, i, k, window, max);
    }
    hide StatusOf, FailedSince;
  }

  // How a request changes its address's history, seen from its answer.
  lemma AnswerTells(hits: seq<int>, q: Request, window: int, max: int)
    requires max > 0
    ensures var status := LoginEffect(hits, q.login, q.askedAt, q.recordedAt, window, max).1;
            Handle(hits, q, window, max)
            == if ReachesSession(q, status) then [] else if status == Unauthorized then hits + [q.recordedAt] else hits
  {
  }

  predicate First(failed: set<nat>, i: nat) {
    i in failed && forall j :: j in failed ==> i <= j
  }

  // A window has one entry for each failure, and its first entry is the first failure's.
  predicate Tallies(qs: seq<Request>, inside: seq<int>, failed: set<nat>, oldest: nat) {
    && |inside| == |failed|
    && (inside != [] ==> First(failed, oldest) && oldest < |qs| && inside[0] == qs[oldest].recordedAt)
  }

  lemma TalliesOneMore(qs: seq<Request>, inside: seq<int>, failed: set<nat>, oldest: nat, k: nat)
    requires Tallies(qs, inside, failed, oldest) && k < |qs| && forall i :: i in failed ==> i < k
    ensures Tallies(qs, inside + [qs[k].recordedAt], failed + {k}, if inside == [] then k else oldest)
  {
    if inside == [] {
      assert failed == {};
    }
  }

  lemma EmptyTallies(qs: seq<Request>, inside: seq<int>, failed: set<nat>, oldest: nat, other: nat)
    requires Tallies(qs, inside, failed, oldest)
    ensures Tallies(qs, inside, failed, if inside == [] then other else oldest)
  {
  }

  lemma {:induction false} WindowIsFailures(qs: seq<Request>, k: nat, now: int, window: int, max: int) returns (oldest: nat)
    requires max > 0 && k <= |qs|
    ensures Tallies(qs, InWindow(HandleAll([], qs[..k], window, max), now, window), FailedRecently(qs, k, now, window, max), oldest)
  {
    hide Handle, HandleAll, LoginEffect, ReachesSession, FailedSince, InWindow, Tallies;
    oldest := 0;
    if k == 0 {
      NothingFailed(qs, now, window, max);
    } else {
      oldest := WindowIsFailures(qs, k - 1, now, window, max);
      var n, hits := k - 1, HandleAll([], qs[..k - 1], window, max);
      var inside, failed := InWindow(hits, now, window), FailedRecently(qs, n, now, window, max);
      assert qs[..k] == qs[..n] + [qs[n]];
      HandleOneMore([], qs[..n], qs[n], window, max);
      AnswerTells(hits, qs[n], window, max);
      InWindowAppend(hits, qs[n].recordedAt, now, window);
      RecentlyOneMore(qs, n, now, window, max);
      TalliesOneMore(qs, inside, failed, oldest, n);
      NothingInside(qs, now, window);
      assert inside + [] == inside;
      EmptyTallies(qs, inside, failed, oldest, n);
      oldest := if inside == [] then n else oldest;
      var status, recorded := StatusOf(qs, n, window, max), qs[n].recordedAt;
      if ReachesSession(qs[n], status) {
        assert InWindow(HandleAll([], qs[..k], window, max), now, window) == [];
      } else if status == Unauthorized && now - recorded < window {
        assert InWindow(HandleAll([], qs[..k], window, max), now, window) == inside + [recorded];
      } else {
        assert InWindow(HandleAll([], qs[..k], window, max), now, window) == inside;
      }
    }
  }

  lemma NothingInside(qs: seq<Request>, now: int, window: int)
    ensures InWindow([], now, window) == []
    ensures forall oldest :: Tallies(qs, [], {}, oldest)
  {
  }

  lemma NothingFailed(qs: seq<Request>, now: int, window: int, max: int)
    requires max > 0
    ensures InWindow(HandleAll([], qs[..0], window, max), now, window) == [] && FailedRecently(qs, 0, now, window, max) == {}
    ensures Tallies(qs, [], {}, 0)
  {
  }

  lemma RefusalIsFullWindow(hits: seq<int>, q: Request, window: int, max: int)
    requires max > 0
    ensures var inside := InWindow(hits, q.askedAt, window);
            var status := LoginEffect(hits, q.login, q.askedAt, q.recordedAt, window, max).1;
            && (status.TooManyRequests? <==> q.login.serverHasToken && |inside| >= max)
            && (status.TooManyRequests? ==> status.retryAfterSec == Seconds(window - (q.askedAt - inside[0])))
  {
    hide InWindow, Seconds;
  }

  // An address is refused exactly if it has failed at least the maximum number of times within the window
  // since a login of it last got as far as a session, and is told to wait until the first of these failures
  // leaves the window. The failures are read off the answers.
  lemma RefusedExactly(qs: seq<Request>, k: nat, window: int, max: int)
    requires max > 0 && k < |qs|
    ensures var status, failed := StatusOf(qs, k, window, max), FailedRecently(qs, k, qs[k].askedAt, window, max);
            && (status.TooManyRequests? <==> qs[k].login.serverHasToken && |failed| >= max)
            && (status.TooManyRequests? ==>
                  exists i: nat :: First(failed, i) && i < k
                    && status.retryAfterSec == Seconds(window - (qs[k].askedAt - qs[i].recordedAt)))
  {
    var oldest := WindowIsFailures(qs, k, qs[k].askedAt, window, max);
    RefusalIsFullWindow(HandleAll([], qs[..k], window, max), qs[k], window, max);
    assert forall i :: i in FailedRecently(qs, k, qs[k].askedAt, window, max) ==> i < k;
    hide LoginEffect, HandleAll, InWindow, FailedRecently, Seconds;
    if StatusOf(qs, k, window, max).TooManyRequests? {
      assert First(FailedRecently(qs, k, qs[k].askedAt, window, max), oldest);
    }
  }

  // What everyone else is answered.
  lemma AdmittedAnswers(qs: seq<Request>, k: nat, window: int, max: int)
    requires max > 0 && k < |qs| && !StatusOf(qs, k, window, max).TooManyRequests?
    ensures var r, status := qs[k].login, StatusOf(qs, k, window, max);
            var rightToken := r.bodyDecodes && r.tokenGiven && !r.needsHTTPS && r.tokenMatches;
            && (status == ServiceUnavailable <==> !r.serverHasToken)
            && (r.serverHasToken ==>
                  && (status == BadRequest <==> !r.bodyDecodes || (r.tokenGiven && r.needsHTTPS))
                  && (status == Unauthorized <==> r.bodyDecodes && (!r.tokenGiven || (!r.needsHTTPS && !r.tokenMatches)))
                  && (status == OK <==> rightToken && r.sessionsConfigured && r.sessionCreated)
                  && (status == InternalError <==> rightToken && !(r.sessionsConfigured && r.sessionCreated)))
  {
  }

  // The time at which someone refused at `now` is told to come back.
  function Advertised(hits: seq<int>, now: int, window: int): int
    requires InWindow(hits, now, window) != []
  {
    now + Seconds(window - (now - InWindow(hits, now, window)[0])) * SECOND
  }

  // Without further failures, the advertised wait is long enough exactly when it outlasts the failure
  // that is the maximal number from the end, which need not be the oldest.
  lemma AdvertisedWaitDecided(hits: seq<int>, now: int, window: int, max: int)
    requires window > 0 && max > 0 && Ordered(hits) && |InWindow(hits, now, window)| >= max
    ensures var inside, later := InWindow(hits, now, window), Advertised(hits, now, window);
            |InWindow(hits, later, window)| < max <==> later - inside[|inside| - max] >= window
  {
    var later := Advertised(hits, now, window);
    var k := WindowIsSuffix(hits, now, window);
    var m := WindowIsSuffix(hits, later, window);
    assert InWindow(hits, now, window)[|hits| - k - max] == hits[|hits| - max];
  }

  // Whoever is refused after a sequential run has exactly the maximum of failures in the window, and is
  // let in again after the advertised number of seconds if nothing else happens.
  lemma AdvertisedWaitIsEnough(qs: seq<Request>, start: int, now: int, window: int, max: int)
    requires window > 0 && max > 0 && Sequential(qs, start) && start <= now
    requires forall i :: 0 <= i < |qs| ==> qs[i].recordedAt <= now
    requires |InWindow(HandleAll([], qs, window, max), now, window)| >= max
    ensures var hits := HandleAll([], qs, window, max);
            && |InWindow(hits, now, window)| == max
            && |InWindow(hits, Advertised(hits, now, window), window)| < max
  {
    RunStaysBounded([], qs, start, now, window, max);
    AdvertisedWaitDecided(HandleAll([], qs, window, max), now, window, max);
  }

  // With more failures than the maximum in the window, the second oldest at least a second after the
  // oldest, the advertised wait is too short.
  lemma OverfullWaitIsTooShort(hits: seq<int>, now: int, window: int, max: int)
    requires window > 0 && max > 0 && Ordered(hits) && AllBefore(hits, now)
    requires var inside := InWindow(hits, now, window); |inside| > max && inside[1] - inside[0] >= SECOND
    ensures |InWindow(hits, Advertised(hits, now, window), window)| >= max
  {
    AdvertisedWaitDecided(hits, now, window, max);
    var k := WindowIsSuffix(hits, now, window);
    var inside := InWindow(hits, now, window);
    assert inside[1] == hits[k + 1] && inside[|inside| - max] == hits[|hits| - max];
  }

  // ---------------------------------------------------------------- overlapping requests of one address

  // Asking the limiter and recording the outcome are separate steps, between which other requests of the
  // address may ask. Both read the clock before they take the lock, so the readings may come late and in any
  // order. `Leave` is a request that ends without either a failure or a success.
  datatype Step = Tick(to: int) | Ask(now: int) | Fail(now: int) | Succeed | Leave

  // All failures since the last reset, the list the limiter stores, the requests that were let through and
  // have not ended, and the clock.
  datatype Traffic = Traffic(history: seq<int>, stored: seq<int>, admitted: nat, clock: int)

  const QUIET := Traffic([], [], 0, 0)

  predicate Possible(s: Traffic, a: Step) {
    match a
    case Tick(to) => s.clock <= to
    case Ask(now) => now <= s.clock
    case Fail(now) => now <= s.clock && s.admitted > 0
    case _ => s.admitted > 0
  }

  function Take(s: Traffic, a: Step, window: int, max: int): Traffic
    requires Possible(s, a)
  {
    match a
    case Tick(to) => s.(clock := to)
    case Ask(now) =>
      var recent := InWindow(s.stored, now, window);
      s.(stored := recent, admitted := if |recent| < max then s.admitted + 1 else s.admitted)
    case Fail(now) =>
      Traffic(s.history + [now], InWindow(s.stored, now, window) + [now], s.admitted - 1, s.clock)
    case Succeed => Traffic([], [], s.admitted - 1, s.clock)
    case Leave => s.(admitted := s.admitted - 1)
  }

  // The steps are possible one after the other, lead to `end`, and never are more than `most` requests
  // admitted at once.
  ghost predicate Overlapping(s: Traffic, steps: seq<Step>, end: Traffic, window: int, max: int, most: nat)
    decreases |steps|
  {
    && s.admitted <= most
    && if steps == [] then end == s
       else Possible(s, steps[0]) && Overlapping(Take(s, steps[0], window, max), steps[1..], end, window, max, most)
  }

  // From now on the stored list is as good as all failures.
  ghost predicate Remembers(s: Traffic, window: int) {
    forall t :: t >= s.clock ==> InWindow(s.history, t, window) == InWindow(s.stored, t, window)
  }

  // At most `most` admitted requests take the list past the maximum by less than that.
  ghost predicate NearlyBounded(s: Traffic, window: int, max: int, most: nat) {
    Remembers(s, window) && |s.stored| + s.admitted < max + most
  }

  lemma {:induction false} InWindowShrinks(hits: seq<int>, now: int, window: int)
    ensures |InWindow(hits, now, window)| <= |hits|
  {
    if hits != [] {
      InWindowShrinks(hits[1..], now, window);
    }
  }

  lemma StepRemembers(s: Traffic, a: Step, window: int, max: int)
    requires Remembers(s, window) && Possible(s, a)
    ensures Remembers(Take(s, a, window, max), window)
  {
    var end := Take(s, a, window, max);
    forall t | t >= end.clock ensures InWindow(end.history, t, window) == InWindow(end.stored, t, window) {
      if a.Ask? || a.Fail? {
        PruningIsHarmless(s.stored, a.now, t, window);
        InWindowAppend(s.history, a.now, t, window);
        InWindowAppend(InWindow(s.stored, a.now, window), a.now, t, window);
      }
    }
  }

  lemma StepStaysBounded(s: Traffic, a: Step, window: int, max: int, most: nat)
    requires max > 0 && NearlyBounded(s, window, max, most) && Possible(s, a)
    requires Take(s, a, window, max).admitted <= most
    ensures NearlyBounded(Take(s, a, window, max), window, max, most)
  {
    StepRemembers(s, a, window, max);
    if a.Ask? || a.Fail? {
      InWindowShrinks(s.stored, a.now, window);
    }
  }

  // For one request at a time the window never holds more than the maximum, at the end or later; in general
  // more by less than the number of requests that were ever admitted at once. However late and in whatever
  // order the clock was read, the stored list is never longer and has lost nothing of the window.
  lemma {:induction false} OverlapIsBounded(s: Traffic, steps: seq<Step>, end: Traffic, window: int, max: int, most: nat)
    requires max > 0 && NearlyBounded(s, window, max, most) && Overlapping(s, steps, end, window, max, most)
    ensures NearlyBounded(end, window, max, most)
    ensures forall t :: t >= end.clock ==> |InWindow(end.history, t, window)| + end.admitted < max + most
    decreases |steps|
  {
    if steps == [] {
      forall t | t >= end.clock ensures |InWindow(end.history, t, window)| + end.admitted < max + most {
        InWindowShrinks(end.stored, t, window);
      }
    } else {
      StepStaysBounded(s, steps[0], window, max, most);
      OverlapIsBounded(Take(s, steps[0], window, max), steps[1..], end, window, max, most);
    }
  }

  // One request more than the maximum asks before any of them fails: all are let through. The first fails
  // at once and the others a second later.
  function Burst(asks: nat, fails: nat): seq<Step> {
    if fails == 2 then Burst(asks, 1) + [Tick(SECOND)] + [Fail(SECOND)]
    else if fails > 0 then Burst(asks, fails - 1) + [Fail(if fails == 1 then 0 else SECOND)]
    else if asks > 0 then Burst(asks - 1, 0) + [Ask(0)]
    else []
  }

  function BurstHits(fails: nat): (hits: seq<int>)
    ensures |hits| == fails
    ensures forall i :: 0 <= i < fails ==> hits[i] == if i == 0 then 0 else SECOND
  {
    if fails == 0 then [] else BurstHits(fails - 1) + [if fails == 1 then 0 else SECOND]
  }

  function DuringBurst(asks: nat, fails: nat): Traffic
    requires fails <= asks
  {
    Traffic(BurstHits(fails), BurstHits(fails), asks - fails, if fails <= 1 then 0 else SECOND)
  }

  lemma {:induction false} OneMoreStep(s: Traffic, steps: seq<Step>, end: Traffic, a: Step, window: int, max: int, most: nat)
    requires Overlapping(s, steps, end, window, max, most) && Possible(end, a) && Take(end, a, window, max).admitted <= most
    ensures Overlapping(s, steps + [a], Take(end, a, window, max), window, max, most)
    decreases |steps|
  {
    if steps == [] {
      assert [a][1..] == [] && [] + [a] == [a];
    } else {
      assert (steps + [a])[0] == steps[0] && (steps + [a])[1..] == steps[1..] + [a];
      OneMoreStep(Take(s, steps[0], window, max), steps[1..], end, a, window, max, most);
    }
  }

  // All of the burst's failures lie in a window of more than a second.
  lemma BurstIsInside(fails: nat, window: int)
    requires window > SECOND
    ensures InWindow(BurstHits(fails), SECOND, window) == BurstHits(fails)
  {
    var hits := BurstHits(fails);
    var k := WindowIsSuffix(hits, SECOND, window);
    assert fails > 0 ==> SECOND - hits[0] < window;
    assert hits[0..] == hits;
  }

  lemma {:induction false} BurstIsPossible(asks: nat, fails: nat, window: int, max: nat)
    requires window > SECOND && max > 0 && fails <= asks <= max + 1
    ensures Overlapping(QUIET, Burst(asks, fails), DuringBurst(asks, fails), window, max, max + 1)
    decreases asks + fails
  {
    if fails > 0 {
      BurstIsPossible(asks, fails - 1, window, max);
      var before := DuringBurst(asks, fails - 1);
      if fails == 2 {
        OneMoreStep(QUIET, Burst(asks, 1), before, Tick(SECOND), window, max, max + 1);
        BurstIsInside(1, window);
        OneMoreStep(QUIET, Burst(asks, 1) + [Tick(SECOND)], before.(clock := SECOND), Fail(SECOND), window, max, max + 1);
      } else {
        BurstIsInside(fails - 1, window);
        OneMoreStep(QUIET, Burst(asks, fails - 1), before, Fail(if fails == 1 then 0 else SECOND), window, max, max + 1);
      }
    } else if asks > 0 {
      BurstIsPossible(asks - 1, 0, window, max);
      OneMoreStep(QUIET, Burst(asks - 1, 0), DuringBurst(asks - 1, 0), Ask(0), window, max, max + 1);
    }
  }

  // So overlapping requests reach a state in which the advertised wait is too short, for every maximum
  // and every window of more than a second.
  lemma OverlapMakesWaitTooShort(window: int, max: nat)
    requires window > SECOND && max > 0
    ensures var end := DuringBurst(max + 1, max + 1);
            && Overlapping(QUIET, Burst(max + 1, max + 1), end, window, max, max + 1)
            && end.admitted == 0 && end.clock == SECOND
            && |InWindow(end.history, SECOND, window)| > max
            && |InWindow(end.history, Advertised(end.history, SECOND, window), window)| >= max
  {
    hide Overlapping, Burst, InWindow, Advertised;
    BurstIsPossible(max + 1, max + 1, window, max);
    BurstIsInside(max + 1, window);
    OverfullWaitIsTooShort(BurstHits(max + 1), SECOND, window, max);
  }
}
