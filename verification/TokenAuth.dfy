/** API-token validation with a per-token backoff after repeated failures. */
module TokenAuth {
  import opened Common

  const MIN_TOKEN_LENGTH := 32
  const MAX_FAILED_ATTEMPTS_CACHE := 1000
  const FAILED_ATTEMPT_TTL_SECONDS := 3600.0
  const MAX_FAILED_ATTEMPTS := 5
  const BACKOFF_BASE_SECONDS := 1.0
  const BACKOFF_MAX_SECONDS := 16.0

  /** A row of the failure table. */
  datatype Failures = Failures(attempts: nat, last: real)

  function Power2(n: nat): nat {
    if n == 0 then 1 else 2 * Power2(n - 1)
  }

  /** Seconds a token with this many failures has to wait. */
  function Backoff(attempts: nat): real
    requires attempts >= MAX_FAILED_ATTEMPTS
  {
    var b := BACKOFF_BASE_SECONDS * Power2(attempts - MAX_FAILED_ATTEMPTS) as real;
    if b < BACKOFF_MAX_SECONDS then b else BACKOFF_MAX_SECONDS
  }

  /** Still waiting at time `now`. */
  predicate Limited(failed: map<string, Failures>, h: string, now: real) {
    h in failed && failed[h].attempts >= MAX_FAILED_ATTEMPTS && now - failed[h].last < Backoff(failed[h].attempts)
  }

  /** Less time than that has passed since the last failure. */
  ghost predicate Within(failed: map<string, Failures>, h: string, now: real, seconds: real) {
    h in failed && now - failed[h].last < seconds
  }

  /** Who has to wait: min(2^m, 16) seconds after the last of 5 + m failures, and nobody with fewer than five. */
  ghost predicate MustWait(failed: map<string, Failures>, h: string, now: real) {
    h in failed &&
    var n := failed[h].attempts;
    || (n == 5 && Within(failed, h, now, 1.0))
    || (n == 6 && Within(failed, h, now, 2.0))
    || (n == 7 && Within(failed, h, now, 4.0))
    || (n == 8 && Within(failed, h, now, 8.0))
    || (n >= 9 && Within(failed, h, now, 16.0))
  }

  lemma {:induction false} BackoffValues(attempts: nat)
    requires attempts >= 5
    ensures Backoff(attempts) == if attempts == 5 then 1.0 else if attempts == 6 then 2.0
                                 else if attempts == 7 then 4.0 else if attempts == 8 then 8.0 else 16.0
  {
    assert Power2(0) == 1 && Power2(1) == 2 && Power2(2) == 4 && Power2(3) == 8;
    if attempts >= 9 {
      PowerAtLeast(attempts - 5);
    }
  }

  lemma {:induction false} LimitedIff(failed: map<string, Failures>, h: string, now: real)
    ensures Limited(failed, h, now) <==> MustWait(failed, h, now)
  {
    hide Backoff;
    if h in failed && failed[h].attempts >= 5 {
      BackoffValues(failed[h].attempts);
    }
  }

  // ---------------------------------------------------------------- spacing of failures

  /** The times of successive evaluated failures: from the sixth on, each waits out the backoff. */
  ghost predicate Spaced(times: seq<real>) {
    && (forall i :: 0 < i < |times| ==> times[i - 1] <= times[i])
    && (forall i :: MAX_FAILED_ATTEMPTS <= i < |times| ==> times[i - 1] + Backoff(i) <= times[i])
  }

  /** Sum of min(2^i, 16) for i below m. */
  function TotalWait(m: nat): real {
    if m == 0 then 0.0
    else TotalWait(m - 1) + if Power2(m - 1) < 16 then Power2(m - 1) as real else 16.0
  }

  /** The (5+m)-th evaluated failure comes at least that long after the fifth. */
  lemma {:induction false} SpacedAddsUp(times: seq<real>, m: nat)
    requires Spaced(times) && MAX_FAILED_ATTEMPTS - 1 + m < |times|
    ensures times[MAX_FAILED_ATTEMPTS - 1 + m] >= times[MAX_FAILED_ATTEMPTS - 1] + TotalWait(m)
    decreases m
  {
    if m > 0 {
      SpacedAddsUp(times, m - 1);
      var i := MAX_FAILED_ATTEMPTS - 1 + m;
      assert times[i - 1] + Backoff(i) <= times[i];
    }
  }

  lemma {:induction false} PowerAtLeast(n: nat)
    requires n >= 4
    ensures Power2(n) >= 16
    decreases n
  {
    if n > 4 {
      PowerAtLeast(n - 1);
    } else {
      assert Power2(3) == 8 && Power2(2) == 4 && Power2(1) == 2;
    }
  }

  /** The total wait: doubling for four failures, then sixteen seconds each. */
  lemma {:induction false} TotalWaitClosed(m: nat)
    ensures TotalWait(0) == 0.0 && TotalWait(1) == 1.0 && TotalWait(2) == 3.0 && TotalWait(3) == 7.0
    ensures m >= 4 ==> TotalWait(m) == 15.0 + 16.0 * (m - 4) as real
    decreases m
  {
    assert Power2(0) == 1 && Power2(1) == 2 && Power2(2) == 4 && Power2(3) == 8;
    assert TotalWait(4) == TotalWait(3) + 8.0;
    if m > 4 {
      TotalWaitClosed(m - 1);
      PowerAtLeast(m - 1);
    }
  }

  // ---------------------------------------------------------------- table eviction

  ghost predicate OldestFailure(failed: map<string, Failures>, h: string) {
    h in failed && forall k :: k in failed ==> failed[h].last <= failed[k].last
  }

  /** Rows whose last failure is more than an hour old. */
  function StaleFailures(failed: map<string, Failures>, now: real): set<string> {
    set h | h in failed && now - failed[h].last > FAILED_ATTEMPT_TTL_SECONDS
  }

  /** A table with room is left alone; a full one loses its stale rows, or its oldest row. */
  ghost predicate Trimmed(failed: map<string, Failures>, now: real, r: map<string, Failures>) {
    if |failed.Keys| < 1000 then r == failed
    else if exists h :: h in failed && now - failed[h].last > 3600.0
    then r == map h | h in failed && now - failed[h].last <= 3600.0 :: failed[h]
    else exists o :: OldestFailure(failed, o) && r == failed - {o}
  }

  lemma {:induction false} StaleRowsGone(failed: map<string, Failures>, now: real)
    ensures StaleFailures(failed, now) != {} <==> exists h :: h in failed && now - failed[h].last > 3600.0
    ensures failed - StaleFailures(failed, now) == map h | h in failed && now - failed[h].last <= 3600.0 :: failed[h]
  {
    if h :| h in failed && now - failed[h].last > 3600.0 {
      assert h in StaleFailures(failed, now);
    }
  }

  lemma {:induction false} TrimmedSize(failed: map<string, Failures>, now: real, r: map<string, Failures>)
    requires Trimmed(failed, now, r) && |failed.Keys| <= MAX_FAILED_ATTEMPTS_CACHE
    ensures |r.Keys| < MAX_FAILED_ATTEMPTS_CACHE
    ensures r.Keys <= failed.Keys && forall h :: h in r ==> r[h] == failed[h]
  {
    StaleRowsGone(failed, now);
    if |failed.Keys| >= MAX_FAILED_ATTEMPTS_CACHE {
      var stale := StaleFailures(failed, now);
      if stale != {} {
        assert r.Keys == failed.Keys - stale && stale <= failed.Keys;
        assert |failed.Keys - stale| == |failed.Keys| - |stale|;
      } else {
        var o :| OldestFailure(failed, o) && r == failed - {o};
        assert r.Keys == failed.Keys - {o};
      }
    }
  }

  // ---------------------------------------------------------------- what every operation keeps

  ghost predicate Injective(f: string -> string) {
    forall x, y :: f(x) == f(y) ==> x == y
  }

  /** The evaluated failures behind every row, since the row was created. */
  type Streaks = map<string, seq<real>>

  ghost predicate Explained(failed: map<string, Failures>, streaks: Streaks, clock: real) {
    forall h :: h in failed ==>
      && h in streaks && |streaks[h]| == failed[h].attempts >= 1
      && failed[h].last == streaks[h][|streaks[h]| - 1] <= clock
      && Spaced(streaks[h])
  }

  /** The streak of a hash after one more evaluated failure. */
  function Extended(r: map<string, Failures>, streaks: Streaks, h: string, now: real): seq<real> {
    if h in r && h in streaks then streaks[h] + [now] else [now]
  }

  lemma {:induction false} ExtendedSpaced(r: map<string, Failures>, streaks: Streaks, clock: real, h: string, checked: real, now: real)
    requires Explained(r, streaks, clock) && clock <= checked <= now && !Limited(r, h, checked)
    ensures Spaced(Extended(r, streaks, h, now))
  {
    if h in r {
      var s := streaks[h];
      var t := s + [now];
      forall i | MAX_FAILED_ATTEMPTS <= i < |t| ensures t[i - 1] + Backoff(i) <= t[i] {
        if i < |s| {
          assert s[i - 1] + Backoff(i) <= s[i];
        }
      }
    }
  }

  lemma {:induction false} ExplainedNext(r: map<string, Failures>, streaks: Streaks, clock: real, h: string, checked: real, now: real)
    requires Explained(r, streaks, clock) && clock <= checked <= now && !Limited(r, h, checked)
    ensures
      var s := Extended(r, streaks, h, now);
      Explained(r[h := Failures(|s|, now)], streaks[h := s], now)
  {
    hide Spaced;
    ExtendedSpaced(r, streaks, clock, h, checked, now);
  }

  /** While no row was evicted, a streak is the whole history. */
  ghost predicate Tracks(history: Streaks, failed: map<string, Failures>, streaks: Streaks) {
    history.Keys == failed.Keys && forall h :: h in history ==> h in streaks && history[h] == streaks[h]
  }

  function Recorded(history: Streaks, h: string, now: real): Streaks {
    history[h := (if h in history then history[h] else []) + [now]]
  }

  lemma {:induction false} TracksNext(history: Streaks, failed: map<string, Failures>, streaks: Streaks, h: string, now: real, row: Failures)
    requires Tracks(history, failed, streaks) && (h in failed ==> h in streaks)
    ensures Tracks(Recorded(history, h, now), failed[h := row], streaks[h := Extended(failed, streaks, h, now)])
  {
  }

  /** The streak behind a row is the end of its history. */
  ghost predicate EndsHistory(failed: map<string, Failures>, streaks: Streaks, history: Streaks) {
    forall h :: h in failed ==> h in streaks && h in history && Ends(streaks[h], history[h])
  }

  predicate Ends(s: seq<real>, t: seq<real>) {
    |s| <= |t| && s == t[|t| - |s|..]
  }

  lemma {:induction false} EndsNext(s: seq<real>, t: seq<real>, x: real)
    ensures Ends(s, t) ==> Ends(s + [x], t + [x])
    ensures Ends([x], t + [x])
  {
    if Ends(s, t) {
      assert (t + [x])[|t| - |s|..] == t[|t| - |s|..] + [x];
    }
  }

  lemma {:induction false} EndsHistoryNext(failed: map<string, Failures>, streaks: Streaks, history: Streaks, h: string, now: real,
                                           row: Failures)
    requires EndsHistory(failed, streaks, history)
    ensures EndsHistory(failed[h := row], streaks[h := Extended(failed, streaks, h, now)], Recorded(history, h, now))
  {
    hide Ends;
    if h in failed {
      EndsNext(streaks[h], history[h], now);
    }
    EndsNext([], if h in history then history[h] else [], now);
    assert [] + [now] == [now];
  }

  /** The table is bounded and every row is explained by its token's latest failures, which were spaced out. */
  ghost predicate TableSound(failed: map<string, Failures>, streaks: Streaks, history: Streaks, everFull: bool, clock: real) {
    && |failed.Keys| <= MAX_FAILED_ATTEMPTS_CACHE
    && Explained(failed, streaks, clock) && EndsHistory(failed, streaks, history)
    && (!everFull ==> Tracks(history, failed, streaks))
  }

  predicate Full(failed: map<string, Failures>) {
    |failed.Keys| >= MAX_FAILED_ATTEMPTS_CACHE
  }

  function NextRow(failed: map<string, Failures>, h: string, now: real): Failures {
    if h !in failed then Failures(1, now) else Failures(failed[h].attempts + 1, now)
  }

  /** The new table: trimmed if it was full, with one more failure in the row of `h` and behind it. */
  ghost predicate FailureRecorded(before: map<string, Failures>, streaks: Streaks, h: string, evictNow: real, now: real,
                                  after: map<string, Failures>, streaksAfter: Streaks) {
    exists r :: Trimmed(before, evictNow, r) && after == r[h := NextRow(r, h, now)]
                && streaksAfter == streaks[h := Extended(r, streaks, h, now)]
  }

  /** Everything one more evaluated failure does to the table and to what is known about it. */
  lemma {:induction false} TableAfterFailure(before: map<string, Failures>, trimmed: map<string, Failures>, streaks: Streaks,
                          history: Streaks, everFull: bool, clock: real, h: string, checked: real, evictNow: real,
                          now: real)
    requires TableSound(before, streaks, history, everFull, clock)
    requires Trimmed(before, evictNow, trimmed) && !Limited(before, h, checked) && clock <= checked <= now
    ensures
      var failed, next := trimmed[h := NextRow(trimmed, h, now)], streaks[h := Extended(trimmed, streaks, h, now)];
      && TableSound(failed, next, Recorded(history, h, now), everFull || Full(before), now)
      && failed.Keys <= before.Keys + {h}
      && FailureRecorded(before, streaks, h, evictNow, now, failed, next)
  {
    hide Explained, Limited, Trimmed, Tracks, Recorded, Ends;
    TrimmedSize(before, evictNow, trimmed);
    FewerRows(before, trimmed, streaks, clock, h, checked);
    RowMatchesStreak(trimmed, streaks, clock, h);
    ExplainedNext(trimmed, streaks, clock, h, checked, now);
    var row := NextRow(trimmed, h, now);
    EndsHistoryNext(trimmed, streaks, history, h, now, row);
    assert row == Failures(|Extended(trimmed, streaks, h, now)|, now);
    assert trimmed[h := row].Keys == trimmed.Keys + {h};
    if !everFull && !Full(before) {
      NothingTrimmed(before, evictNow, trimmed);
      TracksNext(history, trimmed, streaks, h, now, row);
    }
  }

  /** The stored hashes are those of the registered tokens. */
  ghost predicate HashesOf(hashes: set<string>, tokens: set<string>, hash: string -> string) {
    && (forall t :: t in tokens ==> hash(t) in hashes)
    && (forall h :: h in hashes ==> exists t :: t in tokens && hash(t) == h)
  }

  class TokenAuth {
    const enterprise: bool
    const hash: string -> string
    var tokenHashes: set<string>
    var failed: map<string, Failures>

    /** Registered tokens; the failures behind each row; all evaluated failures ever; whether a row was
        ever evicted; the latest clock reading. */
    ghost var registered: set<string>
    ghost var streaks: Streaks
    ghost var history: Streaks
    ghost var everFull: bool
    ghost var clock: real

    ghost predicate ValidTable()
      reads this
    {
      && Injective(hash)
      && HashesOf(tokenHashes, registered, hash)
      && (enterprise ==> forall t :: t in registered ==> |t| >= MIN_TOKEN_LENGTH)
      && TableSound(failed, streaks, history, everFull, clock)
    }

    /** In addition, no registered token has failures. */
    ghost predicate Valid()
      reads this
    {
      ValidTable() && failed.Keys !! tokenHashes
    }

    constructor (tokens: seq<string>, enterprise: bool, hash: string -> string)
      requires Injective(hash)
      ensures Valid() && failed == map[] && streaks == map[] && history == map[] && !everFull && clock == 0.0
      ensures this.enterprise == enterprise && this.hash == hash
      ensures forall t :: t in registered <==> t in tokens && Acceptable(t)
    {
      this.enterprise, this.hash := enterprise, hash;
      tokenHashes, failed, registered := {}, map[], {};
      streaks, history, everFull, clock := map[], map[], false, 0.0;
      new;
      LoadTokens(tokens);
    }

    /** Registers tokens one by one, as at start-up. */
    method LoadTokens(tokens: seq<string>)
      requires Valid() && failed == map[]
      modifies this`tokenHashes, this`registered
      ensures Valid()
      ensures forall t :: t in registered <==> t in old(registered) || (t in tokens && Acceptable(t))
    {
      hide TableSound, Injective, HashesOf, Acceptable;
      for i := 0 to |tokens|
        invariant Valid() && failed == map[]
        invariant forall t :: t in registered <==> t in old(registered) || (t in tokens[..i] && Acceptable(t))
      {
        assert tokens[..i + 1] == tokens[..i] + [tokens[i]];
        AddToken(tokens[i]);
      }
      assert tokens[..|tokens|] == tokens;
    }

    predicate Acceptable(token: string) {
      |token| >= 4 && (enterprise ==> |token| >= 32)
    }

    /** Registers a token. No registered token has failures afterwards exactly when this one has none;
        at start-up the table is empty. */
    method AddToken(token: string)
      requires Valid()
      modifies this`tokenHashes, this`registered
      ensures ValidTable()
      ensures registered == old(registered) + if Acceptable(token) then {token} else {}
      ensures Valid() <==> !(Acceptable(token) && hash(token) in failed)
    {
      hide TableSound, Injective;
      if token == "" || |token| < 4 {
        return;
      }
      if enterprise && |token| < MIN_TOKEN_LENGTH {
        return;
      }
      var h := hash(token);
      registered := registered + {token};
      if h in tokenHashes {
        return;
      }
      tokenHashes := tokenHashes + {h};
    }

    /** The seconds left to wait, if any. */
    method CheckBruteForce(h: string, now: real) returns (wait: Option<real>)
      ensures wait.Some? <==> MustWait(failed, h, now)
      // the time that is left: not a moment less, and never more than it can be
      ensures wait.Some? ==> 0.0 < wait.value && !MustWait(failed, h, now + wait.value)
      ensures wait.Some? ==> forall t :: now <= t < now + wait.value ==> MustWait(failed, h, t)
      ensures wait.Some? && failed[h].last <= now ==> wait.value <= 16.0
    {
      LimitedIff(failed, h, now);
      if h in failed && failed[h].attempts >= 5 {
        BackoffValues(failed[h].attempts);
      }
      hide Backoff;
      if h !in failed {
        return None;
      }
      var entry := failed[h];
      if entry.attempts < MAX_FAILED_ATTEMPTS {
        return None;
      }
      var backoff := Backoff(entry.attempts);
      var elapsed := now - entry.last;
      if elapsed < backoff {
        return Some(backoff - elapsed);
      }
      return None;
    }

    method Oldest() returns (o: string)
      requires failed.Keys != {}
      ensures OldestFailure(failed, o)
    {
      o :| o in failed;
      var rest := failed.Keys - {o};
      while rest != {}
        invariant rest <= failed.Keys && o in failed
        invariant forall k :: k in failed && k !in rest ==> failed[o].last <= failed[k].last
        decreases rest
      {
        var k :| k in rest;
        if failed[k].last < failed[o].last {
          o := k;
        }
        rest := rest - {k};
      }
    }

    method EvictStaleFailuresIfNeeded(now: real)
      modifies this`failed
      ensures Trimmed(old(failed), now, failed)
    {
      StaleRowsGone(failed, now);
      if |failed.Keys| < MAX_FAILED_ATTEMPTS_CACHE {
        return;
      }
      var stale := StaleFailures(failed, now);
      if stale != {} {
        var rest := stale;
        assert stale - rest == {} && failed - {} == failed;
        while rest != {}
          invariant rest <= stale && failed == old(failed) - (stale - rest)
          decreases rest
        {
          var k :| k in rest;
          assert failed - {k} == old(failed) - (stale - (rest - {k}));
          failed := failed - {k};
          rest := rest - {k};
        }
        assert stale - {} == stale;
        return;
      }
      var oldest := Oldest();
      failed := failed - {oldest};
    }

    /** Counts one more evaluated failure, `checked` being the reading of the backoff check. */
    method RecordFailure(h: string, ghost checked: real, evictNow: real, now: real)
      requires ValidTable() && clock <= checked <= evictNow <= now && !Limited(failed, h, checked)
      modifies this`failed, this`streaks, this`history, this`everFull, this`clock
      ensures ValidTable() && failed.Keys <= old(failed).Keys + {h}
      ensures clock == now && (old(everFull) ==> everFull)
      ensures everFull <==> old(everFull) || |old(failed).Keys| >= 1000
      ensures history == Recorded(old(history), h, now)
      ensures FailureRecorded(old(failed), old(streaks), h, evictNow, now, failed, streaks)
    {
      hide TableSound, Limited, Trimmed, Injective, HashesOf, Recorded, Extended, NextRow, FailureRecorded;
      ghost var before := failed;
      EvictStaleFailuresIfNeeded(evictNow);
      TableAfterFailure(before, failed, streaks, history, everFull, clock, h, checked, evictNow, now);
      ghost var s := Extended(failed, streaks, h, now);
      var row := NextRow(failed, h, now);
      failed := failed[h := row];
      history, streaks := Recorded(history, h, now), streaks[h := s];
      everFull := everFull || Full(before);
      clock := now;
    }

    /** One request. `checked`, `evictNow` and `now` are its successive clock readings. */
    method Validate(token: string, devMode: bool, checked: real, evictNow: real, now: real) returns (ok: bool)
      requires Valid() && clock <= checked <= evictNow <= now
      modifies this`failed, this`streaks, this`history, this`everFull, this`clock
      ensures Valid() && (old(everFull) ==> everFull)
      // a registered token is always accepted, and nothing else outside development mode
      ensures ok <==> token in registered ||
                      (!enterprise && registered == {} && devMode && !MustWait(old(failed), hash(token), checked))
      // a rejected token that is not waiting out a backoff has been evaluated, and that is all that is counted
      ensures
        var h := hash(token);
        if ok || MustWait(old(failed), h, checked)
        then
          && failed == old(failed) && streaks == old(streaks) && history == old(history) && clock == old(clock)
          && everFull == old(everFull)
        else
          && history == Recorded(old(history), h, now) && clock == now
          && (everFull <==> old(everFull) || |old(failed).Keys| >= 1000)
          && FailureRecorded(old(failed), old(streaks), h, evictNow, now, failed, streaks)
    {
      hide TableSound, Limited, FailureRecorded, Recorded;
      var h := hash(token);
      KnownByHash(tokenHashes, registered, hash, token);
      LimitedIff(failed, h, checked);
      hide MustWait;
      var wait := CheckBruteForce(h, checked);
      if wait.Some? {
        assert h in failed by { LimitedHasRow(failed, h, checked); }
        return false;
      }
      if enterprise {
        if tokenHashes == {} {
          RecordFailure(h, checked, evictNow, now);
          return false;
        }
        if |token| < MIN_TOKEN_LENGTH {
          RecordFailure(h, checked, evictNow, now);
          return false;
        }
        if h in tokenHashes {
          ClearFailures(h);
          return true;
        }
        RecordFailure(h, checked, evictNow, now);
        return false;
      }
      if tokenHashes == {} {
        if devMode {
          return true;
        }
        RecordFailure(h, checked, evictNow, now);
        return false;
      }
      if h in tokenHashes {
        ClearFailures(h);
        return true;
      }
      RecordFailure(h, checked, evictNow, now);
      return false;
    }

    method ClearFailures(h: string)
      requires Valid() && h in tokenHashes
      modifies this`failed
      ensures failed == old(failed)
    {
      hide TableSound, Injective, HashesOf;
      assert failed - {h} == failed;
      failed := failed - {h};
    }
  }

  lemma {:induction false} NothingTrimmed(failed: map<string, Failures>, now: real, r: map<string, Failures>)
    requires Trimmed(failed, now, r) && |failed.Keys| < MAX_FAILED_ATTEMPTS_CACHE
    ensures r == failed
  {
  }

  lemma {:induction false} FewerRows(failed: map<string, Failures>, r: map<string, Failures>, streaks: Streaks, clock: real, h: string,
                  checked: real)
    requires Explained(failed, streaks, clock) && !Limited(failed, h, checked)
    requires r.Keys <= failed.Keys && forall k :: k in r ==> r[k] == failed[k]
    ensures Explained(r, streaks, clock) && !Limited(r, h, checked)
  {
    hide Spaced;
  }

  lemma {:induction false} RowMatchesStreak(failed: map<string, Failures>, streaks: Streaks, clock: real, h: string)
    requires Explained(failed, streaks, clock)
    ensures forall k :: k in failed ==> k in streaks && |streaks[k]| == failed[k].attempts
  {
  }

  lemma {:induction false} LimitedHasRow(failed: map<string, Failures>, h: string, now: real)
    requires Limited(failed, h, now)
    ensures h in failed
  {
  }

  lemma {:induction false} KnownByHash(hashes: set<string>, tokens: set<string>, hash: string -> string, token: string)
    requires Injective(hash) && HashesOf(hashes, tokens, hash)
    ensures hash(token) in hashes <==> token in tokens
    ensures hashes == {} <==> tokens == {}
  {
    if hash(token) in hashes {
      var t :| t in tokens && hash(t) == hash(token);
    }
    if tokens != {} {
      var t :| t in tokens;
      assert hash(t) in hashes;
    }
  }

  /** Whatever was evicted: when a row counts 5+m failures, the token's last evaluated failure comes at least the
      backoff sum after the m-th one before it. */
  lemma {:induction false} RowIsSlowedDown(auth: TokenAuth, h: string, m: nat)
    requires auth.ValidTable() && h in auth.failed && auth.failed[h].attempts == MAX_FAILED_ATTEMPTS + m
    ensures h in auth.history && |auth.history[h]| >= MAX_FAILED_ATTEMPTS + m
    ensures
      var times := auth.history[h];
      && auth.failed[h].last == times[|times| - 1]
      && times[|times| - 1] >= times[|times| - 1 - m] + TotalWait(m)
  {
    hide TotalWait, Spaced;
    SpacedAddsUp(auth.streaks[h], m);
  }

  /** A token that failed once and is registered afterwards has a failure on record. */
  method RegisterAfterFailure(hash: string -> string) returns (auth: TokenAuth)
    requires Injective(hash)
    ensures auth.ValidTable() && !auth.Valid() && "wrong" in auth.registered && hash("wrong") in auth.failed
  {
    hide TableSound, Injective, HashesOf, Trimmed;
    auth := new TokenAuth([], false, hash);
    var ok := auth.Validate("wrong", false, 0.0, 0.0, 0.0);
    assert FailureRecorded(map[], map[], hash("wrong"), 0.0, 0.0, auth.failed, auth.streaks);
    auth.AddToken("wrong");
  }

  /** Over any run in which the failure table never filled, all evaluated attempts with one wrong token
      are spaced by the growing backoff. */
  lemma {:induction false} WrongTokenIsSlowedDown(auth: TokenAuth, h: string, m: nat)
    requires auth.Valid() && !auth.everFull && h in auth.history
    requires MAX_FAILED_ATTEMPTS - 1 + m < |auth.history[h]|
    ensures auth.history[h][MAX_FAILED_ATTEMPTS - 1 + m]
         >= auth.history[h][MAX_FAILED_ATTEMPTS - 1] + TotalWait(m)
  {
    hide TotalWait, Spaced;
    SpacedAddsUp(auth.history[h], m);
  }
}
