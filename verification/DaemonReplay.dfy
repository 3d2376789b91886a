/** Replay of any log, whatever its records: exactly when it fails, and what it answers otherwise, read off the log. */
module DaemonReplay {
  import opened Common
  import opened Registry
  import opened Daemon
  import opened DaemonRuns

  predicate Registers(rec: LogRecord) {
    rec.IntentRegistered? && rec.intent.Some?
  }

  predicate Renews(rec: LogRecord) {
    rec.IntentRenewed? && rec.expiresAt.Some?
  }

  /** The session is closed behind the log: it was closed and not registered since. */
  ghost predicate ClosedBehind(log: seq<LogRecord>) {
    exists k :: 0 <= k < |log| && log[k].SessionClosed? && forall j :: k < j < |log| ==> !log[j].IntentRegistered?
  }

  /** Record `k` is the last registration. */
  ghost predicate LastRegistration(log: seq<LogRecord>, k: nat) {
    k < |log| && Registers(log[k]) && forall j :: k < j < |log| ==> !Registers(log[j])
  }

  /** The expiry after the registration at place `k` is that of the last renewal behind it, or its own. */
  ghost predicate ExpiryIs(log: seq<LogRecord>, k: nat, expiresAt: U64)
    requires k < |log| && Registers(log[k])
  {
    || (expiresAt == log[k].intent.value.expiresAt && forall j :: k < j < |log| ==> !Renews(log[j]))
    || exists m :: k < m < |log| && Renews(log[m]) && log[m].expiresAt.value == expiresAt
         && forall j :: m < j < |log| ==> !Renews(log[j])
  }

  /** The id was discovered and is not forgotten: the session was not closed since, and if it was closed at the time it
      was not registered since. */
  ghost predicate Discovered(log: seq<LogRecord>, c: nat) {
    exists k :: 0 <= k < |log| && Remembered(log, k, c)
  }

  ghost predicate Remembered(log: seq<LogRecord>, k: nat, c: nat)
    requires k < |log|
  {
    && log[k] == CgroupDiscovered(Some(c))
    && (forall j :: k < j < |log| ==> !log[j].SessionClosed?)
    && (ClosedBehind(log[..k]) ==> forall j :: k < j < |log| ==> !log[j].IntentRegistered?)
  }

  /** A log can be replayed unless a registration in it has no intent. */
  lemma {:induction false} ReplayFailsExactly(log: seq<LogRecord>)
    ensures ReplayAll(log).None? <==> exists k :: 0 <= k < |log| && log[k] == IntentRegistered(None)
    decreases |log|
  {
    if log != [] {
      var n := |log| - 1;
      ReplayFailsExactly(log[..n]);
      if k :| 0 <= k < |log| && log[k] == IntentRegistered(None) {
        if k < n { assert log[..n][k] == log[k]; }
      }
    }
  }

  // ---------------------------------------------------------------- one more record

  lemma ClosedSnoc(log: seq<LogRecord>, rec: LogRecord)
    ensures ClosedBehind(log + [rec]) <==> rec.SessionClosed? || (ClosedBehind(log) && !rec.IntentRegistered?)
  {
    var all, n := log + [rec], |log|;
    assert all[n] == rec;
    if ClosedBehind(log) && !rec.IntentRegistered? {
      var k :| 0 <= k < |log| && log[k].SessionClosed? && forall j :: k < j < |log| ==> !log[j].IntentRegistered?;
      assert all[k].SessionClosed?;
    }
    if ClosedBehind(all) && !rec.SessionClosed? {
      var k :| 0 <= k < |all| && all[k].SessionClosed? && forall j :: k < j < |all| ==> !all[j].IntentRegistered?;
      assert log[k].SessionClosed?;
      forall j | k < j < |log| ensures !log[j].IntentRegistered? { assert all[j] == log[j]; }
    }
  }

  lemma RememberedSnoc(log: seq<LogRecord>, rec: LogRecord, k: nat, c: nat)
    requires k < |log|
    ensures Remembered(log + [rec], k, c) <==>
      Remembered(log, k, c) && !rec.SessionClosed? && (ClosedBehind(log[..k]) ==> !rec.IntentRegistered?)
  {
    var all := log + [rec];
    hide ClosedBehind;
    assert all[..k] == log[..k] && all[|log|] == rec && all[k] == log[k];
    if Remembered(all, k, c) {
      forall j | k < j < |log| ensures !log[j].SessionClosed? { assert all[j] == log[j]; }
      if ClosedBehind(log[..k]) {
        forall j | k < j < |log| ensures !log[j].IntentRegistered? { assert all[j] == log[j]; }
      }
    }
  }

  /** What is remembered although the log is closed behind it was discovered while it was closed. */
  lemma RememberedClosed(log: seq<LogRecord>, k: nat, c: nat)
    requires k < |log| && Remembered(log, k, c) && !(exists j :: k < j < |log| && log[j].IntentRegistered?)
    ensures ClosedBehind(log[..k]) <==> ClosedBehind(log)
  {
    if ClosedBehind(log[..k]) {
      var i :| 0 <= i < k && log[..k][i].SessionClosed? && forall j :: i < j < k ==> !log[..k][j].IntentRegistered?;
      forall j | i < j < |log| ensures !log[j].IntentRegistered? {
        if j < k { assert log[j] == log[..k][j]; }
      }
      assert log[i].SessionClosed?;
    }
    if ClosedBehind(log) {
      var i :| 0 <= i < |log| && log[i].SessionClosed? && forall j :: i < j < |log| ==> !log[j].IntentRegistered?;
      assert i < k;
      assert log[..k][i].SessionClosed?;
    }
  }

  lemma RememberedSinceRegistered(log: seq<LogRecord>, k: nat, c: nat, i: nat)
    requires k < i < |log| && Remembered(log, k, c) && log[i].IntentRegistered?
    ensures !ClosedBehind(log)
  {
    forall m | 0 <= m < |log| && log[m].SessionClosed?
      ensures exists j :: m < j < |log| && log[j].IntentRegistered?
    {
      assert m < i;
    }
  }

  lemma DiscoveredSnoc(log: seq<LogRecord>, rec: LogRecord, c: nat)
    ensures Discovered(log + [rec], c) <==>
      rec == CgroupDiscovered(Some(c)) ||
      (Discovered(log, c) && !rec.SessionClosed? && (ClosedBehind(log) ==> !rec.IntentRegistered?))
  {
    var all, n := log + [rec], |log|;
    assert all[n] == rec;
    hide Remembered, ClosedBehind;
    assert Remembered(all, n, c) <==> rec == CgroupDiscovered(Some(c)) by { LastRemembered(all, c); }
    if Discovered(all, c) && rec != CgroupDiscovered(Some(c)) {
      var k :| 0 <= k < |all| && Remembered(all, k, c);
      RememberedSnoc(log, rec, k, c);
      BehindRemembered(log, k, c);
    }
    if Discovered(log, c) {
      var k :| 0 <= k < |log| && Remembered(log, k, c);
      RememberedSnoc(log, rec, k, c);
      BehindRemembered(log, k, c);
    }
  }

  lemma LastRemembered(log: seq<LogRecord>, c: nat)
    requires log != []
    ensures Remembered(log, |log| - 1, c) <==> log[|log| - 1] == CgroupDiscovered(Some(c))
  {
  }

  lemma BehindRemembered(log: seq<LogRecord>, k: nat, c: nat)
    requires k < |log| && Remembered(log, k, c)
    ensures ClosedBehind(log) ==> ClosedBehind(log[..k])
    ensures ClosedBehind(log[..k]) ==> ClosedBehind(log)
  {
    if i :| k < i < |log| && log[i].IntentRegistered? {
      RememberedSinceRegistered(log, k, c, i);
    } else {
      RememberedClosed(log, k, c);
    }
  }

  // ---------------------------------------------------------------- what a replay answers

  lemma {:induction false} ReplayedClosed(log: seq<LogRecord>)
    requires ReplayAll(log).Some?
    ensures ReplayAll(log).value.closed <==> ClosedBehind(log)
    decreases |log|
  {
    if log != [] {
      var before, rec := log[..|log| - 1], log[|log| - 1];
      assert log == before + [rec];
      ReplayedClosed(before);
      ClosedSnoc(before, rec);
      hide ClosedBehind;
    }
  }

  lemma {:induction false} ReplayedIds(log: seq<LogRecord>, c: nat)
    requires ReplayAll(log).Some?
    ensures c in ReplayAll(log).value.ids <==> Discovered(log, c)
    decreases |log|
  {
    if log != [] {
      var before, rec := log[..|log| - 1], log[|log| - 1];
      assert log == before + [rec];
      ReplayedIds(before, c);
      ReplayedClosed(before);
      DiscoveredSnoc(before, rec, c);
      hide Discovered, ClosedBehind;
    }
  }

  lemma {:induction false} ReplayedIntent(log: seq<LogRecord>)
    requires ReplayAll(log).Some?
    ensures ReplayAll(log).value.intent.None? <==> forall k :: 0 <= k < |log| ==> !Registers(log[k])
    ensures ReplayAll(log).value.intent.Some? ==> IntentIs(log, ReplayAll(log).value.intent.value)
    decreases |log|
  {
    if log != [] {
      var before, rec := log[..|log| - 1], log[|log| - 1];
      assert log == before + [rec];
      ReplayedIntent(before);
      var p := ReplayAll(before).value;
      if Registers(rec) {
        assert LastRegistration(log, |log| - 1) && ExpiryIs(log, |log| - 1, rec.intent.value.expiresAt);
      } else {
        forall k | 0 <= k < |before| ensures Registers(log[k]) <==> Registers(before[k]) {}
        if p.intent.Some? { IntentSnoc(before, rec, p.intent.value); }
      }
    }
  }

  /** The intent of the last registration, with the expiry of the last renewal behind it. */
  ghost predicate IntentIs(log: seq<LogRecord>, intent: Intent) {
    exists k: nat :: LastRegistration(log, k) && IntentAt(log, k, intent)
  }

  ghost predicate IntentAt(log: seq<LogRecord>, k: nat, intent: Intent)
    requires k < |log| && Registers(log[k])
  {
    intent == log[k].intent.value.(expiresAt := intent.expiresAt) && ExpiryIs(log, k, intent.expiresAt)
  }

  lemma IntentSnoc(log: seq<LogRecord>, rec: LogRecord, intent: Intent)
    requires IntentIs(log, intent) && !Registers(rec)
    ensures IntentIs(log + [rec], if Renews(rec) then intent.(expiresAt := rec.expiresAt.value) else intent)
  {
    var all, n := log + [rec], |log|;
    assert all[n] == rec;
    var k: nat :| LastRegistration(log, k) && IntentAt(log, k, intent);
    assert all[k] == log[k];
    forall j | 0 <= j < n ensures all[j] == log[j] {}
    assert LastRegistration(all, k);
    if !Renews(rec) && !(forall j :: k < j < n ==> !Renews(log[j])) {
      var m :| k < m < |log| && Renews(log[m]) && log[m].expiresAt.value == intent.expiresAt
        && forall j :: m < j < |log| ==> !Renews(log[j]);
      assert Renews(all[m]);
    }
    assert ExpiryIs(all, k, if Renews(rec) then rec.expiresAt.value else intent.expiresAt);
    assert IntentAt(all, k, if Renews(rec) then intent.(expiresAt := rec.expiresAt.value) else intent);
  }

  /** Replay, exactly, of any log at any time: it fails if and only if a registration has no intent; it answers a
      session if and only if one was registered, the session is not closed behind the log, and its expiry still lies
      ahead; and then with the intent of the last registration as renewed since and, in ascending order, exactly the ids
      that were discovered and are not forgotten. */
  lemma ReplayExactly(log: seq<LogRecord>, now: nat)
    ensures Replay(log, now).None? <==> exists k :: 0 <= k < |log| && log[k] == IntentRegistered(None)
    ensures Replay(log, now).Some? ==>
      var answer := Replay(log, now).value;
      && (answer.Some? <==>
            !ClosedBehind(log) && exists intent :: IntentIs(log, intent) && intent.expiresAt > now)
      && (answer.Some? ==>
            && IntentIs(log, answer.value.intent)
            && StrictlySorted(answer.value.ids)
            && forall c :: c in answer.value.ids <==> Discovered(log, c))
  {
    ReplayFailsExactly(log);
    if ReplayAll(log).Some? {
      ReplayedClosed(log);
      ReplayedIntent(log);
      var p := ReplayAll(log).value;
      forall c ensures c in p.ids <==> Discovered(log, c) { ReplayedIds(log, c); }
      hide ReplayAll, Discovered, ClosedBehind, IntentAt;
      if p.intent.None? {
        forall intent ensures !IntentIs(log, intent) {}
      } else {
        forall intent | IntentIs(log, intent) ensures intent == p.intent.value {
          OneIntent(log, intent, p.intent.value);
        }
      }
    }
  }

  /** A log says one intent only. */
  lemma OneIntent(log: seq<LogRecord>, a: Intent, b: Intent)
    requires IntentIs(log, a) && IntentIs(log, b)
    ensures a == b
  {
    var k: nat :| LastRegistration(log, k) && IntentAt(log, k, a);
    var m: nat :| LastRegistration(log, m) && IntentAt(log, m, b);
    assert k == m;
    OneExpiry(log, k, a.expiresAt, b.expiresAt);
  }

  lemma OneExpiry(log: seq<LogRecord>, k: nat, a: U64, b: U64)
    requires k < |log| && Registers(log[k]) && ExpiryIs(log, k, a) && ExpiryIs(log, k, b)
    ensures a == b
  {
  }
}
