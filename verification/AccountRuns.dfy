/** Properties of arbitrarily long runs of requests on one account. */
module AccountRuns {
  import opened Prelude
  import opened Accounts

  datatype Transition = Transition(event: Event, at: Readings, outcome: Outcome, post: AccountState)

  type Trace = seq<Transition>

  function Final(s: AccountState, tr: Trace): AccountState {
    if |tr| == 0 then s else tr[|tr| - 1].post
  }

  ghost predicate Run(p: Policy, s: AccountState, tr: Trace) {
    |tr| == 0 ||
    var n := |tr| - 1;
    && Run(p, s, tr[..n])
    && Step(p, Final(s, tr[..n]), tr[n].event, tr[n].at, tr[n].outcome, tr[n].post)
  }

  /** The clock never goes back, within a request or between requests. */
  predicate Timed(since: int, tr: Trace) {
    |tr| == 0 ||
    var n := |tr| - 1;
    && Timed(since, tr[..n])
    && tr[n].at.Ordered()
    && LastReading(since, tr[..n]) <= tr[n].at.first
  }

  function LastReading(since: int, tr: Trace): int {
    if |tr| == 0 then since else tr[|tr| - 1].at.third
  }

  predicate Resets(o: Outcome) {
    o == LoggedIn || o == PasswordChanged
  }

  /** Login attempts that reached the password comparison and failed it. */
  function Guesses(tr: Trace): nat {
    if |tr| == 0 then 0
    else Guesses(tr[..|tr| - 1]) + if tr[|tr| - 1].outcome == InvalidCredentials then 1 else 0
  }

  /** The same count, restarted by every successful login and every password change. */
  function GuessesSinceReset(before: nat, tr: Trace): nat {
    if |tr| == 0 then before
    else if Resets(tr[|tr| - 1].outcome) then 0
    else GuessesSinceReset(before, tr[..|tr| - 1]) + if tr[|tr| - 1].outcome == InvalidCredentials then 1 else 0
  }

  function ResetCount(tr: Trace): nat {
    if |tr| == 0 then 0 else ResetCount(tr[..|tr| - 1]) + if Resets(tr[|tr| - 1].outcome) then 1 else 0
  }

  // ---------------------------------------------------------------- the lock

  /** The lock is set exactly when the counter has reached the limit, and lasts at least one
      lockout duration beyond the last failure (exactly that long when `exact`). */
  predicate LockInvariant(p: Policy, s: AccountState, exact: bool) {
    && (s.accountLockedUntil.Some? <==> s.failedLoginAttempts >= p.maxAttempts)
    && (s.accountLockedUntil.Some? ==>
      && s.lastFailedLogin.Some?
      && s.accountLockedUntil.value >= s.lastFailedLogin.value + p.Lockout()
      && (exact ==> s.accountLockedUntil.value == s.lastFailedLogin.value + p.Lockout()))
  }

  predicate OneReadingEach(tr: Trace) {
    forall i :: 0 <= i < |tr| ==> tr[i].at.first == tr[i].at.second == tr[i].at.third
  }

  /** The lock invariant holds in every reachable state, and the counter is the number of failed
      comparisons since the last success or password change. */
  lemma {:induction false} LockInvariantHolds(p: Policy, s: AccountState, tr: Trace, since: int, exact: bool)
    requires p.maxAttempts >= 1
    requires LockInvariant(p, s, exact)
    requires Run(p, s, tr) && Timed(since, tr)
    requires exact ==> OneReadingEach(tr)
    ensures LockInvariant(p, Final(s, tr), exact)
    ensures Final(s, tr).failedLoginAttempts == GuessesSinceReset(s.failedLoginAttempts, tr)
  {
    if |tr| > 0 {
      LockInvariantHolds(p, s, tr[..|tr| - 1], since, exact);
    }
  }

  // ---------------------------------------------------------------- the guess bound

  /** Guesses a state allows before every further failure locks the account. */
  function FreeGuesses(p: Policy, s: AccountState): nat {
    Max(1, p.maxAttempts - s.failedLoginAttempts)
  }

  function FreeAfterReset(p: Policy): nat {
    Max(1, p.maxAttempts)
  }

  /** The free guesses left after a run. */
  function FreeLeft(p: Policy, s: AccountState, tr: Trace): nat {
    if |tr| == 0 then FreeGuesses(p, s)
    else
      var before := FreeLeft(p, s, tr[..|tr| - 1]);
      var o := tr[|tr| - 1].outcome;
      if Resets(o) then FreeAfterReset(p) else if o == InvalidCredentials && before > 0 then before - 1 else before
  }

  /** All free guesses a run was ever granted: those of its first state, and those of every reset. */
  function Granted(p: Policy, s: AccountState, tr: Trace): nat {
    if |tr| == 0 then FreeGuesses(p, s)
    else Granted(p, s, tr[..|tr| - 1]) + if Resets(tr[|tr| - 1].outcome) then FreeAfterReset(p) else 0
  }

  lemma {:induction false} GrantedPerReset(p: Policy, s: AccountState, tr: Trace)
    ensures Granted(p, s, tr) == FreeGuesses(p, s) + ResetCount(tr) * FreeAfterReset(p)
  {
    if |tr| > 0 {
      GrantedPerReset(p, s, tr[..|tr| - 1]);
      OneMore(ResetCount(tr[..|tr| - 1]), FreeAfterReset(p));
    }
  }

  lemma OneMore(n: int, d: int)
    ensures (n + 1) * d == n * d + d
  {
  }

  /** Guesses that were paid for by waiting. */
  function Extra(p: Policy, s: AccountState, tr: Trace): int {
    Guesses(tr) + FreeLeft(p, s, tr) - Granted(p, s, tr)
  }

  /** Every guess beyond the granted ones took one whole lockout, and once no free guess is left the
      account is locked for one lockout more. */
  lemma {:induction false} GuessesPushTheLock(p: Policy, s: AccountState, tr: Trace, since: int)
    requires p.Lockout() > 0
    requires Run(p, s, tr) && Timed(since, tr)
    ensures since <= LastReading(since, tr)
    ensures Final(s, tr).failedLoginAttempts + FreeLeft(p, s, tr) >= p.maxAttempts
    ensures since + Extra(p, s, tr) * p.Lockout() <= LastReading(since, tr)
    ensures FreeLeft(p, s, tr) == 0 ==>
              && Final(s, tr).accountLockedUntil.Some?
              && Final(s, tr).accountLockedUntil.value >= since + (Extra(p, s, tr) + 1) * p.Lockout()
  {
    var d := p.Lockout();
    if |tr| == 0 {
      assert Extra(p, s, tr) == 0;
    } else {
      var before, t := tr[..|tr| - 1], tr[|tr| - 1];
      GuessesPushTheLock(p, s, before, since);
      var e := Extra(p, s, before);
      OneMore(e, d);
      OneMore(e + 1, d);
      if Resets(t.outcome) {
        ProductGrows(Extra(p, s, tr), e, d);
      } else if t.outcome == InvalidCredentials && FreeLeft(p, s, before) == 0 {
        assert Extra(p, s, tr) == e + 1;
        assert t.at.first >= since + (e + 1) * d;
      } else {
        assert Extra(p, s, tr) == e;
      }
    }
  }

  /** In any run that starts after `since` and spans at most `span` seconds, the attempts that reach
      the password comparison and fail it are at most the free guesses of the first state, the free
      guesses of every success or password change, and one per lockout duration. */
  lemma GuessBound(p: Policy, s: AccountState, tr: Trace, since: int, span: nat)
    requires p.Lockout() > 0
    requires Run(p, s, tr) && Timed(since, tr) && LastReading(since, tr) <= since + span
    ensures Guesses(tr) <= FreeGuesses(p, s) + ResetCount(tr) * FreeAfterReset(p) + span / p.Lockout()
  {
    GuessesPushTheLock(p, s, tr, since);
    GrantedPerReset(p, s, tr);
    QuotientBound(Extra(p, s, tr), p.Lockout(), span);
  }

  /** With the default settings a fresh account allows 5 guesses plus one every 30 minutes, as long as
      nobody logs in or changes the password. */
  lemma DefaultGuessBound(s: AccountState, tr: Trace, since: int, span: nat)
    requires s.failedLoginAttempts == 0 && ResetCount(tr) == 0
    requires Run(DEFAULT_POLICY, s, tr) && Timed(since, tr) && LastReading(since, tr) <= since + span
    ensures Guesses(tr) <= 5 + span / 1800
  {
    GuessBound(DEFAULT_POLICY, s, tr, since, span);
  }

  lemma QuotientBound(k: int, d: int, span: nat)
    requires d > 0
    requires k <= 0 || k * d <= span
    ensures k <= span / d
  {
    var q := span / d;
    assert span < (q + 1) * d;
    if k > q {
      ProductGrows(q + 1, k, d);
    }
  }

  lemma ProductGrows(a: int, b: int, d: nat)
    requires a <= b
    ensures a * d <= b * d
  {
  }

  /** A run of guesses, each by a wrong password, at the given single readings. */
  function Guess(p: Policy, s: AccountState, password: string, t: int): Transition {
    var r := Readings(t, t, t);
    Transition(Login(password), r, InvalidCredentials, AfterFailure(p, s, r))
  }

  /** The bound is attained: a guesser that waits for each lock to expire gets exactly that many. */
  lemma {:induction false} GuessBoundIsTight(p: Policy, s: AccountState, password: string, since: int, extra: nat)
      returns (tr: Trace)
    requires p.Lockout() > 0
    requires LockInvariant(p, s, false) && !Locked(s, since) && p.maxAttempts >= 1
    requires !CheckPassword(password, s.password)
    ensures Run(p, s, tr) && Timed(since, tr) && ResetCount(tr) == 0
    ensures LastReading(since, tr) == since + extra * p.Lockout()
    ensures Guesses(tr) == FreeGuesses(p, s) + extra
    ensures Final(s, tr).password == s.password
    ensures Final(s, tr).failedLoginAttempts == s.failedLoginAttempts + Guesses(tr)
    ensures Final(s, tr).accountLockedUntil == Some(since + extra * p.Lockout() + p.Lockout())
    decreases extra, FreeGuesses(p, s)
  {
    if extra == 0 {
      tr := FreeGuessesRun(p, s, password, since, FreeGuesses(p, s));
    } else {
      var before := GuessBoundIsTight(p, s, password, since, extra - 1);
      var t := Guess(p, Final(s, before), password, since + extra * p.Lockout());
      tr := before + [t];
      assert tr[..|tr| - 1] == before;
      assert since + extra * p.Lockout() == since + (extra - 1) * p.Lockout() + p.Lockout();
    }
  }

  lemma {:induction false} FreeGuessesRun(p: Policy, s: AccountState, password: string, since: int, n: nat)
      returns (tr: Trace)
    requires p.Lockout() > 0
    requires LockInvariant(p, s, false) && !Locked(s, since) && p.maxAttempts >= 1
    requires !CheckPassword(password, s.password)
    requires n <= FreeGuesses(p, s)
    ensures Run(p, s, tr) && Timed(since, tr) && ResetCount(tr) == 0
    ensures LastReading(since, tr) == since && Guesses(tr) == n
    ensures Final(s, tr).password == s.password
    ensures Final(s, tr).failedLoginAttempts == s.failedLoginAttempts + n
    ensures Final(s, tr).accountLockedUntil ==
            if n > 0 && s.failedLoginAttempts + n >= p.maxAttempts
            then Some(since + p.Lockout()) else s.accountLockedUntil
  {
    if n == 0 {
      tr := [];
    } else {
      var before := FreeGuessesRun(p, s, password, since, n - 1);
      tr := before + [Guess(p, Final(s, before), password, since)];
      assert tr[..|tr| - 1] == before;
    }
  }

  /** The positive lockout duration is needed: without one, any number of guesses fits one instant. */
  lemma {:induction false} NoLockoutNoBound(p: Policy, s: AccountState, password: string, since: int, n: nat)
      returns (tr: Trace)
    requires p.Lockout() <= 0 && !Locked(s, since) && !CheckPassword(password, s.password)
    ensures Run(p, s, tr) && Timed(since, tr) && ResetCount(tr) == 0
    ensures LastReading(since, tr) == since && Guesses(tr) == n
    ensures Final(s, tr).password == s.password && !Locked(Final(s, tr), since)
  {
    if n == 0 {
      tr := [];
    } else {
      var before := NoLockoutNoBound(p, s, password, since, n - 1);
      tr := before + [Guess(p, Final(s, before), password, since)];
      assert tr[..|tr| - 1] == before;
    }
  }

  // ---------------------------------------------------------------- passwords

  /** Every password the account has had during the run, oldest first. */
  function Passwords(s: AccountState, tr: Trace): seq<Option<string>> {
    if |tr| == 0 then [s.password.secret]
    else
      var before := Passwords(s, tr[..|tr| - 1]);
      if tr[|tr| - 1].outcome == PasswordChanged then before + [tr[|tr| - 1].post.password.secret] else before
  }

  function Secrets(hs: seq<Hash>): seq<Option<string>> {
    seq(|hs|, i requires 0 <= i < |hs| => hs[i].secret)
  }

  /** No password occurs twice in the history, the current one does not occur, and the history is
      never longer than the limit; so listing the `set` of hashes only reorders them. */
  ghost predicate HistoryInvariant(s: AccountState) {
    && s.history.Some?
    && |s.history.value| <= MAX_STORED_PASSWORDS
    && NoDuplicates(Secrets(s.history.value))
    && !InHistory(s, s.password.secret)
  }

  lemma ListingKeepsSecretsDistinct(ys: seq<Hash>, xs: seq<Hash>)
    requires ListsSet(ys, xs) && NoDuplicates(Secrets(xs))
    ensures NoDuplicates(Secrets(ys)) && |ys| == |xs|
  {
    forall i, j | 0 <= i < j < |ys| ensures Secrets(ys)[i] != Secrets(ys)[j] {
      assert ys[i] in xs && ys[j] in xs;
      var a :| 0 <= a < |xs| && xs[a] == ys[i];
      var b :| 0 <= b < |xs| && xs[b] == ys[j];
      assert a != b;
      assert Secrets(xs)[a] != Secrets(xs)[b];
    }
    forall i, j | 0 <= i < j < |xs| ensures xs[i] != xs[j] {
      assert Secrets(xs)[i] != Secrets(xs)[j];
    }
    DistinctCount(xs);
    DistinctCount(ys);
    assert Elements(xs) == Elements(ys);
  }

  lemma ChangeKeepsHistoryInvariant(s: AccountState, c: Change, s': AccountState)
    requires HistoryInvariant(s) && ChangeStep(s, c, PasswordChanged, s')
    requires Refusal(s, c).None?
    ensures HistoryInvariant(s')
    ensures s'.password.secret == Some(c.newPassword) != s.password.secret
    ensures !InHistory(s, s'.password.secret)
    ensures InHistory(s', s.password.secret)
    ensures |s.history.value| < MAX_STORED_PASSWORDS ==>
              |s'.history.value| == |s.history.value| + 1 &&
              forall x :: InHistory(s', x) <==> InHistory(s, x) || x == s.password.secret
    ensures forall x :: InHistory(s', x) ==> InHistory(s, x) || x == s.password.secret
  {
    var all := s.history.value + [Retired(s, c)];
    var kept := LastN(MAX_STORED_PASSWORDS, all);
    assert Retired(s, c).secret == s.password.secret;
    forall i, j | 0 <= i < j < |all| ensures all[i].secret != all[j].secret {
      if j < |s.history.value| {
        assert Secrets(s.history.value)[i] != Secrets(s.history.value)[j];
      } else {
        assert all[i] in s.history.value;
      }
    }
    assert NoDuplicates(Secrets(kept));
    ListingKeepsSecretsDistinct(s'.history.value, kept);
    assert kept[|kept| - 1] == Retired(s, c);
    assert Retired(s, c) in kept;
    assert |all| <= MAX_STORED_PASSWORDS ==> kept == all;
    forall x ensures InHistory(s', x) <==> exists h :: h in kept && h.secret == x {
    }
    forall h | h in kept ensures h in s.history.value || h == Retired(s, c) {
      assert h in all;
    }
    forall h | h in s.history.value ensures h in all {
    }
  }

  lemma {:induction false} HistoryInvariantHolds(p: Policy, s: AccountState, tr: Trace)
    requires HistoryInvariant(s) && Run(p, s, tr)
    ensures HistoryInvariant(Final(s, tr))
    ensures |Passwords(s, tr)| > 0 && Passwords(s, tr)[|Passwords(s, tr)| - 1] == Final(s, tr).password.secret
  {
    if |tr| > 0 {
      var n := |tr| - 1;
      HistoryInvariantHolds(p, s, tr[..n]);
      if tr[n].outcome == PasswordChanged {
        ChangeKeepsHistoryInvariant(Final(s, tr[..n]), tr[n].event.change, tr[n].post);
      } else {
        assert tr[n].post.password == Final(s, tr[..n]).password;
        assert tr[n].post.history == Final(s, tr[..n]).history;
      }
    }
  }

  /** Three consecutive passwords are always pairwise distinct. */
  lemma {:induction false} ThreeConsecutiveDiffer(p: Policy, s: AccountState, tr: Trace)
    requires HistoryInvariant(s) && Run(p, s, tr)
    ensures var ps := Passwords(s, tr);
            forall i :: 0 <= i < |ps| ==>
              && (i + 1 < |ps| ==> ps[i] != ps[i + 1])
              && (i + 2 < |ps| ==> ps[i] != ps[i + 2])
    ensures |Passwords(s, tr)| >= 2 ==> InHistory(Final(s, tr), Passwords(s, tr)[|Passwords(s, tr)| - 2])
  {
    if |tr| > 0 {
      var n := |tr| - 1;
      ThreeConsecutiveDiffer(p, s, tr[..n]);
      HistoryInvariantHolds(p, s, tr[..n]);
      if tr[n].outcome == PasswordChanged {
        ChangeKeepsHistoryInvariant(Final(s, tr[..n]), tr[n].event.change, tr[n].post);
      } else {
        assert tr[n].post.history == Final(s, tr[..n]).history;
      }
    }
  }

  /** Starting with an empty history, the first N + 2 passwords, twelve, are pairwise distinct. */
  lemma {:induction false} FirstPasswordsDiffer(p: Policy, s: AccountState, tr: Trace)
    requires s.history == Some([]) && Run(p, s, tr)
    ensures var ps := Passwords(s, tr);
            && (forall i, j :: 0 <= i < j < |ps| && j <= 11 ==> ps[i] != ps[j])
            && (|ps| <= 11 ==>
                && Final(s, tr).history.Some?
                && |Final(s, tr).history.value| == |ps| - 1
                && forall i :: 0 <= i < |ps| - 1 ==> InHistory(Final(s, tr), ps[i]))
  {
    assert HistoryInvariant(s);
    if |tr| > 0 {
      var n := |tr| - 1;
      FirstPasswordsDiffer(p, s, tr[..n]);
      HistoryInvariantHolds(p, s, tr[..n]);
      if tr[n].outcome == PasswordChanged {
        ChangeKeepsHistoryInvariant(Final(s, tr[..n]), tr[n].event.change, tr[n].post);
      } else {
        assert tr[n].post.history == Final(s, tr[..n]).history;
      }
    }
  }

  // ---------------------------------------------------------------- what a request answers

  /** A login succeeds exactly with the account's password and outside the lock; a wrong password
      outside the lock counts as one failure, and a locked account does not change at all. */
  lemma LoginSucceedsIff(p: Policy, s: AccountState, password: string, r: Readings, o: Outcome, s': AccountState)
    requires Step(p, s, Login(password), r, o, s')
    ensures var isLocked := s.accountLockedUntil.Some? && r.first < s.accountLockedUntil.value;
            && (o == LoggedIn <==> !isLocked && s.password.secret == Some(password))
            && (o == AccountLocked <==> isLocked)
            && (o == InvalidCredentials <==> !isLocked && s.password.secret != Some(password))
            && (isLocked ==> s' == s)
            && (o == LoggedIn ==> s'.failedLoginAttempts == 0 && s'.accountLockedUntil.None?)
            && (o == InvalidCredentials ==>
                  s'.failedLoginAttempts == s.failedLoginAttempts + 1 && s'.lastFailedLogin == Some(r.second))
    ensures s'.password == s.password && s'.history == s.history
    ensures o == LoggedIn ==> s'.lastFailedLogin == s.lastFailedLogin
  {
  }

  /** A password change goes through exactly when no checked lock is in force, the current password,
      if given, is right and comes with a new one, the new one is neither the current one nor in the
      history, which must exist, and the password validators accept it. */
  lemma ChangeGoesThroughIff(p: Policy, s: AccountState, lockChecked: bool, c: Change, r: Readings, o: Outcome,
                             s': AccountState)
    requires Step(p, s, ChangePassword(lockChecked, c), r, o, s')
    ensures o == PasswordChanged <==>
              && !(lockChecked && s.accountLockedUntil.Some? && r.first < s.accountLockedUntil.value)
              && (c.current != "" ==> s.password.secret == Some(c.current) && c.newPassword != "")
              && s.password.secret != Some(c.newPassword)
              && s.history.Some? && (forall h :: h in s.history.value ==> h.secret != Some(c.newPassword))
              && c.acceptable
    ensures o == AccountLocked <==> lockChecked && s.accountLockedUntil.Some? && r.first < s.accountLockedUntil.value
    ensures o != PasswordChanged ==> s' == s
  {
  }

  /** What a change stores: a hash of the new password; no failures and no lock; and in the history, as
      one of at most ten, the retired hash, made afresh from the current password if that was given. */
  lemma ChangeStores(p: Policy, s: AccountState, lockChecked: bool, c: Change, r: Readings, s': AccountState)
    requires Step(p, s, ChangePassword(lockChecked, c), r, PasswordChanged, s')
    ensures s'.password == Hash(Some(c.newPassword), c.newSalt)
    ensures s'.failedLoginAttempts == 0 && s'.accountLockedUntil.None? && s'.lastFailedLogin == s.lastFailedLogin
    ensures s'.history.Some? && |s'.history.value| <= 10
    ensures (if c.current != "" then Hash(Some(c.current), c.oldSalt) else s.password) in s'.history.value
  {
    ChangeGoesThroughIff(p, s, lockChecked, c, r, PasswordChanged, s');
    var kept := LastN(MAX_STORED_PASSWORDS, s.history.value + [Retired(s, c)]);
    assert kept[|kept| - 1] == Retired(s, c);
    var listed := s'.history.value;
    DistinctCount(listed);
    ElementsBound(kept);
    assert Elements(listed) == Elements(kept);
  }

  /** After a change, and until the next event, the new password logs in and no other does, whatever
      lock was in force before. */
  lemma ChangedPasswordLogsInIff(p: Policy, s: AccountState, lockChecked: bool, c: Change, r: Readings,
                                 changed: AccountState, password: string, later: Readings, o: Outcome, s': AccountState)
    requires Step(p, s, ChangePassword(lockChecked, c), r, PasswordChanged, changed)
    requires Step(p, changed, Login(password), later, o, s')
    ensures o == LoggedIn <==> password == c.newPassword
    ensures o == InvalidCredentials <==> password != c.newPassword
    ensures s'.failedLoginAttempts == if password == c.newPassword then 0 else 1
  {
    ChangeGoesThroughIff(p, s, lockChecked, c, r, PasswordChanged, changed);
  }

  /** With the default settings five guesses and one more every half hour are possible, too. */
  lemma DefaultGuessBoundIsTight(s: AccountState, password: string, since: int, extra: nat) returns (tr: Trace)
    requires s.failedLoginAttempts == 0 && s.accountLockedUntil.None? && s.password.secret != Some(password)
    ensures Run(DEFAULT_POLICY, s, tr) && Timed(since, tr) && ResetCount(tr) == 0
    ensures LastReading(since, tr) == since + extra * 1800
    ensures Guesses(tr) == 5 + extra
  {
    tr := GuessBoundIsTight(DEFAULT_POLICY, s, password, since, extra);
  }

  // ---------------------------------------------------------------- what the history forgets

  function ChangeTo(password: string): Change {
    Change("", password, 0, 0, true)
  }

  /** With a full history, the password listed first can return after one other. */
  lemma ListedFirstMayReturn(s: AccountState, other: string) returns (s1: AccountState, s2: AccountState)
    requires HistoryInvariant(s) && |s.history.value| == MAX_STORED_PASSWORDS && s.history.value[0].secret.Some?
    requires !InHistory(s, Some(other)) && s.password.secret != Some(other)
    ensures ChangeStep(s, ChangeTo(other), PasswordChanged, s1)
    ensures ChangeStep(s1, ChangeTo(s.history.value[0].secret.value), PasswordChanged, s2)
    ensures s2.password.secret == s.history.value[0].secret
  {
    var returning := s.history.value[0].secret;
    var h1 := LastN(MAX_STORED_PASSWORDS, s.history.value + [s.password]);
    FullHistoryCanStayInOrder(s, h1);
    s1 := AfterSuccess(s).(password := MakePassword(other, 0), history := Some(h1));
    ChangeKeepsHistoryInvariant(s, ChangeTo(other), s1);
    forall i | 0 <= i < |h1| ensures h1[i].secret != returning {
      if i < |h1| - 1 {
        assert Secrets(s.history.value)[0] != Secrets(s.history.value)[i + 1];
      } else {
        assert s.history.value[0] in s.history.value;
      }
    }
    assert !InHistory(s1, returning);
    var h2 := LastN(MAX_STORED_PASSWORDS, h1 + [s1.password]);
    FullHistoryCanStayInOrder(s1, h2);
    s2 := AfterSuccess(s1).(password := MakePassword(returning.value, 0), history := Some(h2));
  }

  /** With the victim last in line behind a full history, two further changes let it return: the
      fourth of four consecutive passwords can equal the first. */
  lemma FourthPasswordMayRepeat(s: AccountState, first: string, second: string)
      returns (s1: AccountState, s2: AccountState, s3: AccountState)
    requires HistoryInvariant(s) && |s.history.value| == MAX_STORED_PASSWORDS && s.password.secret.Some?
    requires !InHistory(s, Some(first)) && !InHistory(s, Some(second))
    requires s.password.secret != Some(first) && s.password.secret != Some(second) && first != second
    ensures ChangeStep(s, ChangeTo(first), PasswordChanged, s1)
    ensures ChangeStep(s1, ChangeTo(second), PasswordChanged, s2)
    ensures ChangeStep(s2, ChangeTo(s.password.secret.value), PasswordChanged, s3)
    ensures s3.password.secret == s.password.secret
  {
    var victim := s.password.secret.value;
    var kept := s.history.value[1..];
    assert LastN(MAX_STORED_PASSWORDS, s.history.value + [s.password]) == kept + [s.password];
    var h1 := [s.password] + kept;
    HistoryOrder(s, kept);
    assert ListsSet(h1, kept + [s.password]);
    s1 := AfterSuccess(s).(password := MakePassword(first, 0), history := Some(h1));
    assert ChangeStep(s, ChangeTo(first), PasswordChanged, s1);
    ChangeKeepsHistoryInvariant(s, ChangeTo(first), s1);
    assert !InHistory(s1, Some(second));

    var h2 := kept + [s1.password];
    assert LastN(MAX_STORED_PASSWORDS, h1 + [s1.password]) == h2;
    assert forall h :: h in kept ==> h in s.history.value;
    assert ListsSet(h2, h2);
    s2 := AfterSuccess(s1).(password := MakePassword(second, 0), history := Some(h2));
    assert ChangeStep(s1, ChangeTo(second), PasswordChanged, s2);
    assert !InHistory(s2, Some(victim));

    ChangeKeepsHistoryInvariant(s1, ChangeTo(second), s2);
    var h3 := LastN(MAX_STORED_PASSWORDS, h2 + [s2.password]);
    FullHistoryCanStayInOrder(s2, h3);
    s3 := AfterSuccess(s2).(password := MakePassword(victim, 0), history := Some(h3));
  }

  /** Listing the trimmed history in its own order is one way of listing its set. */
  lemma FullHistoryCanStayInOrder(s: AccountState, trimmed: seq<Hash>)
    requires HistoryInvariant(s) && |s.history.value| == MAX_STORED_PASSWORDS
    requires trimmed == LastN(MAX_STORED_PASSWORDS, s.history.value + [s.password])
    ensures ListsSet(trimmed, trimmed)
  {
    var h := s.history.value;
    forall i, j | 0 <= i < j < |trimmed| ensures trimmed[i] != trimmed[j] {
      if j < |trimmed| - 1 {
        assert Secrets(h)[i + 1] != Secrets(h)[j + 1];
      } else {
        assert trimmed[i] in h;
      }
    }
  }

  lemma HistoryOrder(s: AccountState, kept: seq<Hash>)
    requires HistoryInvariant(s) && |s.history.value| == MAX_STORED_PASSWORDS
    requires kept == s.history.value[1..]
    ensures NoDuplicates([s.password] + kept) && NoDuplicates(kept + [s.password])
    ensures forall h :: h in kept ==> h in s.history.value
  {
    forall i, j | 0 <= i < j < |kept| ensures kept[i] != kept[j] {
      assert Secrets(s.history.value)[i + 1] != Secrets(s.history.value)[j + 1];
    }
    forall h | h in kept ensures h != s.password && h in s.history.value {
    }
  }

  /** A password of n characters more than the account's first one, so a different one for each n. */
  function Longer(s: AccountState, n: nat): string
    requires s.password.secret.Some?
  {
    if n == 0 then s.password.secret.value else seq(|s.password.secret.value| + n, _ => 'a')
  }

  predicate Filled(s: AccountState, now: AccountState, n: nat)
    requires s.password.secret.Some?
  {
    && now.password.secret == Some(Longer(s, n))
    && now.history.Some? && |now.history.value| == n
    && forall i :: 0 <= i < n ==> now.history.value[i].secret == Some(Longer(s, i))
  }

  lemma LongerIsNew(s: AccountState, now: AccountState, n: nat, m: nat)
    requires s.password.secret.Some? && Filled(s, now, n) && n < m
    ensures !InHistory(now, Some(Longer(s, m))) && now.password.secret != Some(Longer(s, m))
  {
    assert forall i :: 0 <= i < m ==> |Longer(s, i)| < |Longer(s, m)|;
  }

  function Changed(password: string, t: int, post: AccountState): Transition {
    Transition(ChangePassword(false, ChangeTo(password)), Readings(t, t, t), PasswordChanged, post)
  }

  lemma RunWithChange(p: Policy, s: AccountState, tr: Trace, since: int, password: string, post: AccountState)
      returns (longer: Trace)
    requires Run(p, s, tr) && Timed(since, tr) && LastReading(since, tr) == since
    requires ChangeStep(Final(s, tr), ChangeTo(password), PasswordChanged, post)
    requires Refusal(Final(s, tr), ChangeTo(password)).None?
    ensures longer == tr + [Changed(password, since, post)]
    ensures Run(p, s, longer) && Timed(since, longer) && LastReading(since, longer) == since
    ensures Final(s, longer) == post
    ensures Passwords(s, longer) == Passwords(s, tr) + [Some(password)]
  {
    longer := tr + [Changed(password, since, post)];
    assert longer[..|longer| - 1] == tr;
  }

  /** One change, with the set of hashes listed in their old order. */
  lemma ChangeInOrder(s: AccountState, password: string) returns (post: AccountState)
    requires HistoryInvariant(s) && |s.history.value| < MAX_STORED_PASSWORDS
    requires !InHistory(s, Some(password)) && s.password.secret != Some(password)
    ensures ChangeStep(s, ChangeTo(password), PasswordChanged, post)
    ensures post.history == Some(s.history.value + [s.password]) && post.password.secret == Some(password)
  {
    var all := s.history.value + [s.password];
    forall i, j | 0 <= i < j < |all| ensures all[i] != all[j] {
      if j < |s.history.value| {
        assert Secrets(s.history.value)[i] != Secrets(s.history.value)[j];
      } else {
        assert all[i] in s.history.value;
      }
    }
    assert LastN(MAX_STORED_PASSWORDS, all) == all;
    post := AfterSuccess(s).(password := MakePassword(password, 0), history := Some(all));
  }

  /** n changes from an empty history, which fill it in order. */
  lemma {:induction false} FillingRun(p: Policy, s: AccountState, since: int, n: nat) returns (tr: Trace)
    requires s.history == Some([]) && s.password.secret.Some? && n <= MAX_STORED_PASSWORDS
    ensures Run(p, s, tr) && Timed(since, tr) && LastReading(since, tr) == since
    ensures |Passwords(s, tr)| == n + 1
    ensures forall i :: 0 <= i <= n ==> Passwords(s, tr)[i] == Some(Longer(s, i))
    ensures Filled(s, Final(s, tr), n)
  {
    if n == 0 {
      tr := [];
    } else {
      var before := FillingRun(p, s, since, n - 1);
      var filled := Final(s, before);
      assert HistoryInvariant(s);
      HistoryInvariantHolds(p, s, before);
      LongerIsNew(s, filled, n - 1, n);
      hide Longer;
      var post := ChangeInOrder(filled, Longer(s, n));
      tr := RunWithChange(p, s, before, since, Longer(s, n), post);
    }
  }

  /** N + 2 cannot be improved: from any empty history a run exists in which the account's first
      password returns after N + 1 others. */
  lemma FirstPasswordReturns(p: Policy, s: AccountState, since: int) returns (tr: Trace)
    requires s.history == Some([]) && s.password.secret.Some?
    ensures Run(p, s, tr) && Timed(since, tr)
    ensures |Passwords(s, tr)| == 13 && Passwords(s, tr)[12] == Passwords(s, tr)[0]
  {
    var n := MAX_STORED_PASSWORDS;
    var filling := FillingRun(p, s, since, n);
    assert HistoryInvariant(s);
    HistoryInvariantHolds(p, s, filling);
    var full := Final(s, filling);
    LongerIsNew(s, full, n, n + 1);
    var s1, s2 := ListedFirstMayReturn(full, Longer(s, n + 1));
    var other := RunWithChange(p, s, filling, since, Longer(s, n + 1), s1);
    tr := RunWithChange(p, s, other, since, Longer(s, 0), s2);
  }

  /** Three cannot be improved either: from any empty history a run exists in which a password
      returns after two others. */
  lemma PasswordReturnsAfterTwo(p: Policy, s: AccountState, since: int) returns (tr: Trace, i: nat)
    requires s.history == Some([]) && s.password.secret.Some?
    ensures Run(p, s, tr) && Timed(since, tr)
    ensures i + 3 < |Passwords(s, tr)| && Passwords(s, tr)[i] == Passwords(s, tr)[i + 3]
  {
    var n := MAX_STORED_PASSWORDS;
    var filling := FillingRun(p, s, since, n);
    assert HistoryInvariant(s);
    HistoryInvariantHolds(p, s, filling);
    var full := Final(s, filling);
    LongerIsNew(s, full, n, n + 1);
    LongerIsNew(s, full, n, n + 2);
    var s1, s2, s3 := FourthPasswordMayRepeat(full, Longer(s, n + 1), Longer(s, n + 2));
    var one := RunWithChange(p, s, filling, since, Longer(s, n + 1), s1);
    var two := RunWithChange(p, s, one, since, Longer(s, n + 2), s2);
    tr := RunWithChange(p, s, two, since, Longer(s, n), s3);
    i := n;
  }

  /** An account whose history row is missing never changes its password, although the source has a
      branch that would create the row. */
  lemma {:induction false} NoHistoryNoChange(p: Policy, s: AccountState, tr: Trace)
    requires s.history.None? && Run(p, s, tr)
    ensures Final(s, tr).password == s.password && Final(s, tr).history.None?
    ensures forall i :: 0 <= i < |tr| ==> tr[i].outcome != PasswordChanged
  {
    if |tr| > 0 {
      NoHistoryNoChange(p, s, tr[..|tr| - 1]);
    }
  }
}
