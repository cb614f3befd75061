/**
  The security fields of an account: failed-login counter, lock, password and password history.

  `AccountUser` and `PreviousPasswords` are the mutable objects; `AccountState` is the value of
  those fields. Every request handler is a method proved against a relation on `AccountState`,
  and the lemmas of `AccountRuns` speak about arbitrarily long runs of that relation.
 */
module Accounts {
  import opened Prelude

  const DEFAULT_MAX_LOGIN_ATTEMPTS := 5
  const DEFAULT_LOCKOUT_DURATION_MINUTES := 30
  const MAX_STORED_PASSWORDS := 10

  /** Settings of the lockout; times are in seconds. */
  datatype Policy = Policy(maxAttempts: int, lockoutMinutes: int) {
    function Lockout(): int { 60 * lockoutMinutes }
  }

  const DEFAULT_POLICY := Policy(DEFAULT_MAX_LOGIN_ATTEMPTS, DEFAULT_LOCKOUT_DURATION_MINUTES)

  /** An ideal salted hash; `secret == None` is Django's unusable password. */
  datatype Hash = Hash(secret: Option<string>, salt: nat)

  predicate CheckPassword(password: string, h: Hash) {
    h.secret == Some(password)
  }

  function MakePassword(password: string, salt: nat): Hash {
    Hash(Some(password), salt)
  }

  /** The clock readings one request makes, in the order it makes them. */
  datatype Readings = Readings(first: int, second: int, third: int) {
    predicate Ordered() { first <= second <= third }
  }

  datatype AccountState = AccountState(
    password: Hash,
    failedLoginAttempts: nat,
    lastFailedLogin: Option<int>,
    accountLockedUntil: Option<int>,
    history: Option<seq<Hash>>)

  /** `newSalt` and `oldSalt` are the salts drawn by the two hashings of a password change,
      `acceptable` the verdict of Django's password validators on the new password. */
  datatype Change = Change(current: string, newPassword: string, newSalt: nat, oldSalt: nat, acceptable: bool)

  datatype Event =
    | Login(password: string)
    | ChangePassword(lockChecked: bool, change: Change)

  datatype Outcome =
    | AccountLocked
    | InvalidCredentials
    | LoggedIn
    | IncorrectPassword
    | NewPasswordRequired
    | PasswordReused
    | HistoryMissing
    | PolicyRejected
    | PasswordChanged

  // ---------------------------------------------------------------- specification

  predicate Locked(s: AccountState, now: int) {
    s.accountLockedUntil.Some? && s.accountLockedUntil.value > now
  }

  function AfterFailure(p: Policy, s: AccountState, r: Readings): AccountState {
    s.(lastFailedLogin := Some(r.second),
       failedLoginAttempts := s.failedLoginAttempts + 1,
       accountLockedUntil := if s.failedLoginAttempts + 1 >= p.maxAttempts
                             then Some(r.third + p.Lockout()) else s.accountLockedUntil)
  }

  function AfterSuccess(s: AccountState): AccountState {
    s.(failedLoginAttempts := 0, accountLockedUntil := None)
  }

  ghost predicate LoginStep(p: Policy, s: AccountState, password: string, r: Readings, o: Outcome, s': AccountState) {
    if Locked(s, r.first) then o == AccountLocked && s' == s
    else if !CheckPassword(password, s.password) then o == InvalidCredentials && s' == AfterFailure(p, s, r)
    else o == LoggedIn && s' == AfterSuccess(s)
  }

  /** `ys` lists the elements of `set(xs)`, once each and in some order. */
  ghost predicate ListsSet<T(!new)>(ys: seq<T>, xs: seq<T>) {
    && NoDuplicates(ys)
    && forall x :: x in ys <==> x in xs
  }

  ghost predicate InHistory(s: AccountState, secret: Option<string>) {
    s.history.Some? && exists h :: h in s.history.value && h.secret == secret
  }

  /** Why `change_password` refuses, or None when it goes through. */
  ghost function Refusal(s: AccountState, c: Change): Option<Outcome> {
    if c.current != "" && !CheckPassword(c.current, s.password) then Some(IncorrectPassword)
    else if c.current != "" && c.newPassword == "" then Some(NewPasswordRequired)
    else if CheckPassword(c.newPassword, s.password) then Some(PasswordReused)
    else if s.history.None? then Some(HistoryMissing)
    else if InHistory(s, Some(c.newPassword)) then Some(PasswordReused)
    else if !c.acceptable then Some(PolicyRejected)
    else None
  }

  function LastN<T>(n: nat, xs: seq<T>): seq<T> {
    if |xs| > n then xs[|xs| - n..] else xs
  }

  /** The hash that goes into the history. */
  function Retired(s: AccountState, c: Change): Hash {
    if c.current != "" then MakePassword(c.current, c.oldSalt) else s.password
  }

  ghost predicate ChangeStep(s: AccountState, c: Change, o: Outcome, s': AccountState) {
    if Refusal(s, c).Some? then o == Refusal(s, c).value && s' == s
    else
      && o == PasswordChanged
      && s.history.Some?
      && s'.history.Some?
      && ListsSet(s'.history.value, LastN(MAX_STORED_PASSWORDS, s.history.value + [Retired(s, c)]))
      && s' == AfterSuccess(s).(password := MakePassword(c.newPassword, c.newSalt), history := s'.history)
  }

  ghost predicate Step(p: Policy, s: AccountState, e: Event, r: Readings, o: Outcome, s': AccountState) {
    match e
    case Login(password) => LoginStep(p, s, password, r, o, s')
    case ChangePassword(lockChecked, c) =>
      if lockChecked && Locked(s, r.first) then o == AccountLocked && s' == s
      else ChangeStep(s, c, o, s')
  }

  // ---------------------------------------------------------------- objects

  /** `list(set(xs))`: the order in which a set is listed is arbitrary. */
  method ListOfSet<T(!new, ==)>(xs: seq<T>) returns (ys: seq<T>)
    ensures ListsSet(ys, xs)
  {
    var rest := set x | x in xs;
    ys := [];
    while rest != {}
      invariant NoDuplicates(ys)
      invariant forall x :: x in xs <==> x in ys || x in rest
      invariant forall x :: x in ys ==> x !in rest
      decreases rest
    {
      var x :| x in rest;
      rest := rest - {x};
      ys := ys + [x];
    }
  }

  lemma {:induction false} SomeListing<T(!new)>(xs: seq<T>) returns (ys: seq<T>)
    ensures ListsSet(ys, xs)
  {
    if |xs| == 0 {
      ys := [];
    } else {
      var n := |xs| - 1;
      ys := SomeListing(xs[..n]);
      if xs[n] !in ys {
        ys := ys + [xs[n]];
      }
    }
  }

  /** What nothing refuses can be done. */
  lemma SomeChange(s: AccountState, c: Change) returns (post: AccountState)
    requires Refusal(s, c).None?
    ensures ChangeStep(s, c, PasswordChanged, post)
  {
    var listed := SomeListing(LastN(MAX_STORED_PASSWORDS, s.history.value + [Retired(s, c)]));
    post := AfterSuccess(s).(password := MakePassword(c.newPassword, c.newSalt), history := Some(listed));
  }

  class PreviousPasswords {
    var passwords: seq<Hash>

    constructor (passwords: seq<Hash>)
      ensures this.passwords == passwords
    {
      this.passwords := passwords;
    }

    method Save()
      modifies this
      ensures ListsSet(passwords, old(passwords))
    {
      passwords := ListOfSet(passwords);
    }

    method AddPassword(hash: Hash, maxHistory: nat)
      modifies this
      ensures ListsSet(passwords, Prepended(old(passwords), hash, maxHistory))
    {
      if hash !in passwords {
        passwords := [hash] + passwords;
      }
      passwords := if |passwords| > maxHistory then passwords[..maxHistory] else passwords;
      Save();
    }
  }

  function Prepended(xs: seq<Hash>, h: Hash, n: nat): seq<Hash> {
    var all := if h in xs then xs else [h] + xs;
    if |all| > n then all[..n] else all
  }

  /** `add_password` keeps at most n hashes. It keeps the added one exactly when n allows it: a new
      hash goes first, but a known one stays where it was and may be cut off. */
  lemma AddedPasswordIsKeptIff(xs: seq<Hash>, h: Hash, n: nat, after: seq<Hash>)
    requires ListsSet(after, Prepended(xs, h, n))
    ensures |after| <= n
    ensures h in after <==> (if h in xs then h in LeadingN(n, xs) else n > 0)
  {
    var kept := Prepended(xs, h, n);
    DistinctCount(after);
    assert Elements(after) == Elements(kept);
    ElementsBound(kept);
    assert h !in xs && n > 0 ==> kept[0] == h;
  }

  function LeadingN(n: nat, xs: seq<Hash>): seq<Hash> {
    if |xs| > n then xs[..n] else xs
  }

  class AccountUser {
    var password: Hash
    var failedLoginAttempts: nat
    var lastFailedLogin: Option<int>
    var accountLockedUntil: Option<int>
    var previousPasswords: PreviousPasswords?

    ghost function State(): AccountState
      reads this, previousPasswords
    {
      AccountState(password, failedLoginAttempts, lastFailedLogin, accountLockedUntil,
                   if previousPasswords == null then None else Some(previousPasswords.passwords))
    }

    /** Loads a stored row. */
    constructor (row: AccountState)
      ensures State() == row
      ensures previousPasswords != null ==> fresh(previousPasswords)
    {
      password, failedLoginAttempts := row.password, row.failedLoginAttempts;
      lastFailedLogin, accountLockedUntil := row.lastFailedLogin, row.accountLockedUntil;
      if row.history.Some? {
        previousPasswords := new PreviousPasswords(row.history.value);
      } else {
        previousPasswords := null;
      }
    }

    /** The row to store. */
    method Row() returns (row: AccountState)
      ensures row == State()
    {
      var h: Option<seq<Hash>> := None;
      if previousPasswords != null {
        h := Some(previousPasswords.passwords);
      }
      row := AccountState(password, failedLoginAttempts, lastFailedLogin, accountLockedUntil, h);
    }
  }

  method CheckAccountLockout(user: AccountUser, now: int) returns (locked: bool)
    ensures locked == Locked(user.State(), now)
  {
    locked := user.accountLockedUntil.Some? && user.accountLockedUntil.value > now;
  }

  method HandleFailedLogin(p: Policy, user: AccountUser, r: Readings)
    modifies user`lastFailedLogin, user`failedLoginAttempts, user`accountLockedUntil
    ensures user.State() == AfterFailure(p, old(user.State()), r)
  {
    user.lastFailedLogin := Some(r.second);
    user.failedLoginAttempts := user.failedLoginAttempts + 1;
    if user.failedLoginAttempts >= p.maxAttempts {
      user.accountLockedUntil := Some(r.third + p.Lockout());
    }
  }

  method HandleSuccessfulLogin(user: AccountUser)
    modifies user`failedLoginAttempts, user`accountLockedUntil
    ensures user.State() == AfterSuccess(old(user.State()))
  {
    user.failedLoginAttempts := 0;
    user.accountLockedUntil := None;
  }

  method HandleUserLogin(p: Policy, user: AccountUser, password: string, r: Readings) returns (o: Outcome)
    modifies user`lastFailedLogin, user`failedLoginAttempts, user`accountLockedUntil
    ensures Step(p, old(user.State()), Login(password), r, o, user.State())
  {
    var locked := CheckAccountLockout(user, r.first);
    if locked {
      return AccountLocked;
    }
    if !CheckPassword(password, user.password) {
      HandleFailedLogin(p, user, r);
      return InvalidCredentials;
    }
    HandleSuccessfulLogin(user);
    o := LoggedIn;
  }

  method ValidateCurrentPassword(current: string, newPassword: string, user: AccountUser)
      returns (error: Option<Outcome>)
    ensures error == if !CheckPassword(current, user.password) then Some(IncorrectPassword)
                     else if newPassword == "" then Some(NewPasswordRequired)
                     else if CheckPassword(newPassword, user.password) then Some(PasswordReused)
                     else None
  {
    if !CheckPassword(current, user.password) {
      return Some(IncorrectPassword);
    }
    if newPassword == "" {
      return Some(NewPasswordRequired);
    }
    if CheckPassword(newPassword, user.password) {
      return Some(PasswordReused);
    }
    error := None;
  }

  method ValidateNewPassword(newPassword: string, acceptable: bool, user: AccountUser) returns (error: Option<Outcome>)
    ensures error == if CheckPassword(newPassword, user.password) then Some(PasswordReused)
                     else if user.previousPasswords == null then Some(HistoryMissing)
                     else if InHistory(user.State(), Some(newPassword)) then Some(PasswordReused)
                     else if !acceptable then Some(PolicyRejected)
                     else None
  {
    if CheckPassword(newPassword, user.password) {
      return Some(PasswordReused);
    }
    if user.previousPasswords == null {
      return Some(HistoryMissing);
    }
    var passwords := user.previousPasswords.passwords;
    for i := 0 to |passwords|
      invariant forall h :: h in passwords[..i] ==> h.secret != Some(newPassword)
    {
      if CheckPassword(newPassword, passwords[i]) {
        return Some(PasswordReused);
      }
    }
    assert passwords[..|passwords|] == passwords;
    error := if acceptable then None else Some(PolicyRejected);
  }

  /** The body of `change_password`; the member view passes `lockChecked`. */
  method DoChangePassword(p: Policy, user: AccountUser, lockChecked: bool, c: Change, r: Readings) returns (o: Outcome)
    modifies user`password, user`failedLoginAttempts, user`accountLockedUntil, user.previousPasswords
    ensures Step(p, old(user.State()), ChangePassword(lockChecked, c), r, o, user.State())
  {
    if lockChecked {
      var locked := CheckAccountLockout(user, r.first);
      if locked {
        return AccountLocked;
      }
    }
    if c.current != "" {
      var refused := ValidateCurrentPassword(c.current, c.newPassword, user);
      if refused.Some? {
        return refused.value;
      }
    }
    var refused := ValidateNewPassword(c.newPassword, c.acceptable, user);
    if refused.Some? {
      return refused.value;
    }
    assert Refusal(old(user.State()), c).None?;
    hide Refusal, InHistory, ListsSet;
    var retired := if c.current != "" then MakePassword(c.current, c.oldSalt) else user.password;
    user.password := MakePassword(c.newPassword, c.newSalt);
    user.failedLoginAttempts := 0;
    user.accountLockedUntil := None;
    var previous := user.previousPasswords;
    previous.passwords := previous.passwords + [retired];
    if |previous.passwords| > MAX_STORED_PASSWORDS {
      previous.passwords := previous.passwords[|previous.passwords| - MAX_STORED_PASSWORDS..];
    }
    previous.Save();
    o := PasswordChanged;
  }
}
