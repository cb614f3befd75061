/**
  The account-security requests of all users over one database: accounts, one-time verification
  records and the ledger of minted JSON Web Tokens.

  `SecurityService` holds the tables; each view is a method proved against the relation `Serves`.
  A token is genuine exactly when the ledger holds it, which stands for an ideal signature, and
  its `jti` is its position in the ledger, which stands for a fresh UUID.
 */
module SecuritySystem {
  import opened Prelude
  import opened Accounts

  const OTP_MAX_LENGTH := 5
  const VALIDITY_WINDOW := 2 * 3600

  /** Lifetimes are in seconds; `normalize` is Django's normalisation of e-mail addresses. */
  datatype Config = Config(
    policy: Policy,
    accessLifetime: int,
    extendedLifetime: int,
    refreshLifetime: int,
    normalize: string -> string)

  function DefaultConfig(normalize: string -> string): Config {
    Config(DEFAULT_POLICY, 3600, 6 * 3600, 7 * 86400, normalize)
  }

  /** An account is identified by its unique e-mail address, as stored. */
  type UserId = string

  datatype Account = Account(
    security: AccountState,
    phoneNumber: string,
    isPhoneVerified: bool,
    isVerified: bool,
    isActive: bool,
    primaryCluster: Option<string>,
    clusters: set<string>)

  // ---------------------------------------------------------------- verification records

  datatype Mode = Otp | WebToken | Sms
  datatype Reason = PasswordReset | Onboarding | Resend | EmailVerification | PhoneVerification | ProfileUpdate
  datatype NotificationEvent = OtpEvent(reason: Reason) | TokenEvent(reason: Reason)

  datatype Record = Record(
    otp: Option<string>,
    token: Option<string>,
    event: NotificationEvent,
    requestedAt: int,
    requestedBy: UserId,
    isUsed: bool)
  {
    predicate IsExpired(now: int) {
      isUsed || now > requestedAt + VALIDITY_WINDOW
    }
  }

  /** `for_mode`: no web token exists for phone verification. */
  function NewRecord(mode: Mode, reason: Reason, code: string, user: UserId, now: int): Option<Record> {
    match mode
    case WebToken =>
      if reason == PhoneVerification then None
      else Some(Record(None, Some(code), TokenEvent(reason), now, user, false))
    case _ => Some(Record(Some(code), None, OtpEvent(reason), now, user, false))
  }

  /** What a client presents: plain text, or a token signed under the salt of a notification event. */
  datatype Key = Plain(text: string) | Signed(token: string, salt: NotificationEvent)

  predicate KeyMatches(key: Key, salt: NotificationEvent, r: Record) {
    match key
    case Plain(text) => if |text| <= OTP_MAX_LENGTH then r.otp == Some(text) else r.token == Some(text)
    case Signed(token, s) => s == salt && r.token == Some(token)
  }

  /** How a view looks a record up: by key, and for some views only among one user's records. */
  datatype Query = ByKey(key: Key, salt: NotificationEvent) | ByOtp(otp: string) {
    predicate Matches(who: Option<UserId>, r: Record) {
      && !r.isUsed
      && (who.Some? ==> r.requestedBy == who.value)
      && match this
         case ByKey(key, salt) => KeyMatches(key, salt, r)
         case ByOtp(otp) => r.otp == Some(otp)
    }
  }

  /** `filter(...).first()` under the ordering "most recent request first"; ties are open. */
  ghost predicate IsFirst(records: seq<Record>, q: Query, who: Option<UserId>, found: Option<nat>) {
    match found
    case None => forall i :: 0 <= i < |records| ==> !q.Matches(who, records[i])
    case Some(k) =>
      && k < |records|
      && q.Matches(who, records[k])
      && forall i :: 0 <= i < |records| && q.Matches(who, records[i]) ==>
           records[i].requestedAt <= records[k].requestedAt
  }

  function Use(records: seq<Record>, k: nat): seq<Record>
    requires k < |records|
  {
    records[k := records[k].(isUsed := true)]
  }

  // ---------------------------------------------------------------- tokens

  datatype Kind = Access | Refresh

  datatype Token = Token(kind: Kind, user: UserId, cluster: Option<string>, iat: int, exp: int, jti: nat)

  /** One call of `generate_token`; `parent` is the mint whose refresh token was exchanged for it. */
  datatype Mint = Mint(access: Token, refresh: Token, parent: Option<nat>)

  /** Python truthiness of an optional string. */
  function Truthy(o: Option<string>): Option<string> {
    if o == Some("") then None else o
  }

  function GenerateToken(cfg: Config, user: UserId, cluster: Option<string>, expiry: Option<int>, now: int, jti: nat,
                         parent: Option<nat>): Mint
  {
    var lifetime := if expiry.Some? && expiry.value != 0 then expiry.value else cfg.accessLifetime;
    Mint(Token(Access, user, Truthy(cluster), now, now + lifetime, jti),
         Token(Refresh, user, Truthy(cluster), now, now + cfg.refreshLifetime, jti),
         parent)
  }

  predicate Genuine(mints: seq<Mint>, t: Token) {
    t.jti < |mints| && (t == mints[t.jti].access || t == mints[t.jti].refresh)
  }

  predicate Decodes(mints: seq<Mint>, t: Token, now: int) {
    Genuine(mints, t) && t.iat <= now < t.exp
  }

  predicate ClusterAllowed(a: Account, cluster: Option<string>) {
    cluster.None? || (a.primaryCluster.Some? && (a.primaryCluster == cluster || cluster.value in a.clusters))
  }

  // ---------------------------------------------------------------- requests

  /** `outstanding` and `blacklist` are the tables of the token-blacklist application: its registered
      tokens by owner, and those of them that were blacklisted. */
  datatype State = State(
    accounts: map<UserId, Account>,
    records: seq<Record>,
    mints: seq<Mint>,
    outstanding: map<nat, UserId>,
    blacklist: set<nat>)

  function OutstandingOf(s: State, user: UserId): set<nat> {
    set t | t in s.outstanding && s.outstanding[t] == user
  }

  /** `logout_user` blacklists every registered token of the user. */
  function LoggedOut(s: State, user: UserId): State {
    s.(blacklist := s.blacklist + OutstandingOf(s, user))
  }

  datatype Request =
    | RegisterUser(email: string, password: string, salt: nat, clusterId: string, clusterExists: bool,
                   phone: string, otp: string, mailFails: bool)
    | LoginUser(user: UserId, password: string, cluster: Option<string>, rememberMe: bool)
    | ChangeUserPassword(user: UserId, lockChecked: bool, change: Change, forceLogout: bool, lateFailure: bool)
    | IssueVerification(user: UserId, mode: Mode, reason: Reason, code: string, sendFails: bool)
    | IssuePhoneVerification(user: UserId, phone: string, code: string, sendFails: bool)
    | ResetPassword(key: Key, newPassword: string, newSalt: nat, acceptable: bool, lateFailure: bool)
    | VerifyPhone(user: UserId, phone: string, code: string)
    | VerifyProfileUpdate(user: UserId, key: Key)
    | RefreshTokens(token: Token)
    | Authenticate(token: Token)

  /** `ChangedThenFailed` and `IssuedThenFailed`: the change or the record was stored, then notifying
      the user failed. */
  datatype Response =
    | Rejected
    | Answered(outcome: Outcome)
    | ChangedThenFailed
    | Issued(record: nat)
    | IssuedThenFailed(record: nat)
    | Consumed(record: nat)
    | TokensIssued(mint: nat)
    | Authenticated(user: UserId, cluster: Option<string>)

  function NewAccount(password: string, salt: nat, cluster: string, phone: string): Account {
    var hash := Hash(if password == "" then None else Some(password), salt);
    Account(AccountState(hash, 0, None, None, Some([])), phone, false, false, true, Some(cluster), {cluster})
  }

  ghost predicate RegisterStep(cfg: Config, s: State, q: Request, at: Readings, a: Response, s': State)
    requires q.RegisterUser?
  {
    var user := cfg.normalize(q.email);
    if !q.clusterExists || user in s.accounts || q.mailFails then a == Rejected && s' == s
    else
      && a == TokensIssued(|s.mints|)
      && s' == s.(
           accounts := s.accounts[user := NewAccount(q.password, q.salt, q.clusterId, q.phone)],
           records := s.records + [Record(Some(q.otp), None, OtpEvent(EmailVerification), at.first, user, false)],
           mints := s.mints + [GenerateToken(cfg, user, Some(q.clusterId), None, at.second, |s.mints|, None)])
  }

  ghost predicate LoginUserStep(cfg: Config, s: State, q: Request, at: Readings, a: Response, s': State)
    requires q.LoginUser?
  {
    if q.user !in s.accounts then a == Answered(InvalidCredentials) && s' == s
    else
      var account := s.accounts[q.user];
      exists o, security ::
        && LoginStep(cfg.policy, account.security, q.password, at, o, security)
        && s'.accounts == s.accounts[q.user := account.(security := security)]
        && s' == s.(accounts := s'.accounts, mints := s'.mints)
        && if o != LoggedIn then a == Answered(o) && s'.mints == s.mints
           else
             && a == TokensIssued(|s.mints|)
             && var cluster := if Truthy(q.cluster).Some? then q.cluster else account.primaryCluster;
                var expiry := if q.rememberMe then Some(cfg.extendedLifetime) else None;
                s'.mints == s.mints + [GenerateToken(cfg, q.user, cluster, expiry, at.second, |s.mints|, None)]
  }

  ghost predicate ChangeUserPasswordStep(cfg: Config, s: State, q: Request, at: Readings, a: Response, s': State)
    requires q.ChangeUserPassword?
  {
    if q.user !in s.accounts then a == Rejected && s' == s
    else
      && (a.Answered? || a.ChangedThenFailed?)
      && q.user in s'.accounts
      && var o := if a.Answered? then a.outcome else PasswordChanged;
         var security := s'.accounts[q.user].security;
         var changed := s.(accounts := s.accounts[q.user := s.accounts[q.user].(security := security)]);
         && Accounts.Step(cfg.policy, s.accounts[q.user].security, ChangePassword(q.lockChecked, q.change), at, o,
                          security)
         && (a.ChangedThenFailed? <==> o == PasswordChanged && q.lateFailure)
         && s' == if o == PasswordChanged && q.forceLogout then LoggedOut(changed, q.user) else changed
  }

  function IssuedOrFailed(record: nat, sendFails: bool): Response {
    if sendFails then IssuedThenFailed(record) else Issued(record)
  }

  ghost predicate IssueStep(s: State, q: Request, at: Readings, a: Response, s': State)
    requires q.IssueVerification?
  {
    var record := NewRecord(q.mode, q.reason, q.code, q.user, at.first);
    if q.user !in s.accounts || record.None? then a == Rejected && s' == s
    else a == IssuedOrFailed(|s.records|, q.sendFails) && s' == s.(records := s.records + [record.value])
  }

  ghost predicate IssuePhoneStep(s: State, q: Request, at: Readings, a: Response, s': State)
    requires q.IssuePhoneVerification?
  {
    if q.user !in s.accounts then a == Rejected && s' == s
    else
      var account := s.accounts[q.user];
      && a == IssuedOrFailed(|s.records|, q.sendFails)
      && s' == s.(
           accounts := if account.phoneNumber == q.phone then s.accounts
                       else s.accounts[q.user := account.(phoneNumber := q.phone, isPhoneVerified := false)],
           records := s.records + [Record(Some(q.code), None, OtpEvent(PhoneVerification), at.first, q.user, false)])
  }

  /** A reset carries no current password. */
  function ResetChange(q: Request): Change
    requires q.ResetPassword?
  {
    Change("", q.newPassword, q.newSalt, 0, q.acceptable)
  }

  /** Changing the password and using the record are one transaction: a refusal, or a failure after
      both, stores neither. */
  ghost predicate ResetStep(s: State, q: Request, at: Readings, a: Response, s': State)
    requires q.ResetPassword?
  {
    if q.key == Plain("") || q.newPassword == "" then a == Rejected && s' == s
    else
      exists found: Option<nat> :: IsFirst(s.records, ByKey(q.key, TokenEvent(PasswordReset)), None, found) &&
        if found.None? || s.records[found.value].IsExpired(at.first) then a == Rejected && s' == s
        else
          var user := s.records[found.value].requestedBy;
          if user !in s.accounts || Refusal(s.accounts[user].security, ResetChange(q)).Some? || q.lateFailure
          then a == Rejected && s' == s
          else
            && a == Consumed(found.value)
            && user in s'.accounts
            && ChangeStep(s.accounts[user].security, ResetChange(q), PasswordChanged, s'.accounts[user].security)
            && s' == LoggedOut(
                 s.(accounts := s.accounts[user := s.accounts[user].(security := s'.accounts[user].security)],
                    records := Use(s.records, found.value)),
                 user)
  }

  ghost predicate VerifyPhoneStep(s: State, q: Request, at: Readings, a: Response, s': State)
    requires q.VerifyPhone?
  {
    if q.user !in s.accounts || s.accounts[q.user].phoneNumber != q.phone then a == Rejected && s' == s
    else
      exists found: Option<nat> :: IsFirst(s.records, ByOtp(q.code), Some(q.user), found) &&
        if found.None? || s.records[found.value].IsExpired(at.first) then a == Rejected && s' == s
        else
          && a == Consumed(found.value)
          && s' == s.(accounts := s.accounts[q.user := s.accounts[q.user].(isPhoneVerified := true)],
                      records := Use(s.records, found.value))
  }

  ghost predicate VerifyProfileStep(s: State, q: Request, at: Readings, a: Response, s': State)
    requires q.VerifyProfileUpdate?
  {
    if q.key == Plain("") then a == Rejected && s' == s
    else
      exists found: Option<nat> :: IsFirst(s.records, ByKey(q.key, TokenEvent(ProfileUpdate)), Some(q.user), found) &&
        if found.None? || s.records[found.value].IsExpired(at.first) then a == Rejected && s' == s
        else a == Consumed(found.value) && s' == s.(records := Use(s.records, found.value))
  }

  ghost predicate RefreshStep(cfg: Config, s: State, t: Token, at: Readings, a: Response, s': State) {
    if && Decodes(s.mints, t, at.first)
       && t.kind == Refresh
       && t.user != ""
       && t.user in s.accounts
       && s.accounts[t.user].isActive
       && !Locked(s.accounts[t.user].security, at.second)
    then
      && a == TokensIssued(|s.mints|)
      && s' == s.(mints := s.mints + [GenerateToken(cfg, t.user, t.cluster, None, at.third, |s.mints|, Some(t.jti))])
    else a == Rejected && s' == s
  }

  ghost predicate AuthenticateStep(s: State, t: Token, at: Readings, a: Response, s': State) {
    && s' == s
    && a == if && Decodes(s.mints, t, at.first)
               && t.kind == Access
               && t.user != ""
               && t.user in s.accounts
               && !Locked(s.accounts[t.user].security, at.second)
               && ClusterAllowed(s.accounts[t.user], t.cluster)
            then Authenticated(t.user, t.cluster) else Rejected
  }

  ghost predicate Serves(cfg: Config, s: State, q: Request, at: Readings, a: Response, s': State) {
    match q
    case RegisterUser(_, _, _, _, _, _, _, _) => RegisterStep(cfg, s, q, at, a, s')
    case LoginUser(_, _, _, _) => LoginUserStep(cfg, s, q, at, a, s')
    case ChangeUserPassword(_, _, _, _, _) => ChangeUserPasswordStep(cfg, s, q, at, a, s')
    case IssueVerification(_, _, _, _, _) => IssueStep(s, q, at, a, s')
    case IssuePhoneVerification(_, _, _, _) => IssuePhoneStep(s, q, at, a, s')
    case ResetPassword(_, _, _, _, _) => ResetStep(s, q, at, a, s')
    case VerifyPhone(_, _, _) => VerifyPhoneStep(s, q, at, a, s')
    case VerifyProfileUpdate(_, _) => VerifyProfileStep(s, q, at, a, s')
    case RefreshTokens(token) => RefreshStep(cfg, s, token, at, a, s')
    case Authenticate(token) => AuthenticateStep(s, token, at, a, s')
  }

  // ---------------------------------------------------------------- the views

  class SecurityService {
    const cfg: Config
    var accounts: map<UserId, Account>
    var records: seq<Record>
    var mints: seq<Mint>
    var outstanding: map<nat, UserId>
    var blacklist: set<nat>

    ghost function Db(): State
      reads this
    {
      State(accounts, records, mints, outstanding, blacklist)
    }

    /** Opens the service over a stored database. */
    constructor (cfg: Config, db: State)
      ensures this.cfg == cfg && Db() == db
    {
      this.cfg := cfg;
      accounts, records, mints := db.accounts, db.records, db.mints;
      outstanding, blacklist := db.outstanding, db.blacklist;
    }

    method LogoutUser(user: UserId)
      modifies this`blacklist
      ensures Db() == LoggedOut(old(Db()), user)
    {
      var rest := set t | t in outstanding && outstanding[t] == user;
      while rest != {}
        invariant rest <= OutstandingOf(old(Db()), user)
        invariant blacklist == old(blacklist) + (OutstandingOf(old(Db()), user) - rest)
        decreases rest
      {
        var token :| token in rest;
        rest := rest - {token};
        if token !in blacklist {
          blacklist := blacklist + {token};
        }
      }
    }

    /** Appends one pair of tokens to the ledger. */
    method MintTokens(user: UserId, cluster: Option<string>, expiry: Option<int>, now: int, parent: Option<nat>)
        returns (a: Response)
      modifies this`mints
      ensures a == TokensIssued(|old(mints)|)
      ensures mints == old(mints) + [GenerateToken(cfg, user, cluster, expiry, now, |old(mints)|, parent)]
    {
      var mint := GenerateToken(cfg, user, cluster, expiry, now, |mints|, parent);
      a := TokensIssued(|mints|);
      mints := mints + [mint];
    }

    method Register(q: Request, at: Readings) returns (a: Response)
      requires q.RegisterUser?
      modifies this
      ensures Serves(cfg, old(Db()), q, at, a, Db())
    {
      var user := cfg.normalize(q.email);
      if !q.clusterExists || user in accounts {
        return Rejected;
      }
      if q.mailFails {
        return Rejected;  // the transaction is rolled back: nothing is stored
      }
      accounts := accounts[user := NewAccount(q.password, q.salt, q.clusterId, q.phone)];
      records := records + [Record(Some(q.otp), None, OtpEvent(EmailVerification), at.first, user, false)];
      a := MintTokens(user, Some(q.clusterId), None, at.second, None);
    }

    method Login(q: Request, at: Readings) returns (a: Response)
      requires q.LoginUser?
      modifies this
      ensures Serves(cfg, old(Db()), q, at, a, Db())
    {
      if q.user !in accounts {
        return Answered(InvalidCredentials);
      }
      var account := accounts[q.user];
      var user := new AccountUser(account.security);
      var o := HandleUserLogin(cfg.policy, user, q.password, at);
      var row := user.Row();
      assert LoginStep(cfg.policy, account.security, q.password, at, o, row);
      accounts := accounts[q.user := account.(security := row)];
      if o != LoggedIn {
        return Answered(o);
      }
      var cluster := q.cluster;
      if Truthy(cluster).None? {
        cluster := account.primaryCluster;
      }
      var expiry: Option<int> := None;
      if q.rememberMe {
        expiry := Some(cfg.extendedLifetime);
      }
      a := MintTokens(q.user, cluster, expiry, at.second, None);
    }

    method ChangePasswordView(q: Request, at: Readings) returns (a: Response)
      requires q.ChangeUserPassword?
      modifies this
      ensures Serves(cfg, old(Db()), q, at, a, Db())
    {
      if q.user !in accounts {
        return Rejected;
      }
      var account := accounts[q.user];
      var user := new AccountUser(account.security);
      var o := DoChangePassword(cfg.policy, user, q.lockChecked, q.change, at);
      var row := user.Row();
      accounts := accounts[q.user := account.(security := row)];
      if o == PasswordChanged {
        if q.forceLogout {
          LogoutUser(q.user);
        }
        if q.lateFailure {
          return ChangedThenFailed;
        }
      }
      a := Answered(o);
    }

    method Issue(q: Request, at: Readings) returns (a: Response)
      requires q.IssueVerification?
      modifies this
      ensures Serves(cfg, old(Db()), q, at, a, Db())
    {
      var record := NewRecord(q.mode, q.reason, q.code, q.user, at.first);
      if q.user !in accounts || record.None? {
        return Rejected;
      }
      a := IssuedOrFailed(|records|, q.sendFails);
      records := records + [record.value];
    }

    method RequestPhoneVerification(q: Request, at: Readings) returns (a: Response)
      requires q.IssuePhoneVerification?
      modifies this
      ensures Serves(cfg, old(Db()), q, at, a, Db())
    {
      if q.user !in accounts {
        return Rejected;
      }
      var account := accounts[q.user];
      if account.phoneNumber != q.phone {
        accounts := accounts[q.user := account.(phoneNumber := q.phone, isPhoneVerified := false)];
      }
      a := IssuedOrFailed(|records|, q.sendFails);
      records := records + [Record(Some(q.code), None, OtpEvent(PhoneVerification), at.first, q.user, false)];
    }

    method First(q: Query, who: Option<UserId>) returns (found: Option<nat>)
      ensures IsFirst(records, q, who, found)
    {
      found := None;
      for i := 0 to |records|
        invariant IsFirst(records[..i], q, who, found)
      {
        if q.Matches(who, records[i]) {
          if found.None? || records[found.value].requestedAt <= records[i].requestedAt {
            found := Some(i);
          }
        }
      }
      assert records[..|records|] == records;
    }

    method Reset(q: Request, at: Readings) returns (a: Response)
      requires q.ResetPassword?
      modifies this
      ensures Serves(cfg, old(Db()), q, at, a, Db())
    {
      if q.key == Plain("") || q.newPassword == "" {
        return Rejected;
      }
      var found := First(ByKey(q.key, TokenEvent(PasswordReset)), None);
      if found.None? || records[found.value].IsExpired(at.first) {
        return Rejected;
      }
      var userId := records[found.value].requestedBy;
      if userId !in accounts {
        return Rejected;
      }
      var account := accounts[userId];
      var user := new AccountUser(account.security);
      var o := DoChangePassword(cfg.policy, user, false, ResetChange(q), at);
      if o != PasswordChanged || q.lateFailure {
        return Rejected;  // the transaction is rolled back: nothing is stored
      }
      var row := user.Row();
      accounts := accounts[userId := account.(security := row)];
      LogoutUser(userId);
      records := Use(records, found.value);
      a := Consumed(found.value);
    }

    method VerifyPhoneView(q: Request, at: Readings) returns (a: Response)
      requires q.VerifyPhone?
      modifies this
      ensures Serves(cfg, old(Db()), q, at, a, Db())
    {
      if q.user !in accounts || accounts[q.user].phoneNumber != q.phone {
        return Rejected;
      }
      var found := First(ByOtp(q.code), Some(q.user));
      if found.None? || records[found.value].IsExpired(at.first) {
        return Rejected;
      }
      accounts := accounts[q.user := accounts[q.user].(isPhoneVerified := true)];
      records := Use(records, found.value);
      a := Consumed(found.value);
    }

    method VerifyProfileUpdateView(q: Request, at: Readings) returns (a: Response)
      requires q.VerifyProfileUpdate?
      modifies this
      ensures Serves(cfg, old(Db()), q, at, a, Db())
    {
      if q.key == Plain("") {
        return Rejected;
      }
      var found := First(ByKey(q.key, TokenEvent(ProfileUpdate)), Some(q.user));
      if found.None? || records[found.value].IsExpired(at.first) {
        return Rejected;
      }
      records := Use(records, found.value);
      a := Consumed(found.value);
    }

    method RefreshView(t: Token, at: Readings) returns (a: Response)
      modifies this
      ensures Serves(cfg, old(Db()), RefreshTokens(t), at, a, Db())
    {
      if !Decodes(mints, t, at.first) || t.kind != Refresh || t.user == "" || t.user !in accounts {
        return Rejected;
      }
      if !accounts[t.user].isActive {
        return Rejected;
      }
      var user := new AccountUser(accounts[t.user].security);
      var locked := CheckAccountLockout(user, at.second);
      if locked {
        return Rejected;
      }
      a := MintTokens(t.user, t.cluster, None, at.third, Some(t.jti));
    }

    method AuthenticateRequest(t: Token, at: Readings) returns (a: Response)
      ensures Serves(cfg, Db(), Authenticate(t), at, a, Db())
    {
      if !Decodes(mints, t, at.first) || t.kind != Access || t.user == "" || t.user !in accounts {
        return Rejected;
      }
      var user := new AccountUser(accounts[t.user].security);
      var locked := CheckAccountLockout(user, at.second);
      if locked {
        return Rejected;
      }
      var account := accounts[t.user];
      if t.cluster.Some? {
        if account.primaryCluster.None? {
          return Rejected;  // reading the key of a missing cluster raises
        }
        if account.primaryCluster != t.cluster && t.cluster.value !in account.clusters {
          return Rejected;
        }
      }
      a := Authenticated(t.user, t.cluster);
    }

    /** `mark_as_verified`, used outside the views above: also settles e-mail verification. */
    method MarkAsVerified(k: nat)
      requires k < |records| && records[k].requestedBy in accounts
      modifies this`accounts, this`records
      ensures records == Use(old(records), k)
      ensures accounts.Keys == old(accounts).Keys
      ensures forall u :: u in accounts ==> 
                accounts[u] == if u == records[k].requestedBy && records[k].event.reason == EmailVerification
                               then old(accounts)[u].(isVerified := true) else old(accounts)[u]
    {
      var user := records[k].requestedBy;
      if records[k].event == OtpEvent(EmailVerification) || records[k].event == TokenEvent(EmailVerification) {
        accounts := accounts[user := accounts[user].(isVerified := true)];
      }
      records := Use(records, k);
    }
  }
}
