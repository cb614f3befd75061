/** What the security requests answer and store, in terms of the stored rows and the request alone. */
module SecurityAnswers {
  import opened Prelude
  import opened Accounts
  import opened SecuritySystem
  import SR = SecurityRuns
  import VK = VerificationKeys

  predicate Unlocked(a: AccountState, now: int) {
    a.accountLockedUntil.Some? ==> a.accountLockedUntil.value <= now
  }

  // ---------------------------------------------------------------- authentication

  /** The account may act in the cluster: it is the primary one, or another one beside a primary one. */
  predicate ActsIn(a: Account, cluster: string) {
    a.primaryCluster.Some? && (a.primaryCluster.value == cluster || cluster in a.clusters)
  }

  /** A token is accepted exactly when it is the access token of a mint, its time is neither over nor
      still to come, its user exists and is not locked, and the cluster it names, if any, is one in
      which the account may act now. */
  lemma AuthenticatedIff(cfg: Config, s: State, t: Token, at: Readings, a: Response, s': State)
    requires SR.LedgerInvariant(cfg, s.mints) && Serves(cfg, s, Authenticate(t), at, a, s')
    ensures a == Authenticated(t.user, t.cluster) <==>
              && t.jti < |s.mints| && t == s.mints[t.jti].access
              && t.iat <= at.first < t.exp
              && t.user != "" && t.user in s.accounts
              && Unlocked(s.accounts[t.user].security, at.second)
              && (t.cluster.Some? ==> ActsIn(s.accounts[t.user], t.cluster.value))
    ensures a != Authenticated(t.user, t.cluster) ==> a == Rejected
    ensures s' == s
  {
    assert t.jti < |s.mints| ==> SR.EntryIsSound(cfg, s.mints, t.jti);
  }

  /** Without knowing anything about the ledger: what is authenticated acts in a cluster of its own. */
  lemma AuthenticatedActsInOwnCluster(cfg: Config, s: State, t: Token, at: Readings, a: Response, s': State)
    requires Serves(cfg, s, Authenticate(t), at, a, s') && a.Authenticated? && t.cluster.Some?
    ensures t.user in s.accounts && s.accounts[t.user].primaryCluster.Some?
    ensures s.accounts[t.user].primaryCluster == t.cluster || t.cluster.value in s.accounts[t.user].clusters
  {
  }

  /** A token for a cluster that is not its user's, which login mints on request, never authenticates,
      whatever requests come in between. */
  lemma ForeignClusterNeverAuthenticates(cfg: Config, s: State, tr: SR.Trace, t: Token, later: SR.Transition)
    requires t.user in s.accounts && t.cluster.Some? && !ActsIn(s.accounts[t.user], t.cluster.value)
    requires SR.Run(cfg, s, tr) && later.request == Authenticate(t)
    requires Serves(cfg, SR.Final(s, tr), later.request, later.at, later.response, later.post)
    ensures later.response == Rejected
  {
    SR.RunKeepsAccess(cfg, s, tr, t.user);
    if later.response.Authenticated? {
      AuthenticatedActsInOwnCluster(cfg, SR.Final(s, tr), t, later.at, later.response, later.post);
    }
  }

  /** A refresh is answered with tokens exactly for the refresh token of a mint within its time, whose
      user exists, is active and is not locked; the new pair has the same user and cluster, and the
      default lifetimes. */
  lemma RefreshedIff(cfg: Config, s: State, t: Token, at: Readings, a: Response, s': State)
    requires SR.LedgerInvariant(cfg, s.mints) && Serves(cfg, s, RefreshTokens(t), at, a, s')
    ensures a == TokensIssued(|s.mints|) <==>
              && t.jti < |s.mints| && t == s.mints[t.jti].refresh
              && t.iat <= at.first < t.exp
              && t.user != "" && t.user in s.accounts && s.accounts[t.user].isActive
              && Unlocked(s.accounts[t.user].security, at.second)
    ensures a != TokensIssued(|s.mints|) ==> a == Rejected && s' == s
    ensures a == TokensIssued(|s.mints|) ==>
              && |s'.mints| == |s.mints| + 1
              && var m := s'.mints[|s.mints|];
                 && m.access.user == t.user && m.access.cluster == t.cluster
                 && m.access.iat == at.third && m.access.exp == at.third + cfg.accessLifetime
                 && m.refresh.exp == at.third + cfg.refreshLifetime
  {
    assert t.jti < |s.mints| ==> SR.EntryIsSound(cfg, s.mints, t.jti);
  }

  // ---------------------------------------------------------------- login and registration

  /** A login is answered with tokens exactly for a known, unlocked account and its password. They
      name the cluster asked for or else the primary one; the access token lives for the extended time
      if and only if the user asked to be remembered. */
  lemma LoginMintsIff(cfg: Config, s: State, q: Request, at: Readings, a: Response, s': State)
    requires q.LoginUser? && Serves(cfg, s, q, at, a, s')
    ensures a == TokensIssued(|s.mints|) <==>
              && q.user in s.accounts && Unlocked(s.accounts[q.user].security, at.first)
              && s.accounts[q.user].security.password.secret == Some(q.password)
    ensures a != TokensIssued(|s.mints|) ==> a.Answered? && s'.mints == s.mints
    ensures a == TokensIssued(|s.mints|) ==>
              && |s'.mints| == |s.mints| + 1
              && var m := s'.mints[|s.mints|];
                 && m.access.user == q.user && m.refresh.user == q.user && m.access.cluster == m.refresh.cluster
                 && (q.cluster.Some? && q.cluster.value != "" ==> m.access.cluster == q.cluster)
                 && ((q.cluster.None? || q.cluster.value == "") && s.accounts[q.user].primaryCluster != Some("") ==>
                       m.access.cluster == s.accounts[q.user].primaryCluster)
                 && m.access.iat == at.second && m.refresh.iat == at.second
                 && m.refresh.exp == at.second + cfg.refreshLifetime
                 && (!q.rememberMe ==> m.access.exp == at.second + cfg.accessLifetime)
                 && (q.rememberMe && cfg.extendedLifetime != 0 ==> m.access.exp == at.second + cfg.extendedLifetime)
  {
  }

  /** With the settings of the application: one hour, six hours if remembered, and a week to refresh. */
  lemma DefaultLifetimes(normalize: string -> string, s: State, q: Request, at: Readings, s': State)
    requires Serves(DefaultConfig(normalize), s, q, at, TokensIssued(|s.mints|), s')
    ensures |s'.mints| == |s.mints| + 1
    ensures var m := s'.mints[|s.mints|];
            && m.access.exp - m.access.iat == (if q.LoginUser? && q.rememberMe then 21600 else 3600)
            && m.refresh.exp - m.refresh.iat == 604800
  {
  }

  /** What registration stores: one account under the normalised address, unverified, active, in one
      cluster, without failures, lock or history, with the password as given, an empty one being none. */
  lemma RegisteredAccount(cfg: Config, s: State, q: Request, at: Readings, a: Response, s': State)
    requires q.RegisterUser? && Serves(cfg, s, q, at, a, s')
    ensures a != Rejected <==> q.clusterExists && cfg.normalize(q.email) !in s.accounts && !q.mailFails
    ensures a == Rejected ==> s' == s
    ensures a != Rejected ==>
              var u := cfg.normalize(q.email);
              && s'.accounts.Keys == s.accounts.Keys + {u}
              && (forall v :: v in s.accounts ==> s'.accounts[v] == s.accounts[v])
              && var created := s'.accounts[u];
                 && created.security.password.secret == (if q.password == "" then None else Some(q.password))
                 && created.security.failedLoginAttempts == 0 && created.security.accountLockedUntil.None?
                 && created.security.history == Some([])
                 && created.phoneNumber == q.phone && !created.isPhoneVerified
                 && !created.isVerified && created.isActive
                 && created.primaryCluster == Some(q.clusterId) && created.clusters == {q.clusterId}
    ensures a != Rejected ==>
              && |s'.records| == |s.records| + 1
              && var r := s'.records[|s.records|];
                 && r.otp == Some(q.otp) && r.requestedBy == cfg.normalize(q.email)
                 && r.requestedAt == at.first && !r.isUsed
  {
  }

  // ---------------------------------------------------------------- keys

  /** Texts of up to five characters are compared with codes, longer ones with tokens, and a signed
      token only counts under its own salt. */
  predicate IsKeyOf(key: Key, salt: NotificationEvent, r: Record) {
    || (key.Plain? && |key.text| <= 5 && r.otp == Some(key.text))
    || (key.Plain? && |key.text| > 5 && r.token == Some(key.text))
    || (key.Signed? && key.salt == salt && r.token == Some(key.token))
  }

  /** What a consumed record must be: unused until then, not older than two hours, with the key of the
      request, and the requesting user's own unless the request is a password reset. */
  lemma ConsumedRecordFits(cfg: Config, s: State, t: SR.Transition)
    requires t.response.Consumed? && Serves(cfg, s, t.request, t.at, t.response, t.post)
    ensures VK.Consumer(t.request) && t.response.record < |s.records|
    ensures var r := s.records[t.response.record];
            && !r.isUsed && t.at.first <= r.requestedAt + 7200
            && (t.request.ResetPassword? ==> IsKeyOf(t.request.key, TokenEvent(PasswordReset), r))
            && (t.request.VerifyProfileUpdate? ==>
                  IsKeyOf(t.request.key, TokenEvent(ProfileUpdate), r) && r.requestedBy == t.request.user)
            && (t.request.VerifyPhone? ==> r.otp == Some(t.request.code) && r.requestedBy == t.request.user)
  {
  }

  /** And a request with a fitting record is accepted: no record that fits is passed over for another
      reason than age, a newer fitting one, or the rest of the request. */
  lemma FittingRecordIsFound(cfg: Config, s: State, t: SR.Transition, k: nat)
    requires VK.Consumer(t.request) && k < |s.records| && !s.records[k].isUsed
    requires t.request.ResetPassword? ==> IsKeyOf(t.request.key, TokenEvent(PasswordReset), s.records[k])
    requires t.request.VerifyProfileUpdate? ==>
               && IsKeyOf(t.request.key, TokenEvent(ProfileUpdate), s.records[k])
               && s.records[k].requestedBy == t.request.user
    requires t.request.VerifyPhone? ==>
               s.records[k].otp == Some(t.request.code) && s.records[k].requestedBy == t.request.user
    requires forall i :: 0 <= i < |s.records| && i != k && VK.Opens(t.request, s.records[i]) ==>
               s.records[i].requestedAt < s.records[k].requestedAt
    requires Serves(cfg, s, t.request, t.at, t.response, t.post)
    ensures t.response == Consumed(k)
            <==> VK.OtherwiseFine(s, t.request, s.records[k]) && t.at.first <= s.records[k].requestedAt + 7200
  {
    assert VK.Opens(t.request, s.records[k]);
    VK.AcceptedIff(cfg, s, t, k);
  }

  /** What issuing stores: one unused record of the user, dated now, with the code it was given, as a
      token exactly in token mode, which phone verification does not have; a phone code also stores the
      number, as unverified if it is new. */
  lemma IssuedRecord(cfg: Config, s: State, q: Request, at: Readings, a: Response, s': State)
    requires (q.IssueVerification? || q.IssuePhoneVerification?) && Serves(cfg, s, q, at, a, s')
    ensures a == Rejected <==>
              q.user !in s.accounts || (q.IssueVerification? && q.mode == WebToken && q.reason == PhoneVerification)
    ensures a == Rejected ==> s' == s
    ensures a != Rejected ==>
              var asToken := q.IssueVerification? && q.mode == WebToken;
              var reason := if q.IssueVerification? then q.reason else PhoneVerification;
              && a == (if q.sendFails then IssuedThenFailed(|s.records|) else Issued(|s.records|))
              && s'.records == s.records + [Record(if asToken then None else Some(q.code),
                                                   if asToken then Some(q.code) else None,
                                                   if asToken then TokenEvent(reason) else OtpEvent(reason),
                                                   at.first, q.user, false)]
    ensures a != Rejected && q.IssueVerification? ==> s'.accounts == s.accounts
    ensures a != Rejected && q.IssuePhoneVerification? ==>
              var was := s.accounts[q.user];
              var kept := was.isPhoneVerified && was.phoneNumber == q.phone;
              s'.accounts == s.accounts[q.user := was.(phoneNumber := q.phone, isPhoneVerified := kept)]
  {
  }

  /** Verifying a phone marks the user's stored number, which must be the one named, and changes
      nothing else about any account. */
  lemma VerifiedPhone(cfg: Config, s: State, q: Request, at: Readings, a: Response, s': State)
    requires q.VerifyPhone? && a.Consumed? && Serves(cfg, s, q, at, a, s')
    ensures q.user in s.accounts && s.accounts[q.user].phoneNumber == q.phone
    ensures s'.accounts == s.accounts[q.user := s.accounts[q.user].(isPhoneVerified := true)]
  {
  }

  /** The user whose tokens a request has to blacklist, if any. */
  function LoggedOutBy(s: State, q: Request, a: Response): Option<UserId> {
    match q
    case ChangeUserPassword(user, _, _, forceLogout, _) =>
      if forceLogout && (a == Answered(PasswordChanged) || a == ChangedThenFailed) then Some(user) else None
    case ResetPassword(_, _, _, _, _) =>
      if a.Consumed? && a.record < |s.records| then Some(s.records[a.record].requestedBy) else None
    case _ => None
  }

  /** A forced logout blacklists the registered tokens of the user whose password was changed, all of
      them and no others; a request without it, or refused, blacklists nothing. */
  lemma BlacklistedIff(cfg: Config, s: State, q: Request, at: Readings, a: Response, s': State, token: nat)
    requires Serves(cfg, s, q, at, a, s')
    ensures token in s'.blacklist <==>
              || token in s.blacklist
              || (token in s.outstanding && LoggedOutBy(s, q, a) == Some(s.outstanding[token]))
  {
  }
}
