/** Properties of arbitrary interleavings of all users' security requests. */
module SecurityRuns {
  import opened Prelude
  import opened Accounts
  import opened SecuritySystem
  import AR = AccountRuns

  datatype Transition = Transition(request: Request, at: Readings, response: Response, post: State)

  type Trace = seq<Transition>

  function Final(s: State, tr: Trace): State {
    if |tr| == 0 then s else tr[|tr| - 1].post
  }

  ghost predicate Run(cfg: Config, s: State, tr: Trace) {
    |tr| == 0 ||
    var n := |tr| - 1;
    && Run(cfg, s, tr[..n])
    && Serves(cfg, Final(s, tr[..n]), tr[n].request, tr[n].at, tr[n].response, tr[n].post)
  }

  predicate Timed(since: int, tr: Trace) {
    |tr| == 0 ||
    var n := |tr| - 1;
    && Timed(since, tr[..n])
    && tr[n].at.Ordered()
    && LastReading(since, tr[..n]) <= tr[n].at.first
  }

  function LastReading(since: int, tr: Trace): int {
    if |tr| == 0 then since else tr[|tr| - 1].at.third
  }

  // ---------------------------------------------------------------- one account's view of a run

  function Security(s: State, u: UserId): AccountState {
    if u in s.accounts then s.accounts[u].security
    else AccountState(Hash(None, 0), 0, None, None, None)
  }

  /** The account-level event a request amounts to for user `u`, if any. */
  function EventFor(u: UserId, s: State, t: Transition): Option<AR.Transition> {
    match t.request
    case LoginUser(v, password, _, _) =>
      if v != u then None
      else Some(AR.Transition(Login(password), t.at, if t.response.Answered? then t.response.outcome else LoggedIn,
                              Security(t.post, u)))
    case ChangeUserPassword(v, lockChecked, c, _, _) =>
      if v != u || t.response == Rejected then None
      else
        var o := if t.response.Answered? then t.response.outcome else PasswordChanged;
        Some(AR.Transition(ChangePassword(lockChecked, c), t.at, o, Security(t.post, u)))
    case ResetPassword(_, _, _, _, _) =>
      if t.response.Consumed? && t.response.record < |s.records| && s.records[t.response.record].requestedBy == u
      then Some(AR.Transition(ChangePassword(false, ResetChange(t.request)), t.at, PasswordChanged,
                              Security(t.post, u)))
      else None
    case _ => None
  }

  function Project(u: UserId, s: State, tr: Trace): AR.Trace {
    if |tr| == 0 then []
    else
      var n := |tr| - 1;
      var e := EventFor(u, Final(s, tr[..n]), tr[n]);
      Project(u, s, tr[..n]) + if e.Some? then [e.value] else []
  }

  lemma StepProjects(cfg: Config, u: UserId, s: State, t: Transition)
    requires u in s.accounts && Serves(cfg, s, t.request, t.at, t.response, t.post)
    ensures u in t.post.accounts
    ensures var e := EventFor(u, s, t);
            if e.None? then Security(t.post, u) == Security(s, u)
            else
              && Accounts.Step(cfg.policy, Security(s, u), e.value.event, e.value.at, e.value.outcome,
                               Security(t.post, u))
              && e.value.post == Security(t.post, u) && e.value.at == t.at
  {
  }

  /** What any interleaving of all users' requests does to one account is a run of that account alone,
      so every theorem about account runs holds in the whole system. */
  lemma {:induction false} ProjectionIsRun(cfg: Config, u: UserId, s: State, tr: Trace, since: int)
    requires u in s.accounts && Run(cfg, s, tr)
    ensures u in Final(s, tr).accounts
    ensures AR.Run(cfg.policy, Security(s, u), Project(u, s, tr))
    ensures AR.Final(Security(s, u), Project(u, s, tr)) == Security(Final(s, tr), u)
    ensures Timed(since, tr) ==> AR.Timed(since, Project(u, s, tr)) &&
                                 AR.LastReading(since, Project(u, s, tr)) <= LastReading(since, tr)
  {
    if |tr| > 0 {
      var n := |tr| - 1;
      ProjectionIsRun(cfg, u, s, tr[..n], since);
      StepProjects(cfg, u, Final(s, tr[..n]), tr[n]);
      var before := Project(u, s, tr[..n]);
      var e := EventFor(u, Final(s, tr[..n]), tr[n]);
      if e.Some? {
        assert Project(u, s, tr) == before + [e.value];
        assert (before + [e.value])[..|before|] == before;
      } else {
        assert Project(u, s, tr) == before;
      }
    }
  }

  /** However many other requests are interleaved, the guess bound holds for every single account. */
  lemma SystemGuessBound(cfg: Config, u: UserId, s: State, tr: Trace, since: int, span: nat)
    requires u in s.accounts && cfg.policy.Lockout() > 0
    requires Run(cfg, s, tr) && Timed(since, tr) && LastReading(since, tr) <= since + span
    ensures var proj := Project(u, s, tr);
            AR.Guesses(proj) <= AR.FreeGuesses(cfg.policy, Security(s, u))
                                + AR.ResetCount(proj) * AR.FreeAfterReset(cfg.policy) + span / cfg.policy.Lockout()
  {
    ProjectionIsRun(cfg, u, s, tr, since);
    AR.GuessBound(cfg.policy, Security(s, u), Project(u, s, tr), since, span);
  }

  /** From registration on: the lock invariant, and distinct passwords, along every system run. */
  lemma SystemAccountInvariants(cfg: Config, u: UserId, s: State, tr: Trace, since: int)
    requires u in s.accounts && cfg.policy.maxAttempts >= 1
    requires exists password, salt, cluster, phone :: s.accounts[u] == NewAccount(password, salt, cluster, phone)
    requires Run(cfg, s, tr) && Timed(since, tr)
    ensures var proj := Project(u, s, tr);
            var now := Security(Final(s, tr), u);
            var ps := AR.Passwords(Security(s, u), proj);
            && AR.LockInvariant(cfg.policy, now, false)
            && now.failedLoginAttempts == AR.GuessesSinceReset(0, proj)
            && AR.HistoryInvariant(now)
            && (forall i, j :: 0 <= i < j < |ps| && (j <= i + 2 || j <= 11) ==> ps[i] != ps[j])
  {
    var proj := Project(u, s, tr);
    ProjectionIsRun(cfg, u, s, tr, since);
    AR.LockInvariantHolds(cfg.policy, Security(s, u), proj, since, false);
    AR.HistoryInvariantHolds(cfg.policy, Security(s, u), proj);
    AR.ThreeConsecutiveDiffer(cfg.policy, Security(s, u), proj);
    AR.FirstPasswordsDiffer(cfg.policy, Security(s, u), proj);
  }

  // ---------------------------------------------------------------- verification records

  /** The records consumed during a run, in order. */
  function Consumptions(tr: Trace): seq<nat> {
    if |tr| == 0 then []
    else
      var n := |tr| - 1;
      Consumptions(tr[..n]) + if tr[n].response.Consumed? then [tr[n].response.record] else []
  }

  function UsedRecords(s: State): set<nat> {
    set k: nat | k < |s.records| && s.records[k].isUsed
  }

  /** One request consumes at most one record, and then one that was unused and not expired; it
      changes nothing else about existing records, and a rejected request changes nothing at all. */
  lemma StepOnRecords(cfg: Config, s: State, t: Transition)
    requires Serves(cfg, s, t.request, t.at, t.response, t.post)
    ensures |s.records| <= |t.post.records|
    ensures t.response.Consumed? ==>
              && t.response.record < |s.records|
              && !s.records[t.response.record].IsExpired(t.at.first)
              && t.post.records == Use(s.records, t.response.record)
    ensures !t.response.Consumed? ==>
              && s.records <= t.post.records
              && forall k :: |s.records| <= k < |t.post.records| ==>
                   !t.post.records[k].isUsed && t.post.records[k].requestedAt == t.at.first
    ensures t.response == Rejected ==> t.post == s
  {
  }

  lemma UsedRecordsAfter(cfg: Config, s: State, t: Transition)
    requires Serves(cfg, s, t.request, t.at, t.response, t.post)
    ensures t.response.Consumed? ==>
              t.response.record !in UsedRecords(s) && UsedRecords(t.post) == UsedRecords(s) + {t.response.record}
    ensures !t.response.Consumed? ==> UsedRecords(t.post) == UsedRecords(s)
  {
    StepOnRecords(cfg, s, t);
    hide Serves;
  }

  /** Over any interleaving of issuing, resets, phone and profile verification, from any start: the
      records consumed are exactly those used since, each consumed once, so their numbers agree. */
  lemma {:induction false} VerificationConservation(cfg: Config, s: State, tr: Trace)
    requires Run(cfg, s, tr)
    ensures NoDuplicates(Consumptions(tr)) && UsedRecords(s) <= UsedRecords(Final(s, tr))
    ensures Elements(Consumptions(tr)) == UsedRecords(Final(s, tr)) - UsedRecords(s)
    ensures |Consumptions(tr)| == |UsedRecords(Final(s, tr))| - |UsedRecords(s)|
  {
    if |tr| > 0 {
      var n := |tr| - 1;
      VerificationConservation(cfg, s, tr[..n]);
      UsedRecordsAfter(cfg, Final(s, tr[..n]), tr[n]);
      hide Serves, UsedRecords, NoDuplicates, Elements;
      if tr[n].response.Consumed? {
        OneMoreElement(Consumptions(tr[..n]), tr[n].response.record);
      } else {
        assert Consumptions(tr) == Consumptions(tr[..n]);
      }
    }
    DistinctCount(Consumptions(tr));
  }

  /** A record keeps its key, owner, event and issue time for ever, and `is_used` never reverts. */
  lemma {:induction false} RecordsPersist(cfg: Config, s: State, tr: Trace, k: nat)
    requires Run(cfg, s, tr) && k < |s.records|
    ensures k < |Final(s, tr).records|
    ensures Final(s, tr).records[k] == s.records[k].(isUsed := Final(s, tr).records[k].isUsed)
    ensures s.records[k].isUsed ==> Final(s, tr).records[k].isUsed
  {
    if |tr| > 0 {
      var n := |tr| - 1;
      RecordsPersist(cfg, s, tr[..n], k);
      StepOnRecords(cfg, Final(s, tr[..n]), tr[n]);
    }
  }

  predicate IssuedInThePast(s: State, now: int) {
    forall k :: 0 <= k < |s.records| ==> s.records[k].requestedAt <= now
  }

  lemma {:induction false} RecordsAreIssuedInThePast(cfg: Config, s: State, tr: Trace, since: int)
    requires Run(cfg, s, tr) && Timed(since, tr) && IssuedInThePast(s, since)
    ensures since <= LastReading(since, tr) && IssuedInThePast(Final(s, tr), LastReading(since, tr))
  {
    if |tr| > 0 {
      var n := |tr| - 1;
      RecordsAreIssuedInThePast(cfg, s, tr[..n], since);
      StepOnRecords(cfg, Final(s, tr[..n]), tr[n]);
    }
  }

  /** Every consumption falls between the record's issue and two hours after it. */
  lemma ConsumedWithinWindow(cfg: Config, s: State, tr: Trace, since: int)
    requires Run(cfg, s, tr) && Timed(since, tr) && IssuedInThePast(s, since)
    requires |tr| > 0 && tr[|tr| - 1].response.Consumed?
    ensures var n := |tr| - 1;
            var k := tr[n].response.record;
            && k < |tr[n].post.records|
            && var issued := tr[n].post.records[k].requestedAt;
               issued <= tr[n].at.first <= issued + 7200
  {
    var n := |tr| - 1;
    RecordsAreIssuedInThePast(cfg, s, tr[..n], since);
    StepOnRecords(cfg, Final(s, tr[..n]), tr[n]);
  }

  /** A reset is all or nothing: a rejected one changes neither record nor account; an accepted one
      uses one record of the account it changes, sets the requested password, and lifts the lock. */
  lemma ResetIsAtomic(cfg: Config, s: State, t: Transition)
    requires t.request.ResetPassword? && Serves(cfg, s, t.request, t.at, t.response, t.post)
    ensures t.response == Rejected || t.response.Consumed?
    ensures t.response == Rejected ==> t.post == s
    ensures t.response.Consumed? ==>
              && t.response.record < |s.records|
              && UsedRecords(t.post) == UsedRecords(s) + {t.response.record}
              && t.response.record !in UsedRecords(s)
              && var u := s.records[t.response.record].requestedBy;
                 && u in s.accounts && u in t.post.accounts
                 && CheckPassword(t.request.newPassword, t.post.accounts[u].security.password)
                 && !CheckPassword(t.request.newPassword, s.accounts[u].security.password)
                 && !Locked(t.post.accounts[u].security, t.at.first)
                 && forall v :: v in s.accounts && v != u ==>
                      v in t.post.accounts && t.post.accounts[v] == s.accounts[v]
    ensures t.post.mints == s.mints
  {
    StepOnRecords(cfg, s, t);
    UsedRecordsAfter(cfg, s, t);
  }

  // ---------------------------------------------------------------- tokens

  /** A ledger entry is a pair for one user and one cluster, with fixed lifetimes; an entry that came
      from a refresh repeats the user and cluster of its parent, is not older than it, and has the
      default access lifetime. */
  predicate EntryIsSound(cfg: Config, mints: seq<Mint>, j: nat)
    requires j < |mints|
  {
    var m := mints[j];
    && m.access.kind == Access && m.refresh.kind == Refresh
    && m.access.jti == m.refresh.jti == j
    && m.access.user == m.refresh.user && m.access.cluster == m.refresh.cluster && m.access.iat == m.refresh.iat
    && m.refresh.exp == m.refresh.iat + cfg.refreshLifetime
    && m.access.cluster != Some("")
    && (m.access.exp == m.access.iat + cfg.accessLifetime || m.access.exp == m.access.iat + cfg.extendedLifetime)
    && (m.parent.Some? ==>
        && m.parent.value < j
        && var p := mints[m.parent.value];
           && m.access.user == p.access.user && m.access.cluster == p.access.cluster
           && p.refresh.iat <= m.refresh.iat
           && m.access.exp == m.access.iat + cfg.accessLifetime)
  }

  predicate LedgerInvariant(cfg: Config, mints: seq<Mint>) {
    forall j :: 0 <= j < |mints| ==> EntryIsSound(cfg, mints, j)
  }

  lemma LedgerGrows(cfg: Config, mints: seq<Mint>, m: Mint)
    requires LedgerInvariant(cfg, mints) && EntryIsSound(cfg, mints + [m], |mints|)
    ensures LedgerInvariant(cfg, mints + [m])
  {
    forall j | 0 <= j < |mints| ensures EntryIsSound(cfg, mints + [m], j) {
      assert EntryIsSound(cfg, mints, j);
    }
  }

  lemma {:induction false} LedgerInvariantHolds(cfg: Config, s: State, tr: Trace, since: int)
    requires Run(cfg, s, tr) && Timed(since, tr) && LedgerInvariant(cfg, s.mints)
    ensures LedgerInvariant(cfg, Final(s, tr).mints)
    ensures s.mints <= Final(s, tr).mints
  {
    if |tr| > 0 {
      var n := |tr| - 1;
      LedgerInvariantHolds(cfg, s, tr[..n], since);
      StepOnLedger(cfg, Final(s, tr[..n]), tr[n]);
    }
  }

  /** One request adds at most one ledger entry: for the user who logged in or registered, or in
      exchange for a live, genuine refresh token. */
  lemma StepOnLedger(cfg: Config, s: State, t: Transition)
    requires LedgerInvariant(cfg, s.mints) && t.at.Ordered()
    requires Serves(cfg, s, t.request, t.at, t.response, t.post)
    ensures LedgerInvariant(cfg, t.post.mints)
    ensures !t.response.TokensIssued? ==> t.post.mints == s.mints
    ensures t.response.TokensIssued? ==>
              && t.response.mint == |s.mints|
              && |t.post.mints| == |s.mints| + 1 && s.mints <= t.post.mints
              && Explains(cfg, s, t)
  {
    if t.response.TokensIssued? {
      var m := t.post.mints[|s.mints|];
      assert t.post.mints == s.mints + [m];
      if t.request.RefreshTokens? {
        assert EntryIsSound(cfg, s.mints, t.request.token.jti);
      }
      assert EntryIsSound(cfg, t.post.mints, |s.mints|);
      LedgerGrows(cfg, s.mints, m);
    }
  }

  /** Where the entry that transition `t` adds to the ledger comes from. */
  predicate Explains(cfg: Config, s: State, t: Transition) {
    && |s.mints| < |t.post.mints|
    && var m := t.post.mints[|s.mints|];
       match t.request
       case LoginUser(u, password, cluster, _) =>
         && m.parent.None? && m.access.user == u && u in s.accounts
         && m.access.cluster == Truthy(if Truthy(cluster).Some? then cluster else s.accounts[u].primaryCluster)
         && CheckPassword(password, s.accounts[u].security.password) && !Locked(s.accounts[u].security, t.at.first)
       case RegisterUser(email, _, _, cluster, _, _, _, _) =>
         var u := cfg.normalize(email);
         m.parent.None? && m.access.user == u && u !in s.accounts && m.access.cluster == Truthy(Some(cluster))
       case RefreshTokens(token) =>
         && m.parent == Some(token.jti) && token.jti < |s.mints| && token == s.mints[token.jti].refresh
         && m.access.user == token.user && m.access.cluster == token.cluster
         && token.iat <= t.at.first < token.exp
       case _ => false
  }

  /** The original mint a ledger entry descends from. */
  function Root(mints: seq<Mint>, j: nat): nat
    requires j < |mints|
    decreases j
  {
    match mints[j].parent
    case None => j
    case Some(p) => if p < j then Root(mints, p) else j
  }

  /** Every entry descends, through refreshes only, from one login or registration for the same user
      and the same cluster. */
  lemma {:induction false} RefreshChainsHaveOneOrigin(cfg: Config, mints: seq<Mint>, j: nat)
    requires LedgerInvariant(cfg, mints) && j < |mints|
    ensures var r := Root(mints, j);
            && r <= j
            && mints[r].parent.None?
            && mints[r].access.user == mints[j].access.user
            && mints[r].access.cluster == mints[j].access.cluster
            && mints[r].access.iat <= mints[j].access.iat
    decreases j
  {
    assert EntryIsSound(cfg, mints, j);
    if mints[j].parent.Some? {
      assert EntryIsSound(cfg, mints, mints[j].parent.value);
      RefreshChainsHaveOneOrigin(cfg, mints, mints[j].parent.value);
    }
  }

  /** Every entry of a run that started with an empty ledger was added by one of its transitions,
      which explains it. */
  lemma {:induction false} EveryMintIsExplained(cfg: Config, s: State, tr: Trace, since: int, j: nat) returns (i: nat)
    requires Run(cfg, s, tr) && Timed(since, tr) && LedgerInvariant(cfg, s.mints)
    requires |s.mints| <= j < |Final(s, tr).mints|
    ensures i < |tr|
    ensures |Final(s, tr[..i]).mints| == j && tr[i].post.mints <= Final(s, tr).mints
    ensures Explains(cfg, Final(s, tr[..i]), tr[i])
  {
    var n := |tr| - 1;
    LedgerInvariantHolds(cfg, s, tr[..n], since);
    StepOnLedger(cfg, Final(s, tr[..n]), tr[n]);
    if j < |Final(s, tr[..n]).mints| {
      i := EveryMintIsExplained(cfg, s, tr[..n], since, j);
      assert tr[..n][..i] == tr[..i];
    } else {
      i := n;
    }
  }

  /** A request is only ever authenticated by a live access token of a ledger entry whose origin is a
      login or registration of the same user with the same cluster; a refresh token never
      authenticates, and an access token is never exchanged. */
  lemma TokenProvenance(cfg: Config, s: State, tr: Trace, since: int, t: Token, at: Readings, a: Response, s': State)
      returns (i: nat)
    requires s.mints == [] && Run(cfg, s, tr) && Timed(since, tr)
    requires || Serves(cfg, Final(s, tr), Authenticate(t), at, a, s')
             || Serves(cfg, Final(s, tr), RefreshTokens(t), at, a, s')
    requires a != Rejected
    ensures a.Authenticated? <==> t.kind == Access
    ensures a.Authenticated? ==> a == Authenticated(t.user, t.cluster) && s' == Final(s, tr)
    ensures a.TokensIssued? ==> t.kind == Refresh
    ensures i < |tr| && (tr[i].request.LoginUser? || tr[i].request.RegisterUser?)
    ensures Explains(cfg, Final(s, tr[..i]), tr[i])
    ensures var root := Final(s, tr[..i]).mints;
            && |root| < |tr[i].post.mints|
            && tr[i].post.mints[|root|].access.user == t.user
            && tr[i].post.mints[|root|].access.cluster == t.cluster
  {
    var now := Final(s, tr);
    LedgerInvariantHolds(cfg, s, tr, since);
    assert Genuine(now.mints, t) && EntryIsSound(cfg, now.mints, t.jti);
    hide Serves, LedgerInvariant, EntryIsSound;
    var r := Root(now.mints, t.jti);
    RefreshChainsHaveOneOrigin(cfg, now.mints, t.jti);
    i := EveryMintIsExplained(cfg, s, tr, since, r);
    assert tr[i].post.mints[r] == now.mints[r];
  }

  predicate AcceptedFor(u: UserId, t: Transition) {
    || (t.response.Authenticated? && t.response.user == u)
    || (t.request.RefreshTokens? && t.response.TokensIssued? && t.request.token.user == u)
  }

  predicate LifetimesFit(cfg: Config) {
    cfg.accessLifetime <= cfg.refreshLifetime && cfg.extendedLifetime <= cfg.refreshLifetime
  }

  lemma AcceptedTokenIsYoung(cfg: Config, s: State, t: Transition, u: UserId) returns (token: Token)
    requires LedgerInvariant(cfg, s.mints) && LifetimesFit(cfg) && AcceptedFor(u, t)
    requires Serves(cfg, s, t.request, t.at, t.response, t.post)
    ensures token.jti < |s.mints|
    ensures s.mints[token.jti].access.user == u
    ensures t.at.first - cfg.refreshLifetime < s.mints[token.jti].access.iat <= t.at.first
  {
    token := t.request.token;
    assert Decodes(s.mints, token, t.at.first) && EntryIsSound(cfg, s.mints, token.jti);
  }

  /** If a token of a user is accepted, then tokens were minted for that user less than one refresh
      lifetime earlier: after a silent refresh lifetime only a new login or registration helps. */
  lemma SessionLiveness(cfg: Config, s: State, tr: Trace, since: int, u: UserId) returns (i: nat)
    requires s.mints == [] && Run(cfg, s, tr) && Timed(since, tr) && LifetimesFit(cfg)
    requires |tr| > 0 && AcceptedFor(u, tr[|tr| - 1])
    ensures i < |tr| - 1 && Explains(cfg, Final(s, tr[..i]), tr[i])
    ensures var m := tr[i].post.mints[|Final(s, tr[..i]).mints|];
            m.access.user == u && tr[|tr| - 1].at.first - cfg.refreshLifetime < m.access.iat <= tr[|tr| - 1].at.first
  {
    var n := |tr| - 1;
    LedgerInvariantHolds(cfg, s, tr[..n], since);
    var token := AcceptedTokenIsYoung(cfg, Final(s, tr[..n]), tr[n], u);
    i := EveryMintIsExplained(cfg, s, tr[..n], since, token.jti);
    hide Run, Timed, LedgerInvariant, Explains, Serves;
    assert tr[..n][..i] == tr[..i];
  }

  /** Exchanging the newest refresh token at the last moment. */
  lemma ExtendOnce(cfg: Config, b: State, u: UserId) returns (t: Transition)
    requires cfg.refreshLifetime > 1 && |b.mints| > 0 && LedgerInvariant(cfg, b.mints)
    requires u != "" && u in b.accounts && b.accounts[u].isActive && b.accounts[u].security.accountLockedUntil.None?
    requires b.mints[|b.mints| - 1].refresh.user == u
    ensures Serves(cfg, b, t.request, t.at, t.response, t.post)
    ensures t.request.RefreshTokens? && t.response.TokensIssued? && t.post == b.(mints := t.post.mints)
    ensures LedgerInvariant(cfg, t.post.mints) && |t.post.mints| == |b.mints| + 1
    ensures var m := t.post.mints[|b.mints|];
            m.refresh.user == u && m.refresh.iat == b.mints[|b.mints| - 1].refresh.iat + (cfg.refreshLifetime - 1)
  {
    assert EntryIsSound(cfg, b.mints, |b.mints| - 1);
    var token := b.mints[|b.mints| - 1].refresh;
    var now := token.iat + cfg.refreshLifetime - 1;
    var m := GenerateToken(cfg, u, token.cluster, None, now, |b.mints|, Some(token.jti));
    t := Transition(RefreshTokens(token), Readings(now, now, now), TokensIssued(|b.mints|), b.(mints := b.mints + [m]));
    StepOnLedger(cfg, b, t);
  }

  /** The lifetime bound is per refresh, not per session: one exchange every refresh lifetime less a
      second keeps a session alive for ever. */
  lemma {:induction false} SessionsCanBeExtended(cfg: Config, s: State, u: UserId, n: nat) returns (tr: Trace)
    requires cfg.refreshLifetime > 1 && |s.mints| > 0 && LedgerInvariant(cfg, s.mints)
    requires u != "" && u in s.accounts && s.accounts[u].isActive && s.accounts[u].security.accountLockedUntil.None?
    requires s.mints[|s.mints| - 1].refresh.user == u
    ensures |tr| == n && Run(cfg, s, tr)
    ensures forall i :: 0 <= i < n ==> tr[i].request.RefreshTokens? && tr[i].response.TokensIssued?
    ensures var last := Final(s, tr).mints;
            && Final(s, tr) == s.(mints := last)
            && |last| == |s.mints| + n && LedgerInvariant(cfg, last)
            && last[|last| - 1].refresh.user == u
            && last[|last| - 1].refresh.iat == s.mints[|s.mints| - 1].refresh.iat + n * (cfg.refreshLifetime - 1)
  {
    if n == 0 {
      tr := [];
    } else {
      var before := SessionsCanBeExtended(cfg, s, u, n - 1);
      hide Serves, LedgerInvariant;
      var t := ExtendOnce(cfg, Final(s, before), u);
      tr := before + [t];
      assert tr[..|tr| - 1] == before;
      AR.OneMore(n - 1, cfg.refreshLifetime - 1);
    }
  }

  lemma StepKeepsAccess(cfg: Config, s: State, t: Transition, u: UserId)
    requires u in s.accounts && Serves(cfg, s, t.request, t.at, t.response, t.post)
    ensures u in t.post.accounts
    ensures t.post.accounts[u].primaryCluster == s.accounts[u].primaryCluster
    ensures t.post.accounts[u].clusters == s.accounts[u].clusters
  {
  }

  lemma {:induction false} RunKeepsAccess(cfg: Config, s: State, tr: Trace, u: UserId)
    requires u in s.accounts && Run(cfg, s, tr)
    ensures u in Final(s, tr).accounts
    ensures Final(s, tr).accounts[u].primaryCluster == s.accounts[u].primaryCluster
    ensures Final(s, tr).accounts[u].clusters == s.accounts[u].clusters
  {
    if |tr| > 0 {
      RunKeepsAccess(cfg, s, tr[..|tr| - 1], u);
      StepKeepsAccess(cfg, Final(s, tr[..|tr| - 1]), tr[|tr| - 1], u);
    }
  }

  /** Once accepted, an access token is accepted after any run of requests, password changes and
      resets included, exactly until it expires, except while its account is locked. */
  lemma AcceptedUntilExpiryIff(cfg: Config, s: State, t: Token, at: Readings, tr: Trace, later: Transition)
    requires LedgerInvariant(cfg, s.mints)
    requires Serves(cfg, s, Authenticate(t), at, Authenticated(t.user, t.cluster), s)
    requires Run(cfg, s, tr) && Timed(at.first, tr) && at.first <= later.at.first
    requires later.request == Authenticate(t)
    requires Serves(cfg, Final(s, tr), later.request, later.at, later.response, later.post)
    ensures t.user in Final(s, tr).accounts
    ensures later.response == if later.at.first < t.exp && !Locked(Security(Final(s, tr), t.user), later.at.second)
                              then Authenticated(t.user, t.cluster) else Rejected
  {
    LedgerInvariantHolds(cfg, s, tr, at.first);
    RunKeepsAccess(cfg, s, tr, t.user);
  }

  lemma {:induction false} RunKeepsActive(cfg: Config, s: State, tr: Trace, u: UserId)
    requires u in s.accounts && Run(cfg, s, tr)
    ensures u in Final(s, tr).accounts && Final(s, tr).accounts[u].isActive == s.accounts[u].isActive
  {
    if |tr| > 0 {
      var before := tr[..|tr| - 1];
      RunKeepsActive(cfg, s, before, u);
      StepKeepsActive(cfg, Final(s, before), tr[|tr| - 1], u);
    }
  }

  lemma StepKeepsActive(cfg: Config, s: State, t: Transition, u: UserId)
    requires u in s.accounts && Serves(cfg, s, t.request, t.at, t.response, t.post)
    ensures u in t.post.accounts && t.post.accounts[u].isActive == s.accounts[u].isActive
  {
  }

  /** Once exchanged, a refresh token can be exchanged again after any run, exactly until it expires,
      except while its account is locked. */
  lemma ExchangeableUntilExpiryIff(cfg: Config, s: State, first: Transition, tr: Trace, later: Transition)
    requires LedgerInvariant(cfg, s.mints)
    requires first.request.RefreshTokens? && first.response.TokensIssued? && first.at.Ordered()
    requires Serves(cfg, s, first.request, first.at, first.response, first.post)
    requires Run(cfg, first.post, tr) && Timed(first.at.third, tr) && first.at.third <= later.at.first
    requires later.request == first.request
    requires Serves(cfg, Final(first.post, tr), later.request, later.at, later.response, later.post)
    ensures var t := first.request.token;
            var now := Final(first.post, tr);
            later.response == if later.at.first < t.exp && !Locked(Security(now, t.user), later.at.second)
                              then TokensIssued(|now.mints|) else Rejected
  {
    StepOnLedger(cfg, s, first);
    LedgerInvariantHolds(cfg, first.post, tr, first.at.third);
    RunKeepsActive(cfg, first.post, tr, first.request.token.user);
  }

  // ---------------------------------------------------------------- registering and logging in

  /** Registration normalises the address and login does not. Who registers with a password is logged
      in to the new account with the address and password as typed if and only if the address is its
      own normal form. Otherwise an older account stored under the address as typed is asked, if any. */
  lemma RegisteredAddressLogsInIff(cfg: Config, s: State, register: Transition, login: Transition)
    requires register.request.RegisterUser? && register.request.password != "" && register.response != Rejected
    requires Serves(cfg, s, register.request, register.at, register.response, register.post)
    requires login.request.LoginUser?
    requires login.request.user == register.request.email && login.request.password == register.request.password
    requires Serves(cfg, register.post, login.request, login.at, login.response, login.post)
    ensures var email := register.request.email;
            var minted := login.response.TokensIssued?;
            && (minted ==> |login.post.mints| == |register.post.mints| + 1)
            && (minted && login.post.mints[|register.post.mints|].access.user == cfg.normalize(email)
                <==> cfg.normalize(email) == email)
            && (minted <==> || cfg.normalize(email) == email
                            || (&& email in s.accounts
                                && CheckPassword(register.request.password, s.accounts[email].security.password)
                                && !Locked(s.accounts[email].security, login.at.first)))
  {
  }

  // ---------------------------------------------------------------- forced logout

  /** Neither authentication nor refresh looks at the blacklist: with any other blacklist they answer
      the same and leave the same behind. */
  lemma AcceptanceIgnoresBlacklist(cfg: Config, s: State, t: Transition, blacklist: set<nat>)
    requires t.request.Authenticate? || t.request.RefreshTokens?
    ensures Serves(cfg, s, t.request, t.at, t.response, t.post)
            ==> && t.post.blacklist == s.blacklist
                && Serves(cfg, s.(blacklist := blacklist), t.request, t.at, t.response, t.post.(blacklist := blacklist))
  {
    assert s.(blacklist := blacklist).(mints := t.post.mints) == s.(mints := t.post.mints).(blacklist := blacklist);
  }

  /** A password reset always forces a logout, and blacklists every registered token of its user. Yet
      whatever access token was accepted, and whatever refresh token was exchanged, before it still is
      after it, although forced logout is documented to invalidate them. */
  lemma ForcedLogoutKeepsTokens(cfg: Config, s: State, reset: Transition, t: Transition)
    requires reset.request.ResetPassword? && reset.response.Consumed?
    requires Serves(cfg, s, reset.request, reset.at, reset.response, reset.post)
    requires t.request.Authenticate? || t.request.RefreshTokens?
    requires Serves(cfg, s, t.request, t.at, t.response, t.post) && t.response != Rejected
    ensures reset.response.record < |s.records|
    ensures OutstandingOf(s, s.records[reset.response.record].requestedBy) <= reset.post.blacklist
    ensures exists post :: Serves(cfg, reset.post, t.request, t.at, t.response, post)
  {
    var post := reset.post.(mints := t.post.mints);
    assert reset.post.mints == s.mints;
    assert Serves(cfg, reset.post, t.request, t.at, t.response, post);
  }

  lemma {:induction false} OnlyRegisteredTokensAreBlacklisted(cfg: Config, s: State, tr: Trace)
    requires Run(cfg, s, tr)
    ensures Final(s, tr).outstanding == s.outstanding
    ensures s.blacklist <= Final(s, tr).blacklist <= s.blacklist + s.outstanding.Keys
  {
    if |tr| > 0 {
      var before := tr[..|tr| - 1];
      OnlyRegisteredTokensAreBlacklisted(cfg, s, before);
      StepOnBlacklist(cfg, Final(s, before), tr[|tr| - 1]);
    }
  }

  /** Who may be logged out by a request: the user of a reset or of a change that asks for it. */
  lemma StepOnBlacklist(cfg: Config, s: State, t: Transition)
    requires Serves(cfg, s, t.request, t.at, t.response, t.post)
    ensures t.post.outstanding == s.outstanding
    ensures t.post.blacklist == s.blacklist || exists u :: t.post.blacklist == s.blacklist + OutstandingOf(s, u)
  {
    if t.request.ChangeUserPassword? {
      assert t.post.blacklist == s.blacklist || t.post.blacklist == s.blacklist + OutstandingOf(s, t.request.user);
    }
    if t.request.ResetPassword? && t.response.Consumed? {
      assert t.post.blacklist == s.blacklist + OutstandingOf(s, s.records[t.response.record].requestedBy);
    }
  }

  /** The tokens of this application are never registered, so a database without registered tokens
      never has anything blacklisted, however many logouts are forced. */
  lemma NothingIsEverBlacklisted(cfg: Config, s: State, tr: Trace)
    requires s.outstanding == map[] && s.blacklist == {} && Run(cfg, s, tr)
    ensures Final(s, tr).blacklist == {}
  {
    OnlyRegisteredTokensAreBlacklisted(cfg, s, tr);
  }

  const DEFAULT_CONFIG := DefaultConfig((email: string) => email)
  const SESSION := GenerateToken(DEFAULT_CONFIG, "u", Some("c"), None, 0, 0, None)
  const TEN := Readings(10, 10, 10)

  predicate InSession(s: State) {
    && s.mints == [SESSION]
    && "u" in s.accounts
    && s.accounts["u"].isActive
    && s.accounts["u"].primaryCluster == Some("c")
    && s.accounts["u"].security.accountLockedUntil.None?
  }

  lemma SessionIsAccepted(s: State)
    requires InSession(s)
    ensures Serves(DEFAULT_CONFIG, s, Authenticate(SESSION.access), TEN, Authenticated("u", Some("c")), s)
    ensures exists post :: Serves(DEFAULT_CONFIG, s, RefreshTokens(SESSION.refresh), TEN, TokensIssued(1), post)
  {
    var next := GenerateToken(DEFAULT_CONFIG, "u", Some("c"), None, 10, 1, Some(0));
    assert Serves(DEFAULT_CONFIG, s, RefreshTokens(SESSION.refresh), TEN, TokensIssued(1),
                  s.(mints := s.mints + [next]));
  }

  const RESET := ResetPassword(Plain("12345"), "new", 1, true, false)

  /** One user with a session, a registered token and an unused record. */
  function ExampleState(): State {
    State(map["u" := NewAccount("old", 0, "c", "1")],
          [Record(Some("12345"), None, OtpEvent(PasswordReset), 0, "u", false)], [SESSION], map[0 := "u"], {})
  }

  lemma ExampleChange() returns (security: AccountState)
    ensures var before := NewAccount("old", 0, "c", "1").security;
            && ChangeStep(before, ResetChange(RESET), PasswordChanged, security)
            && Refusal(before, ResetChange(RESET)).None?
    ensures security.accountLockedUntil.None?
  {
    var before := NewAccount("old", 0, "c", "1").security;
    assert LastN(MAX_STORED_PASSWORDS, [] + [before.password]) == [before.password];
    security := AfterSuccess(before).(password := MakePassword("new", 1), history := Some([before.password]));
  }

  /** Such a case: the reset goes through and blacklists the registered token; the session's access
      token is accepted and its refresh token is exchanged afterwards. */
  lemma ForcedLogoutExample() returns (s: State, reset: Transition)
    ensures InSession(s) && OutstandingOf(s, "u") == {0} && s.blacklist == {}
    ensures reset.request.ResetPassword? && reset.response == Consumed(0)
    ensures Serves(DEFAULT_CONFIG, s, reset.request, reset.at, reset.response, reset.post)
    ensures reset.post.blacklist == {0}
    ensures Serves(DEFAULT_CONFIG, reset.post, Authenticate(SESSION.access), TEN, Authenticated("u", Some("c")),
                   reset.post)
    ensures exists post ::
              Serves(DEFAULT_CONFIG, reset.post, RefreshTokens(SESSION.refresh), TEN, TokensIssued(1), post)
  {
    s := ExampleState();
    var security := ExampleChange();
    var account := s.accounts["u"].(security := security);
    assert IsFirst(s.records, ByKey(RESET.key, TokenEvent(PasswordReset)), None, Some(0));
    var post := LoggedOut(s.(accounts := s.accounts["u" := account], records := Use(s.records, 0)), "u");
    hide ChangeStep, Refusal, IsFirst, AuthenticateStep, RefreshStep;
    reset := Transition(RESET, TEN, Consumed(0), post);
    assert Serves(DEFAULT_CONFIG, s, RESET, TEN, Consumed(0), post);
    SessionIsAccepted(post);
  }
}
