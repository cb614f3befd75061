/**
  What a verification key is good for: an issued key opens its own record within two hours, once,
  and for the purpose whose salt signed it; and what a verified phone number rests on.
 */
module VerificationKeys {
  import opened Prelude
  import opened Accounts
  import opened SecuritySystem
  import SR = SecurityRuns

  predicate Consumer(q: Request) {
    q.ResetPassword? || q.VerifyPhone? || q.VerifyProfileUpdate?
  }

  function QueryOf(q: Request): Query
    requires Consumer(q)
  {
    match q
    case ResetPassword(key, _, _, _, _) => ByKey(key, TokenEvent(PasswordReset))
    case VerifyPhone(_, _, code) => ByOtp(code)
    case VerifyProfileUpdate(_, key) => ByKey(key, TokenEvent(ProfileUpdate))
  }

  /** The user whose records the request may use; a password reset may use anybody's. */
  function OwnerOf(q: Request): Option<UserId>
    requires Consumer(q)
  {
    if q.ResetPassword? then None else Some(q.user)
  }

  predicate Opens(q: Request, r: Record)
    requires Consumer(q)
  {
    QueryOf(q).Matches(OwnerOf(q), r)
  }

  ghost predicate NothingOpens(q: Request, records: seq<Record>, from: nat)
    requires Consumer(q)
  {
    forall i :: from <= i < |records| ==> !Opens(q, records[i])
  }

  ghost predicate OnlyOpens(q: Request, records: seq<Record>, k: nat)
    requires Consumer(q)
  {
    && k < |records| && Opens(q, records[k])
    && forall i :: 0 <= i < |records| && i != k ==> !Opens(q, records[i])
  }

  /** What else a request needs, apart from an unexpired record. */
  ghost predicate OtherwiseFine(s: State, q: Request, r: Record)
    requires Consumer(q)
  {
    match q
    case ResetPassword(key, newPassword, _, _, lateFailure) =>
      && key != Plain("") && newPassword != "" && !lateFailure
      && r.requestedBy in s.accounts
      && Refusal(s.accounts[r.requestedBy].security, ResetChange(q)).None?
    case VerifyPhone(user, phone, _) => user in s.accounts && s.accounts[user].phoneNumber == phone
    case VerifyProfileUpdate(_, key) => key != Plain("")
  }

  /** Record k may be the one that is found: no record the key opens was issued later. */
  ghost predicate Newest(q: Request, records: seq<Record>, k: nat)
    requires Consumer(q)
  {
    && k < |records| && Opens(q, records[k])
    && forall i :: 0 <= i < |records| && Opens(q, records[i]) ==> records[i].requestedAt <= records[k].requestedAt
  }

  /** Record k is the one that is found: every other record the key opens was issued earlier. */
  ghost predicate StrictlyNewest(q: Request, records: seq<Record>, k: nat)
    requires Consumer(q)
  {
    && k < |records| && Opens(q, records[k])
    && forall i :: 0 <= i < |records| && i != k && Opens(q, records[i]) ==>
         records[i].requestedAt < records[k].requestedAt
  }

  ghost predicate Timely(s: State, q: Request, k: nat, now: int)
    requires Consumer(q) && k < |s.records|
  {
    OtherwiseFine(s, q, s.records[k]) && now <= s.records[k].requestedAt + 7200
  }

  /** A key is accepted exactly while the newest record it opens is at most two hours old. */
  lemma AcceptedIff(cfg: Config, s: State, t: SR.Transition, k: nat)
    requires Consumer(t.request) && StrictlyNewest(t.request, s.records, k)
    requires Serves(cfg, s, t.request, t.at, t.response, t.post)
    ensures t.response == Consumed(k) <==> Timely(s, t.request, k, t.at.first)
    ensures t.response != Consumed(k) ==> t.response == Rejected && t.post == s
  {
    forall found: Option<nat> | IsFirst(s.records, QueryOf(t.request), OwnerOf(t.request), found)
      ensures found == Some(k)
    {
      OnlyStrictlyNewestIsFirst(t.request, s.records, k, found);
    }
  }

  lemma OnlyStrictlyNewestIsFirst(q: Request, records: seq<Record>, k: nat, found: Option<nat>)
    requires Consumer(q) && StrictlyNewest(q, records, k)
    requires IsFirst(records, QueryOf(q), OwnerOf(q), found)
    ensures found == Some(k)
  {
    assert Opens(q, records[k]);
    if found.Some? {
      assert Opens(q, records[found.value]);
    }
  }

  lemma NewestIsFirst(q: Request, records: seq<Record>, k: nat)
    requires Consumer(q)
    ensures IsFirst(records, QueryOf(q), OwnerOf(q), Some(k)) <==> Newest(q, records, k)
  {
    if IsFirst(records, QueryOf(q), OwnerOf(q), Some(k)) {
      assert Opens(q, records[k]);
      forall i | 0 <= i < |records| && Opens(q, records[i]) ensures records[i].requestedAt <= records[k].requestedAt {
      }
    }
    if Newest(q, records, k) {
      forall i | 0 <= i < |records| && QueryOf(q).Matches(OwnerOf(q), records[i])
        ensures records[i].requestedAt <= records[k].requestedAt
      {
        assert Opens(q, records[i]);
      }
    }
  }

  lemma AcceptedMeansNewest(cfg: Config, s: State, t: SR.Transition, k: nat)
    requires Consumer(t.request) && t.response == Consumed(k)
    requires Serves(cfg, s, t.request, t.at, t.response, t.post)
    ensures Newest(t.request, s.records, k) && Timely(s, t.request, k, t.at.first)
  {
    NewestIsFirst(t.request, s.records, k);
  }

  lemma NewestCanBeAccepted(cfg: Config, s: State, q: Request, at: Readings, k: nat) returns (post: State)
    requires Consumer(q) && Newest(q, s.records, k) && Timely(s, q, k, at.first)
    ensures Serves(cfg, s, q, at, Consumed(k), post)
  {
    NewestIsFirst(q, s.records, k);
    assert Opens(q, s.records[k]);
    hide Newest, Opens, IsFirst;
    match q {
      case ResetPassword(_, _, _, _, _) =>
        var user := s.records[k].requestedBy;
        var security := SomeChange(s.accounts[user].security, ResetChange(q));
        post := LoggedOut(
          s.(accounts := s.accounts[user := s.accounts[user].(security := security)],
             records := Use(s.records, k)),
          user);
      case VerifyPhone(user, _, _) =>
        post := s.(accounts := s.accounts[user := s.accounts[user].(isPhoneVerified := true)],
                   records := Use(s.records, k));
      case VerifyProfileUpdate(_, _) =>
        post := s.(records := Use(s.records, k));
    }
  }

  /** A request can be accepted for a record exactly when none it opens is newer and it is in time;
      of several issued at one instant either may be found. */
  lemma CanBeAcceptedIff(cfg: Config, s: State, q: Request, at: Readings, k: nat)
    requires Consumer(q) && k < |s.records|
    ensures (exists post :: Serves(cfg, s, q, at, Consumed(k), post))
            <==> Newest(q, s.records, k) && Timely(s, q, k, at.first)
  {
    if post :| Serves(cfg, s, q, at, Consumed(k), post) {
      AcceptedMeansNewest(cfg, s, SR.Transition(q, at, Consumed(k), post), k);
    }
    if Newest(q, s.records, k) && Timely(s, q, k, at.first) {
      var post := NewestCanBeAccepted(cfg, s, q, at, k);
    }
  }

  // ---------------------------------------------------------------- whose account a reset changes

  ghost predicate PasswordDiffers(s: State, s': State, u: UserId) {
    u in s.accounts && u in s'.accounts && s.accounts[u].security.password != s'.accounts[u].security.password
  }

  /** The key of record k, issued to u, changes the password of u exactly when the newest record with
      that key was issued to u; it uses record k itself exactly when no later one has that key. */
  lemma ResetReachesIff(cfg: Config, s: State, t: SR.Transition, k: nat, newest: nat)
    requires t.request.ResetPassword? && t.response.Consumed?
    requires Serves(cfg, s, t.request, t.at, t.response, t.post)
    requires k < |s.records| && Opens(t.request, s.records[k])
    requires StrictlyNewest(t.request, s.records, newest)
    ensures PasswordDiffers(s, t.post, s.records[k].requestedBy)
            <==> s.records[newest].requestedBy == s.records[k].requestedBy
    ensures t.response == Consumed(k)
            <==> !exists i :: 0 <= i < |s.records| && Opens(t.request, s.records[i])
                           && s.records[i].requestedAt > s.records[k].requestedAt
  {
    AcceptedIff(cfg, s, t, newest);
    SR.ResetIsAtomic(cfg, s, t);
    assert t.response == Consumed(newest);
    hide Serves;
    var u := s.records[newest].requestedBy;
    assert PasswordDiffers(s, t.post, u);
    assert k != newest ==> s.records[newest].requestedAt > s.records[k].requestedAt;
  }

  /** Such a case: u was sent a code, then v was sent the same one, for another purpose even; a reset
      with the code of u can only change the password of v. */
  lemma ResetReachesAnother(cfg: Config, s: State, t: SR.Transition, u: UserId, v: UserId, code: string)
    requires u != v && |code| == 5
    requires s.records == [Record(Some(code), None, OtpEvent(PasswordReset), 0, u, false),
                           Record(Some(code), None, OtpEvent(PhoneVerification), 60, v, false)]
    requires t.request.ResetPassword? && t.request.key == Plain(code)
    requires Serves(cfg, s, t.request, t.at, t.response, t.post)
    ensures !PasswordDiffers(s, t.post, u)
    ensures t.response == Consumed(1) <==> Timely(s, t.request, 1, t.at.first)
    ensures t.response == Consumed(1) ==> PasswordDiffers(s, t.post, v)
  {
    assert Opens(t.request, s.records[0]) && Opens(t.request, s.records[1]);
    assert StrictlyNewest(t.request, s.records, 1);
    AcceptedIff(cfg, s, t, 1);
    if t.response.Consumed? {
      ResetReachesIff(cfg, s, t, 0, 1);
      ResetReachesIff(cfg, s, t, 1, 1);
    }
  }

  lemma RejectedWithoutRecord(cfg: Config, s: State, t: SR.Transition)
    requires Consumer(t.request) && NothingOpens(t.request, s.records, 0)
    requires Serves(cfg, s, t.request, t.at, t.response, t.post)
    ensures t.response == Rejected && t.post == s
  {
    forall found: Option<nat> | IsFirst(s.records, QueryOf(t.request), OwnerOf(t.request), found)
      ensures found == None
    {
      assert found.Some? ==> Opens(t.request, s.records[found.value]);
    }
  }

  /** A key works once: after it opened its only record it is rejected for ever, whatever happens in
      between, unless a later record is issued with the same key. */
  lemma UsedKeyIsDead(cfg: Config, s: State, t: SR.Transition, tr: SR.Trace, again: SR.Transition, k: nat)
    requires Consumer(t.request) && OnlyOpens(t.request, s.records, k)
    requires Serves(cfg, s, t.request, t.at, t.response, t.post) && t.response == Consumed(k)
    requires SR.Run(cfg, t.post, tr)
    requires Consumer(again.request)
    requires QueryOf(again.request) == QueryOf(t.request) && OwnerOf(again.request) == OwnerOf(t.request)
    requires NothingOpens(t.request, SR.Final(t.post, tr).records, |s.records|)
    requires Serves(cfg, SR.Final(t.post, tr), again.request, again.at, again.response, again.post)
    ensures again.response == Rejected && again.post == SR.Final(t.post, tr)
  {
    var now := SR.Final(t.post, tr);
    SR.StepOnRecords(cfg, s, t);
    hide Serves;
    assert |t.post.records| == |s.records|;
    forall i | 0 <= i < |now.records| ensures !Opens(again.request, now.records[i]) {
      if i < |s.records| {
        SR.RecordsPersist(cfg, t.post, tr, i);
        assert i != k ==> !Opens(t.request, s.records[i]);
      } else {
        assert !Opens(t.request, now.records[i]);
      }
    }
    RejectedWithoutRecord(cfg, now, again);
  }

  /** The key that is sent out for a record: the code itself, or the token signed under its event. */
  function KeyOf(r: Record): Key
    requires r.otp.Some? || r.token.Some?
  {
    if r.otp.Some? then Plain(r.otp.value) else Signed(r.token.value, r.event)
  }

  /** The reason a keyed request consumes records for. */
  function PurposeOf(q: Request): Reason
    requires q.ResetPassword? || q.VerifyProfileUpdate?
  {
    if q.ResetPassword? then PasswordReset else ProfileUpdate
  }

  /** An issued key opens its own record: any code of the generated length does, a signed token does
      exactly for the purpose it was issued for. */
  lemma IssuedKeyOpensIff(mode: Mode, reason: Reason, code: string, now: int, q: Request)
    requires q.ResetPassword? || q.VerifyProfileUpdate?
    requires NewRecord(mode, reason, code, if q.VerifyProfileUpdate? then q.user else "", now).Some?
    requires mode != WebToken ==> |code| == 5
    requires q.key == KeyOf(NewRecord(mode, reason, code, if q.VerifyProfileUpdate? then q.user else "", now).value)
    ensures Opens(q, NewRecord(mode, reason, code, if q.VerifyProfileUpdate? then q.user else "", now).value)
            <==> mode != WebToken || reason == PurposeOf(q)
  {
  }

  /** Issue and verify: a key requested for a profile update is accepted within two hours and opens
      the record issued for it, provided each older record it opens was issued strictly earlier. */
  lemma IssuedProfileKeyWorks(cfg: Config, s: State, issue: SR.Transition, verify: SR.Transition)
    requires issue.request.IssueVerification? && issue.request.reason == ProfileUpdate && issue.response != Rejected
    requires issue.request.mode != WebToken ==> |issue.request.code| == 5
    requires Serves(cfg, s, issue.request, issue.at, issue.response, issue.post)
    requires verify.request.VerifyProfileUpdate? && verify.request.user == issue.request.user
    requires |issue.post.records| > |s.records| && verify.request.key == KeyOf(issue.post.records[|s.records|])
    requires forall i :: 0 <= i < |s.records| && Opens(verify.request, s.records[i]) ==>
               s.records[i].requestedAt < issue.at.first
    requires Serves(cfg, issue.post, verify.request, verify.at, verify.response, verify.post)
    ensures verify.response ==
            if verify.at.first <= issue.at.first + 7200 then Consumed(|s.records|) else Rejected
  {
    var q := issue.request;
    IssuedKeyOpensIff(q.mode, q.reason, q.code, issue.at.first, verify.request);
    AcceptedIff(cfg, issue.post, verify, |s.records|);
  }

  // ---------------------------------------------------------------- phone numbers

  predicate HasVerifiedPhone(s: State, u: UserId) {
    u in s.accounts && s.accounts[u].isPhoneVerified
  }

  lemma StepOnPhone(cfg: Config, s: State, t: SR.Transition, u: UserId)
    requires Serves(cfg, s, t.request, t.at, t.response, t.post) && HasVerifiedPhone(t.post, u)
    ensures var phone := t.post.accounts[u].phoneNumber;
            || (HasVerifiedPhone(s, u) && s.accounts[u].phoneNumber == phone)
            || (t.request.VerifyPhone? && t.request.user == u && t.request.phone == phone && t.response.Consumed?)
  {
  }

  predicate PhoneIs(s: State, u: UserId, phone: string) {
    HasVerifiedPhone(s, u) && s.accounts[u].phoneNumber == phone
  }

  predicate PhoneIsSince(tr: SR.Trace, i: nat, u: UserId, phone: string) {
    forall j :: i <= j < |tr| ==> PhoneIs(tr[j].post, u, phone)
  }

  lemma PhoneIsLonger(tr: SR.Trace, i: nat, u: UserId, phone: string)
    requires |tr| > 0 && PhoneIsSince(tr[..|tr| - 1], i, u, phone) && PhoneIs(tr[|tr| - 1].post, u, phone)
    ensures PhoneIsSince(tr, i, u, phone)
  {
    forall j | i <= j < |tr| ensures PhoneIs(tr[j].post, u, phone) {
      assert j < |tr| - 1 ==> tr[..|tr| - 1][j] == tr[j];
    }
  }

  /** A verified phone number is the one its owner last verified: some request of the run named that
      number and consumed a record of that user, and the number has not changed since. */
  lemma {:induction false} VerifiedPhoneWasVerified(cfg: Config, s: State, tr: SR.Trace, u: UserId) returns (i: nat)
    requires SR.Run(cfg, s, tr) && !HasVerifiedPhone(s, u) && HasVerifiedPhone(SR.Final(s, tr), u)
    ensures i < |tr| && tr[i].request.VerifyPhone? && tr[i].request.user == u && tr[i].response.Consumed?
    ensures PhoneIsSince(tr, i, u, tr[i].request.phone)
  {
    var n := |tr| - 1;
    var before := SR.Final(s, tr[..n]);
    StepOnPhone(cfg, before, tr[n], u);
    assert SR.Run(cfg, s, tr[..n]);
    hide Serves, SR.Run;
    var phone := tr[n].post.accounts[u].phoneNumber;
    if PhoneIs(before, u, phone) {
      i := VerifiedPhoneWasVerified(cfg, s, tr[..n], u);
      assert tr[..n][n - 1].post == before;
      hide HasVerifiedPhone;
      PhoneIsLonger(tr, i, u, phone);
    } else {
      i := n;
    }
  }

  // ---------------------------------------------------------------- where a code was sent

  /** The number that a record's code was sent to: none for records from before the run and for those
      sent by mail. */
  function Recipient(s: State, tr: SR.Trace, k: nat): Option<string> {
    if |tr| == 0 then None
    else
      var n := |tr| - 1;
      if k < |SR.Final(s, tr[..n]).records| then Recipient(s, tr[..n], k)
      else if tr[n].request.IssuePhoneVerification? then Some(tr[n].request.phone)
      else None
  }

  /** After the run, the user's stored number can be verified with a code that was not sent to it. */
  ghost predicate VerifiesUnsent(cfg: Config, s: State, tr: SR.Trace, u: UserId, at: Readings, code: string, k: nat,
                                 post: State)
  {
    var now := SR.Final(s, tr);
    && u in now.accounts
    && Serves(cfg, now, VerifyPhone(u, now.accounts[u].phoneNumber, code), at, Consumed(k), post)
    && Recipient(s, tr, k) != Some(now.accounts[u].phoneNumber)
  }

  /** That is so exactly when some unexpired record, the newest of the user's unused ones with its code,
      was not sent to the stored number. */
  lemma UnsentCodeVerifiesIff(cfg: Config, s: State, tr: SR.Trace, u: UserId, at: Readings)
    requires u in SR.Final(s, tr).accounts
    ensures var now := SR.Final(s, tr);
            (exists code, k: nat, post :: VerifiesUnsent(cfg, s, tr, u, at, code, k, post))
            <==> exists k: nat :: && IsOpenCode(now, u, k, at.first)
                                  && Recipient(s, tr, k) != Some(now.accounts[u].phoneNumber)
  {
    var now := SR.Final(s, tr);
    var phone := now.accounts[u].phoneNumber;
    if code: string, k: nat, post: State :| VerifiesUnsent(cfg, s, tr, u, at, code, k, post) {
      AcceptedMeansNewest(cfg, now, SR.Transition(VerifyPhone(u, phone, code), at, Consumed(k), post), k);
      assert now.records[k].otp == Some(code);
      assert IsOpenCode(now, u, k, at.first);
    }
    if k: nat :| IsOpenCode(now, u, k, at.first) && Recipient(s, tr, k) != Some(phone) {
      var code := now.records[k].otp.value;
      var post := NewestCanBeAccepted(cfg, now, VerifyPhone(u, phone, code), at, k);
      assert VerifiesUnsent(cfg, s, tr, u, at, code, k, post);
    }
  }

  ghost predicate IsOpenCode(s: State, u: UserId, k: nat, now: int) {
    && k < |s.records| && s.records[k].otp.Some?
    && Newest(VerifyPhone(u, "", s.records[k].otp.value), s.records, k)
    && now <= s.records[k].requestedAt + 7200
  }

  /** A code that was sent to one number verifies another: change the number in between. */
  lemma CodeForAnotherNumber(cfg: Config, s: State, u: UserId, a: string, b: string, code: string, other: string)
      returns (tr: SR.Trace)
    requires u in s.accounts && s.records == [] && a != b && code != other
    ensures SR.Run(cfg, s, tr) && SR.Timed(0, tr) && |tr| == 3
    ensures tr[2].request == VerifyPhone(u, b, code) && tr[2].response == Consumed(0)
    ensures Recipient(s, tr, 0) == Some(a)
  {
    var at := Readings(0, 0, 0);
    var s1 := Numbered(s, u, a, code);
    var s2 := Numbered(s1, u, b, other);
    var one := SR.Transition(IssuePhoneVerification(u, a, code, false), at, Issued(0), s1);
    var two := SR.Transition(IssuePhoneVerification(u, b, other, false), at, Issued(1), s2);
    assert Newest(VerifyPhone(u, b, code), s2.records, 0);
    var s3 := NewestCanBeAccepted(cfg, s2, VerifyPhone(u, b, code), at, 0);
    var three := SR.Transition(VerifyPhone(u, b, code), at, Consumed(0), s3);
    tr := [one, two, three];
    assert tr[..2] == [one, two] && [one, two][..1] == [one] && [one][..0] == [];
    hide Serves, Newest;
    assert SR.Run(cfg, s, []) && SR.Timed(0, []);
    assert SR.Run(cfg, s, [one]) && SR.Timed(0, [one]) && Recipient(s, [one], 0) == Some(a);
    assert SR.Run(cfg, s, [one, two]) && SR.Timed(0, [one, two]) && Recipient(s, [one, two], 0) == Some(a);
  }

  function Numbered(s: State, u: UserId, phone: string, code: string): State
    requires u in s.accounts
  {
    var account := s.accounts[u];
    s.(accounts := if account.phoneNumber == phone then s.accounts
                   else s.accounts[u := account.(phoneNumber := phone, isPhoneVerified := false)],
       records := s.records + [Record(Some(code), None, OtpEvent(PhoneVerification), 0, u, false)])
  }

  predicate IssuesOnlyTo(q: Request, u: UserId, phone: string) {
    && (q.IssueVerification? ==> q.user != u)
    && (q.IssuePhoneVerification? && q.user == u ==> q.phone == phone)
  }

  ghost predicate AllSentTo(s: State, tr: SR.Trace, u: UserId, phone: string) {
    var now := SR.Final(s, tr);
    forall k :: 0 <= k < |now.records| && now.records[k].requestedBy == u ==>
      Recipient(s, tr, k) == Some(phone) && u in now.accounts && now.accounts[u].phoneNumber == phone
  }

  lemma StepOnOwnRecords(cfg: Config, s: State, t: SR.Transition, u: UserId, phone: string)
    requires u in s.accounts && Serves(cfg, s, t.request, t.at, t.response, t.post)
    requires IssuesOnlyTo(t.request, u, phone)
    ensures u in t.post.accounts
    ensures forall k :: |s.records| <= k < |t.post.records| && t.post.records[k].requestedBy == u ==>
              t.request.IssuePhoneVerification? && t.request.phone == phone && t.post.accounts[u].phoneNumber == phone
    ensures s.accounts[u].phoneNumber == phone ==> t.post.accounts[u].phoneNumber == phone
    ensures |s.records| <= |t.post.records|
    ensures forall k :: 0 <= k < |s.records| ==> t.post.records[k].requestedBy == s.records[k].requestedBy
  {
  }

  lemma {:induction false} OneNumberRun(cfg: Config, s: State, tr: SR.Trace, u: UserId, phone: string)
    requires u in s.accounts && forall k :: 0 <= k < |s.records| ==> s.records[k].requestedBy != u
    requires SR.Run(cfg, s, tr) && forall i :: 0 <= i < |tr| ==> IssuesOnlyTo(tr[i].request, u, phone)
    ensures u in SR.Final(s, tr).accounts && AllSentTo(s, tr, u, phone)
  {
    if |tr| > 0 {
      var n := |tr| - 1;
      OneNumberRun(cfg, s, tr[..n], u, phone);
      StepOnOwnRecords(cfg, SR.Final(s, tr[..n]), tr[n], u, phone);
      hide Serves;
    }
  }

  /** As long as a user asks for phone codes to one number only, and gets no other codes, every number
      that is verified was sent the code used. */
  lemma OneNumberIsSentItsCode(cfg: Config, s: State, tr: SR.Trace, verify: SR.Transition, u: UserId, phone: string)
    requires u in s.accounts && forall k :: 0 <= k < |s.records| ==> s.records[k].requestedBy != u
    requires SR.Run(cfg, s, tr) && forall i :: 0 <= i < |tr| ==> IssuesOnlyTo(tr[i].request, u, phone)
    requires verify.request.VerifyPhone? && verify.request.user == u && verify.response.Consumed?
    requires Serves(cfg, SR.Final(s, tr), verify.request, verify.at, verify.response, verify.post)
    ensures verify.request.phone == phone && Recipient(s, tr, verify.response.record) == Some(phone)
  {
    OneNumberRun(cfg, s, tr, u, phone);
    AcceptedMeansNewest(cfg, SR.Final(s, tr), verify, verify.response.record);
  }
}
