# Verification of the ClustR back end

This project models the parts of ClustR that keep state of their own and proves what they guarantee over
whole runs. The central part is the account-security state machine: failed-login lockout, password history,
one-time verification records and JSON Web Tokens. Around it stand the bulk imports of residents, the model
splitter, the announcement counters, and the text encodings that have to invert. `dafny verify dfyconfig.toml`
checks everything.

Every operation of the source that changes state is a method on a class, proved against a relation or a
function on plain values; the laws are lemmas about arbitrarily long runs of that relation.

- **`Accounts`, `AccountRuns`** — the security fields of one account, and runs of logins and password changes.
  Hashes are ideal (`Hash(secret, salt)`), and `list(set(xs))` yields the distinct elements in an arbitrary
  order. One request reads the clock up to three times, each reading a parameter.
- **`SecuritySystem`, `SecurityRuns`** — the requests of all users over one database of accounts,
  verification records and minted tokens. `ProjectionIsRun` carries every result of `AccountRuns` over to any
  interleaving. A token is genuine exactly when the ledger of mints holds it; `exp`, `iat` and `jti` are those
  of sections 4.1.4, 4.1.6 and 4.1.7 of RFC 7519.
- **`VerificationKeys`** — what an issued verification key opens, for how long and how often, and what a verified
  phone number rests on.
- **`SecurityAnswers`** — exactly when each security request is accepted and what it stores, in terms of the stored
  rows and the request alone.
- **`ResidentImport`** — the two-pass import and the single fold it refines whenever it completes. The validators
  and the e-mail normalisation are given functions; what the serializer takes for granted of the account model and
  of Django is a parameter (`Surroundings`), with its values as written and as intended.
- **`CsvImport`** — the CSV upsert, including cells missing from short rows and values the
  database refuses.
- **`ModelSplitter`** — line spans of classes, grouping of classes into files, the sort and the export list.
- **`Announcements`** — counters, relation tables and read tracking under member and manager requests.
- **`Roles`** — the `owner:name` encoding and the protected primary role.
- **`ImportInsertion`**, **`NameSplit`** — inserting an import statement into a file; first and last name.
- **`Text`**, **`Prelude`** — Python string operations with their laws, and a small shared vocabulary.

## Where the code differs from what it says

- The bulk import of residents stores nothing as written. Building an account passes a `cluster_id`, and notifying it
  reads a `cluster`, that the account model does not have; and with upserts the updated residents are added to what
  `bulk_create` returns for no accounts, which is the empty view it was given and no list. So a file without row
  errors completes if and only if every row names a known resident and nothing is to be updated; otherwise it raises
  and is rolled back (`ImportAsWritten`, `ImportsThatRaise`). What the two passes would store is proved for every
  import that completes, and for all error-free files under the surroundings the code was meant for
  (`CompletedImport`, `IntendedImportCompletes`).
- Also as intended, the duplicate check speaks of e-mail addresses but compares names, so rows may share an address;
  the last one wins. A row whose address is taken only after normalisation, or by someone else's account, is dropped
  without an error (`OnlyEffectiveRowsCount`, `EffectiveRowIsStored`, `RowCanBeLost`).
- The history is documented as the last ten passwords, but saving lists it through a `set`, so the entry dropped
  is an arbitrary one. What survives: the first N + 2 passwords differ, and any three consecutive ones differ.
  Runs from an empty history show that neither bound can be improved (`FirstPasswordReturns`,
  `PasswordReturnsAfterTwo`). `add_password`, which would keep the newest hash in front, is called nowhere.
- `change_password` has a branch that creates a missing history row, but the validation before it reads that row
  and fails, so such an account never changes its password (`NoHistoryNoChange`).
- `force_logout` is documented to invalidate all tokens. It blacklists the registered ones; but neither
  authentication nor refresh consults the blacklist (`AcceptanceIgnoresBlacklist`), so tokens stay accepted
  (`ForcedLogoutKeepsTokens`, with a concrete case in `ForcedLogoutExample`); and the tokens of this application are
  never registered (`NothingIsEverBlacklisted`). A session has no overall lifetime (`SessionsCanBeExtended`).
- Registration normalises the address and login does not: who registers is logged in to the new account with the
  address as typed if and only if that is its own normal form; otherwise an older account stored under the address as
  typed is asked, if there is one (`RegisteredAddressLogsInIff`).
- A phone number is verified by any unused code of its user, for whatever number or purpose it was issued, so a
  verified number need not have been sent the code (`CodeForAnotherNumber`). `UnsentCodeVerifiesIff` says exactly when
  that can happen, `OneNumberIsSentItsCode` when it never does.
- A password reset looks its code up among all users' codes and takes the newest, so a code reaches the account it was
  issued for exactly when the newest record with that code is that account's (`ResetReachesIff`,
  `ResetReachesAnother`).
- A CSV import whose transaction was marked for rollback, by an overlong value or a NUL character for a resident it
  updates, stores nothing, yet the response reports the rows handled before it (`CreatedIsStoredIff` gives the exact
  condition, `CreatedButNotStored` a file).
- The splitter writes nothing that stands above the first class header: no import, no constant, no function, and not
  the first class's own decorators (`LinesAboveAreLost`, `FirstDecoratorIsLost`). After it, it loses the decorators of
  later classes, top-level functions between classes, and all but the last of several classes with one name.
  `NoLineLostIff` gives the exact condition from the first header on, `WholeFileIsKeptIff` that for the whole file.
- An import statement is glued to the last line when that is an import of the first block (`EditIsLineSafeIff`,
  `GluedExample`), and put inside the parentheses of an import that spans lines (`InsertedBeforeLineIff`,
  `ParenthesesExample`).
- The name field of the role API and `display_name` decode differently. They agree exactly when a colon follows the
  owner (`FieldAgreesIff`); the field shows another role as "Administrator" exactly when its name has something
  between the owner and the first colon (`ShownTwiceIff`).

## Model

| member | source | states |
|---|---|---|
| AccountRuns.GuessBound | accounts/authentication_utils.py:50-81 | In any run, from any state, interleaved with successes, password changes and refused requests: attempts that reach the password comparison and fail number at most the free guesses of the start, those of each reset, and one per lockout duration of elapsed time |
| AccountRuns.DefaultGuessBound | accounts/authentication_utils.py:20-21 | With 5 attempts and 30 minutes, a fresh counter and no success: at most 5 + floor(T / 30 min) guesses in a span T |
| AccountRuns.GuessesPushTheLock | accounts/authentication_utils.py:68-70 | The invariant behind the bound: each guess beyond the granted ones has pushed time by a whole lockout, and with no free guess left the account is locked for one more |
| AccountRuns.GrantedPerReset | accounts/authentication_utils.py:94-96 | The free guesses granted in a run are those of its first state plus one full allowance per success or password change |
| AccountRuns.GuessBoundIsTight | accounts/authentication_utils.py:66-70 | For every number of lockouts there is a run that attains the bound exactly |
| AccountRuns.DefaultGuessBoundIsTight | accounts/authentication_utils.py:20-21 | With the default settings a run with exactly 5 guesses and one more per half hour exists, so neither number can be lower |
| AccountRuns.FreeGuessesRun | accounts/authentication_utils.py:61-70 | All free guesses can be made at a single instant, and only the last one locks |
| AccountRuns.NoLockoutNoBound | accounts/authentication_utils.py:62-70 | Without a positive lockout duration any number of guesses fits one instant: the premise of the bound is needed |
| AccountRuns.LockInvariantHolds | accounts/authentication_utils.py:64-81 | In every reachable state the lock is set exactly when the counter has reached the limit; the counter equals the failed comparisons since the last success or password change; the lock ends at least, and with one clock reading per request exactly, one lockout after the last failure |
| AccountRuns.ChangeKeepsHistoryInvariant | accounts/utils.py:60-70 | One password change: the new password was neither current nor in the history, the old one is in the history afterwards, nothing is forgotten below ten entries and nothing else is added, and the history stays duplicate-free |
| AccountRuns.HistoryInvariantHolds | accounts/models/users.py:356-358 | In every reachable state the history has at most ten entries, no password twice, and not the current one, so listing it through a set only reorders it |
| AccountRuns.ListingKeepsSecretsDistinct | accounts/models/users.py:356-358 | Listing a duplicate-free history through a set loses no entry and repeats no password, in whatever order |
| AccountRuns.FirstPasswordsDiffer | accounts/utils.py:60-70 | From an empty history the first twelve passwords of the account are pairwise distinct |
| AccountRuns.ListedFirstMayReturn | accounts/utils.py:65-70 | One step of the next row: with a full history, the password listed first is accepted again after one other change |
| AccountRuns.FirstPasswordReturns | accounts/models/users.py:356-358 | N + 2 is exact: from every empty history a run of changes exists in which the thirteenth password of the account is its first one |
| AccountRuns.FillingRun | accounts/utils.py:60-70 | From every empty history n changes fill the history with the n passwords before the current one, for each n up to the limit |
| AccountRuns.ThreeConsecutiveDiffer | accounts/utils.py:97-107 | In runs of any length any three consecutive passwords are pairwise distinct |
| AccountRuns.FourthPasswordMayRepeat | accounts/models/users.py:356-358 | Three steps of the next row: with a full history a password can return as the fourth of four, for some listing order of the set |
| AccountRuns.PasswordReturnsAfterTwo | accounts/models/users.py:356-358 | Three is exact: from every empty history a run exists in which a password of the account returns after two others |
| AccountRuns.NoHistoryNoChange | accounts/utils.py:61-63 | An account without a history row never changes its password, in any run |
| AccountRuns.LoginSucceedsIff | accounts/authentication_utils.py:169-182 | A login succeeds if and only if the password is the account's and no lock lies in the future; a wrong one outside the lock counts one failure, a locked account does not change |
| AccountRuns.ChangeGoesThroughIff | accounts/utils.py:41-43 | A change goes through if and only if no checked lock is in force, the current password, if given, is right and comes with a new one, the new one is neither current nor in an existing history, and the validators accept it; otherwise nothing changes |
| AccountRuns.ChangeStores | accounts/utils.py:45-70 | A change stores a hash of the new password, clears failures and lock, and keeps the retired hash in a history of at most ten |
| AccountRuns.ChangedPasswordLogsInIff | accounts/utils.py:50-58 | After a change exactly the new password logs in, whatever lock was in force before |
| Accounts.CheckAccountLockout | accounts/authentication_utils.py:24-47 | Locked means a lock time strictly in the future of the reading |
| Accounts.HandleFailedLogin | accounts/authentication_utils.py:50-81 | Counts the failure and stamps it, and sets the lock from the third reading exactly when the new count reaches the limit; every other field is kept |
| Accounts.HandleSuccessfulLogin | accounts/authentication_utils.py:84-107 | Clears counter and lock and nothing else |
| Accounts.HandleUserLogin | accounts/authentication_utils.py:169-182 | A locked account is refused before the password is compared and nothing changes; a wrong password counts; a right one resets |
| Accounts.ValidateCurrentPassword | accounts/utils.py:114-124 | The order of the three refusals |
| Accounts.ValidateNewPassword | accounts/utils.py:97-111 | Refuses the current password and every password of the history, wherever it is listed; accepts otherwise if the validators do |
| Accounts.DoChangePassword | accounts/utils.py:41-70 | A refused change alters nothing; an accepted one sets the new hash, lifts the lock, and leaves a listing of the last ten of history plus retired password |
| Accounts.ListOfSet | accounts/models/users.py:357 | Lists exactly the distinct elements, each once |
| Accounts.PreviousPasswords.Save | accounts/models/users.py:356-358 | Afterwards the history lists the distinct elements it held |
| Accounts.PreviousPasswords.AddPassword | accounts/models/users.py:360-377 | The history lists the first N of the new hash followed by the old ones, a known hash staying in place |
| Accounts.AddedPasswordIsKeptIff | accounts/models/users.py:371-377 | `add_password` keeps at most N hashes; it keeps a new hash exactly when N is positive, a known one exactly when that was among the first N |
| SecurityRuns.ProjectionIsRun | accounts/authentication_utils.py:169-182 | Any interleaving of all users' requests, seen from one account, is a run of that account alone, with the same times |
| SecurityRuns.StepProjects | accounts/utils.py:41-70 | One request of anybody changes an account's security fields only as one login or password change of that account does |
| SecurityRuns.SystemGuessBound | accounts/authentication_utils.py:50-81 | The guess bound for each account under arbitrary interleaving with other requests and users |
| SecurityRuns.SystemAccountInvariants | accounts/authentication_utils.py:234-313 | From registration on: lock invariant, exact counter and distinct passwords along every system run |
| SecurityRuns.VerificationConservation | accounts/models/email_verification.py:134-137 | From any start, over any interleaving of issuing, resets, phone and profile verification: the records consumed are exactly those used since, each consumed once, and the numbers agree |
| SecurityRuns.StepOnRecords | members/views_profile.py:125-135 | One request consumes at most one record, an unused and unexpired one, adds only fresh unused ones, and a rejected request changes nothing |
| SecurityRuns.UsedRecordsAfter | members/views.py:212-225 | A consumption adds exactly one record to the used ones, everything else none |
| SecurityRuns.RecordsPersist | accounts/models/email_verification.py:93-102 | Records keep key, owner, event and issue time for ever, and `is_used` never reverts |
| SecurityRuns.RecordsAreIssuedInThePast | accounts/models/email_verification.py:90-92 | No record is dated after the clock |
| SecurityRuns.ConsumedWithinWindow | accounts/models/email_verification.py:134-137 | Every consumption lies between issue and 7200 seconds after it |
| SecurityRuns.ResetIsAtomic | members/views_password.py:129-148 | A rejected reset changes neither record nor account; an accepted one uses one record of the very account it changes, sets a different password, lifts the lock, and touches no other account |
| SecurityRuns.LedgerInvariantHolds | accounts/authentication.py:232-271 | Along every run each mint is a pair for one user and cluster with the fixed lifetimes, and a refreshed one repeats its parent's user and cluster, is not older, and has the default access lifetime; mints are never altered |
| SecurityRuns.StepOnLedger | accounts/authentication.py:313-375 | A request adds at most one mint, for the user who proved the password or just registered, or for a live genuine refresh token |
| SecurityRuns.RefreshChainsHaveOneOrigin | accounts/authentication.py:368-375 | Every mint, however many refreshes away, descends from one original mint for the same user and cluster |
| SecurityRuns.EveryMintIsExplained | accounts/authentication.py:296-382 | Every mint of a run was made by one of its requests: a login with the right password to an unlocked account (for the cluster asked for, else the primary one), a registration, or a refresh with a live token |
| SecurityRuns.TokenProvenance | accounts/authentication.py:39-53 | Whatever token authenticates or is exchanged descends from a login with the right password or a registration of its user, and names the cluster asked for there or the primary one of that moment; access tokens are never exchanged and refresh tokens never authenticate |
| SecurityRuns.AcceptedTokenIsYoung | accounts/authentication.py:235-267 | An accepted token was minted less than one refresh lifetime ago |
| SecurityRuns.SessionLiveness | accounts/authentication.py:232-267 | If any token of a user is accepted, a request minted tokens for that user within the last refresh lifetime; so after a silent one only login or registration helps |
| SecurityRuns.ExtendOnce | accounts/authentication.py:343-375 | The newest refresh token can be exchanged up to its last second, whatever the age of the session |
| SecurityRuns.SessionsCanBeExtended | accounts/authentication.py:368-375 | The bound is per refresh: n exchanges keep a session alive for n refresh lifetimes less a second each, for every n |
| SecurityRuns.AcceptedUntilExpiryIff | accounts/authentication.py:38-61 | An access token once accepted is accepted after any run, password changes and resets included, exactly until it expires and while its account is not locked |
| SecurityRuns.RunKeepsAccess | accounts/authentication.py:112-122 | No modelled request changes which clusters an account may act in |
| SecurityRuns.ExchangeableUntilExpiryIff | accounts/authentication.py:313-375 | A refresh token once exchanged can be exchanged again after any run, exactly until it expires and while its account is not locked |
| SecurityRuns.RegisteredAddressLogsInIff | accounts/authentication_utils.py:169-182 | For every registered address: login with address and password as typed reaches the new account if and only if the address is its own normal form; it succeeds otherwise exactly for an older, unlocked account stored under that address with the same password |
| SecurityRuns.ForcedLogoutKeepsTokens | accounts/utils.py:72-94 | A reset blacklists every registered token of its user, and yet each access token accepted and each refresh token exchanged before it is so after it |
| SecurityRuns.AcceptanceIgnoresBlacklist | accounts/authentication.py:370-375 | With any other blacklist, authentication and refresh answer the same and leave the same behind |
| SecurityRuns.OnlyRegisteredTokensAreBlacklisted | accounts/utils.py:88-94 | Along every run no token is registered, none leaves the blacklist, and only registered ones enter it |
| SecurityRuns.NothingIsEverBlacklisted | accounts/utils.py:88-94 | Without registered tokens nothing is ever blacklisted, however many logouts are forced |
| SecurityRuns.ForcedLogoutExample | members/views_password.py:141-148 | A concrete accepted reset that blacklists a registered token, after which the user's access token is accepted and the refresh token exchanged |
| SecurityAnswers.AuthenticatedIff | accounts/authentication.py:38-61 | A token is accepted if and only if it is the access token of a mint, in its time, of an existing unlocked account, and any cluster it names is the primary one of the account or one of its others beside a primary one; else it is rejected, and nothing changes |
| SecurityAnswers.AuthenticatedActsInOwnCluster | accounts/authentication.py:112-122 | Whatever the ledger holds, an accepted token that names a cluster names one of its user's, who has a primary one |
| SecurityAnswers.ForeignClusterNeverAuthenticates | accounts/authentication.py:112-122 | A token for a cluster that is not its user's is rejected after any run |
| SecurityAnswers.RefreshedIff | accounts/authentication.py:313-375 | A refresh token is exchanged if and only if it is that of a mint, in its time, of an active unlocked account; the new pair has its user, its cluster and the default lifetimes |
| SecurityAnswers.LoginMintsIff | accounts/authentication_utils.py:169-191 | Tokens are minted if and only if the account is known and unlocked and the password right; they name the cluster asked for, else the primary one, and live for the extended time if and only if the user asked to be remembered |
| SecurityAnswers.DefaultLifetimes | config/settings.py:203-205 | With the settings of the application access tokens live one hour, six if remembered, and refresh tokens seven days |
| SecurityAnswers.RegisteredAccount | accounts/authentication_utils.py:268-310 | Registration succeeds if and only if the cluster exists, the normalised address is free and the mail goes out; the fields of the one account and the record it stores |
| SecurityAnswers.ConsumedRecordFits | members/views_profile.py:148-198 | A consumed record was unused, at most 7200 seconds old, had the key of the request (up to five characters a code, else a token, or one signed under the right salt), and was the requesting user's own except in a reset |
| SecurityAnswers.FittingRecordIsFound | members/views_password.py:121-148 | Conversely, for all three consumers: the newest fitting unused record is consumed if and only if it is at most 7200 seconds old and the rest of the request is in order |
| SecurityAnswers.IssuedRecord | accounts/models/email_verification.py:167-182 | What issuing stores, by mode and reason, and when there is nothing to issue; a new phone number becomes unverified, the same one keeps its status |
| SecurityAnswers.VerifiedPhone | members/views.py:208-225 | A phone verification names the stored number, marks it as verified, and changes nothing else of any account |
| SecurityAnswers.BlacklistedIff | accounts/utils.py:72-94 | A token gets onto the blacklist if and only if it is registered to the user whose password a reset, or a change with forced logout, changed |
| VerificationKeys.AcceptedIff | members/views_password.py:121-148 | A key is accepted exactly while the newest record it opens is at most 7200 seconds old and the rest of the request is in order, for resets, phone and profile verification alike; otherwise nothing changes |
| VerificationKeys.CanBeAcceptedIff | members/views_profile.py:148-198 | For ties too: a request can be accepted for a record exactly when none it opens is newer and the record is in time |
| VerificationKeys.NewestCanBeAccepted | members/views_password.py:140-148 | For each newest record in time, a resulting state exists |
| VerificationKeys.AcceptedMeansNewest | members/views_password.py:181-205 | An accepted request used a newest record, in time |
| VerificationKeys.ResetReachesIff | members/views_password.py:181-185 | A reset with the key of one user's record changes that user's password exactly when the newest record with the key is that user's, and uses that very record exactly when none with the key is newer |
| VerificationKeys.ResetReachesAnother | members/views_password.py:181-185 | Where the only records are two of different users with one code, a reset with it never changes the password of the user with the older one, and changes the other's exactly when that record is in time |
| VerificationKeys.RejectedWithoutRecord | members/views_profile.py:195-198 | A key that opens no unused record is rejected without change |
| VerificationKeys.UsedKeyIsDead | members/views.py:213-225 | A key works once: after it opened its only record it is rejected after any run, unless a later record has the same key |
| VerificationKeys.IssuedKeyOpensIff | members/views_profile.py:162-193 | Issue and look-up invert: an issued code opens its own record, a signed token exactly for the purpose it was signed for |
| VerificationKeys.IssuedProfileKeyWorks | members/views_profile.py:99-135 | A key requested for a profile update is accepted exactly within two hours and opens the very record issued for it, unless an older record with the same key was issued at the same instant |
| VerificationKeys.VerifiedPhoneWasVerified | members/views.py:208-225 | In any run a verified phone number was named in a verification that consumed a record of its user, whatever that was issued for, and has not changed since |
| VerificationKeys.UnsentCodeVerifiesIff | members/views.py:212-225 | After any run, the stored number can be verified with a code not sent to it exactly when some unexpired record, the newest of the user's unused ones with its code, was not sent to it |
| VerificationKeys.CodeForAnotherNumber | members/views.py:208-225 | For every two numbers and codes a run exists in which the code sent to the first verifies the second |
| VerificationKeys.OneNumberIsSentItsCode | members/views.py:149-164 | While a user asks for codes to one number only and is issued no other code, every verified number was sent the code used |
| VerificationKeys.OneNumberRun | members/views.py:152-164 | The invariant behind it, over runs of any length |
| VerificationKeys.StepOnPhone | members/views.py:152-156 | A number becomes verified only by a verification of that number, and a changed number is unverified |
| SecuritySystem.SecurityService.Register | accounts/authentication_utils.py:234-310 | A missing cluster, a taken normalised address or a failing mail leaves nothing behind; otherwise one account under that address with an empty history, one OTP record and one mint |
| SecuritySystem.SecurityService.Login | accounts/authentication_utils.py:169-191 | One account-level login, and on success exactly one mint for the requested or primary cluster, extended if asked for |
| SecuritySystem.SecurityService.ChangePasswordView | members/views_password.py:37-64 | One account-level change of the caller, lock checked first; a forced logout follows an accepted change only, and a failing notification undoes neither |
| SecuritySystem.SecurityService.LogoutUser | accounts/utils.py:88-94 | Blacklists exactly the registered tokens of that user, keeping what was blacklisted |
| SecuritySystem.SecurityService.Issue | accounts/models/email_verification.py:167-182 | Adds one unused record with a key of the asked kind, also when sending it fails afterwards, or nothing when no web token exists for the reason |
| SecuritySystem.SecurityService.RequestPhoneVerification | members/views.py:152-179 | A new number is stored as unverified, the same number keeps its status; one OTP record either way, also when sending it fails |
| SecuritySystem.SecurityService.First | accounts/models/email_verification.py:209-212 | The lookup finds a most recent matching record, or none exactly when there is none |
| SecuritySystem.SecurityService.Reset | members/views_password.py:121-148 | Implements the reset as one transaction: record use and password change together or not at all, also on a late failure |
| SecuritySystem.SecurityService.VerifyPhoneView | members/views.py:208-225 | Uses a record of the caller only, and only for the stored number |
| SecuritySystem.SecurityService.VerifyProfileUpdateView | members/views_profile.py:122-135 | Uses a record of the caller only, and changes no account |
| SecuritySystem.SecurityService.MintTokens | accounts/authentication.py:232-292 | Appends one pair sharing user, cluster, issue time and identifier |
| SecuritySystem.SecurityService.RefreshView | accounts/authentication.py:313-375 | Mints for the token's own user and cluster exactly when it is a live genuine refresh token of an active, unlocked account |
| SecuritySystem.SecurityService.AuthenticateRequest | accounts/authentication.py:38-61 | Accepts exactly live genuine access tokens of existing unlocked accounts whose cluster is still theirs, and changes nothing |
| SecuritySystem.SecurityService.MarkAsVerified | accounts/models/email_verification.py:139-151 | Uses the record, and verifies the address of its owner exactly for e-mail verification |
| ResidentImport.ResidentImporter.ToInternalValue | accounts/serializers/resident_import.py:67-94 | Refused exactly when some row has an error, with the complete list in row order and nothing loaded or built; raises exactly when an error-free file has an unknown address and accounts have no cluster; otherwise both tables hold what the fold says and the accounts are listed once each |
| ResidentImport.RunImport | accounts/serializers/resident_import.py:209-240 | Whatever the surroundings: a refused or raising import leaves the database as it was, a completed one leaves the fold of the rows over it, and which of the three happens is decided by the file, the database and the surroundings |
| ResidentImport.ImportAsWritten | accounts/serializers/resident_import.py:147-157 | As written, an import completes if and only if no row has an error, every row names a resident of the owner and nothing is to be updated; it never changes the database |
| ResidentImport.ImportsThatRaise | accounts/serializers/resident_import.py:238-239 | Two concrete files that raise as written and store nothing: a new address, and an upsert of a known one |
| ResidentImport.IntendedImportCompletes | accounts/serializers/resident_import.py:84-94 | With a cluster on accounts and lists from `bulk_create`, an import completes if and only if no row has an error |
| ResidentImport.CompletedImport | accounts/serializers/resident_import.py:141-157 | Whenever an import completes, in whatever surroundings, each address ends as the last row bearing it says |
| ResidentImport.CompletedImportUpdates | accounts/serializers/resident_import.py:141-145 | In a completed import a resident of the owner has the validated name and phone number of the last row with its address, in these fields, if upserts are on, and keeps everything else |
| ResidentImport.CompletedImportCreates | accounts/serializers/resident_import.py:147-157 | A new account has the validated name and phone number of the last row that makes it, in these fields, the importing owner and cluster, and is an owner's |
| ResidentImport.CompletedImportKeepsOthers | accounts/serializers/resident_import.py:137-157 | Accounts that no row is about are as they were, and no account appears that no row makes |
| ResidentImport.NewAccountsIff | accounts/serializers/resident_import.py:86-92 | Accounts are built exactly when some row's address is not that of a loaded resident |
| ResidentImport.KnownRowsWithoutUpsert | accounts/serializers/resident_import.py:87-90 | A file of known residents without upsert leaves the table as it is |
| ResidentImport.TwoPassesAreOneFold | accounts/serializers/resident_import.py:84-94 | For the passes that do not raise: loading, updating, building and persisting equal applying the rows one after another |
| ResidentImport.TwoPassesStep | accounts/serializers/resident_import.py:86-92 | The same for one more row |
| ResidentImport.LastRowWins | accounts/serializers/resident_import.py:141-157 | What that fold leaves under every address: an owned resident ends as the last row bearing the address says (unchanged without upsert), each free normalised address holds one account built from its last row, and nothing else changes |
| ResidentImport.RowAppliedAt | accounts/serializers/resident_import.py:86-92 | One row affects the account of its own target and no other |
| ResidentImport.LastFor | accounts/serializers/resident_import.py:147-157 | Finds the last row about a target |
| ResidentImport.OnlyEffectiveRowsCount | accounts/serializers/resident_import.py:231-235 | Rows whose normalised address is already stored, and known residents without upsert, have no effect on that fold at all |
| ResidentImport.EffectiveRowIsStored | accounts/serializers/resident_import.py:231-235 | Conversely each other row counts: the last such row about a target is what the fold leaves there |
| ResidentImport.RowCanBeLost | accounts/serializers/resident_import.py:137-157 | Even with the intended surroundings, a concrete accepted upsert completes and neither updates the resident nor creates an account |
| ResidentImport.AllErrorsAreTheRowsErrors | accounts/serializers/resident_import.py:69-76 | For every offset, the error list holds exactly the errors of each row, under offset plus row index |
| ResidentImport.RefusedWithEveryError | accounts/serializers/resident_import.py:61-82 | An import is refused if and only if some row has an error, and lists exactly the errors of all rows: validators' complaints under the cell, a missing dialing code under an empty title, a name that an earlier row bears; data row i counts as line i + 2 with headers and i + 1 without |
| ResidentImport.FirstRowIsNumbered | accounts/serializers/resident_import.py:61-69 | The one complaint about the only row is reported in line 2 with headers and in line 1 without |
| ResidentImport.AllErrorsAreSorted | accounts/serializers/resident_import.py:78-82 | The list is sorted by row number, and every number lies in the file |
| ResidentImport.SortKeepsSortedList | accounts/serializers/resident_import.py:79 | The stable sort neither loses nor moves an error |
| ResidentImport.SecondPassLookupHits | accounts/serializers/resident_import.py:116 | Without errors, every row number of the second pass finds the validated data of that very row |
| ResidentImport.SecondPassLookupsHit | accounts/serializers/resident_import.py:141-148 | The same for all rows at once, as the second pass needs it |
| ResidentImport.ResidentImporter.FirstPass | accounts/serializers/resident_import.py:69-76 | Collects exactly the errors of all rows and the validated data of the valid ones |
| ResidentImport.ResidentImporter.SecondPass | accounts/serializers/resident_import.py:86-92 | Raises exactly when a row is unknown and accounts have no cluster; otherwise both tables end as the folds over all rows, and new addresses are listed once each |
| ResidentImport.ResidentImporter.ValidateRowData | accounts/serializers/resident_import.py:96-117 | Stores the validated row exactly when no attribute has an error; errors bear the cell as title, except that of a phone number without dialing code |
| ResidentImport.ResidentImporter.ValidatePhoneNumber | core/data_exchange/includes/imported_attribute_validators.py:38-56 | A number without plus sign is refused when there is no default dialing code, and otherwise validated with the code before it |
| ResidentImport.ResidentImporter.CheckForDuplicates | accounts/serializers/resident_import.py:119-132 | An error exactly when the name occurred in an earlier row |
| ResidentImport.ResidentImporter.LoadExistingResidents | accounts/serializers/resident_import.py:134-139 | A resident is loaded, as stored, exactly when it belongs to the owner and some row of the file names its address |
| ResidentImport.ResidentImporter.UpdateOldResident | accounts/serializers/resident_import.py:141-145 | Changes name and phone of that resident only |
| ResidentImport.ResidentImporter.InitializeNewResident | accounts/serializers/resident_import.py:147-157 | Raises without a cluster on accounts, changing nothing; otherwise one entry per normalised address, a later row replacing an earlier one in its place |
| ResidentImport.ResidentImporter.Persist | accounts/serializers/resident_import.py:231-240 | All or nothing: raises exactly on an upsert with no new account when `bulk_create` returns no list, leaving the database as it was; otherwise each address holds the loaded resident, else what was stored, else the new account |
| ResidentImport.ResidentImporter.BulkCreate | accounts/serializers/resident_import.py:233-235 | Adds the accounts in order and leaves out exactly those whose address is taken |
| ResidentImport.ResidentImporter.BulkUpdate | accounts/serializers/resident_import.py:231-232 | Writes back every loaded resident and nothing else |
| ResidentImport.PersistCreated | accounts/serializers/resident_import.py:233-235 | A new account shows in the merged table exactly when its address was free |
| ResidentImport.PersistUpdated | accounts/serializers/resident_import.py:231-232 | An updated resident shows in the stored table, and only there |
| CsvImport.RowsAreConserved | management/views_resident.py:266-324 | Created, updated and errors add up to the number of rows, and the errors name exactly the lines of the failed rows |
| CsvImport.ImportOnlyExtends | management/views_resident.py:265-316 | No resident, membership or primary cluster is lost, and an aborted transaction stays aborted |
| CsvImport.StepExtends | management/views_resident.py:285-313 | The same for one row; a row without error leaves its resident in the cluster, and a created one was absent and gets the cluster as primary |
| CsvImport.SuccessfulRowsAreMembers | management/views_resident.py:297-313 | At the end the resident of every row without error is in the cluster, also after later rows |
| CsvImport.AbortedIff | management/views_resident.py:302-308 | The transaction is marked for rollback exactly when some row gives an existing resident an overlong value or one with a NUL character |
| CsvImport.ReportedRowsAreStored | management/views_resident.py:318-325 | Without such a row, every row reported without error is a stored member |
| CsvImport.StoredTableOnlyExtends | management/views_resident.py:242 | In any case the stored table extends the old one |
| CsvImport.CreatedWasAbsent | management/views_resident.py:285-301 | A resident reported as created was not in the database before the import, however many rows came earlier |
| CsvImport.CreatedIsStoredIff | management/views_resident.py:318-325 | A resident reported as created is stored exactly when no row of the file does that |
| CsvImport.CreatedButNotStored | management/views_resident.py:302-325 | A concrete file with a NUL character after which a resident reported as created is not stored |
| CsvImport.NewRowStores | management/views_resident.py:285-301 | A row with an unknown address creates a resident with its trimmed values, `+2340000000000` for a missing phone, and the cluster as only and primary one, if no value is longer than 100, 255 or 16 characters or holds a NUL; else it fails alone |
| CsvImport.KnownRowStores | management/views_resident.py:302-313 | A row with a known address sets the name, and phone and unit address if given, adds the cluster and keeps the primary one; a refused value marks the transaction |
| CsvImport.ShortRowFails | management/views_resident.py:272-283 | A row too short for one of the four columns fails and changes nothing |
| CsvImport.EmptyRowFails | management/views_resident.py:273-280 | So does a row without address or name, and every row after the transaction was marked |
| CsvImport.LastSuccessStays | management/views_resident.py:265-316 | What the last row without error stored about a resident is what it ends with |
| CsvImport.ResidentImporter.ProcessRow | management/views_resident.py:271-316 | One row: every missing or empty cell, value the database refuses, and rollback case |
| CsvImport.ResidentImporter.ImportCsv | management/views_resident.py:265-325 | Counts and errors are the tally of the per-row results, and the table is the rows applied in order |
| CsvImport.OneMoreRow | management/views_resident.py:265-316 | The loop's counters and table stay in step with the per-row results |
| ModelSplitter.SpansNeverOverlap | scripts/split_models.py:80-98 | Line spans are in bounds, in order and disjoint, and each header lies in its own span only |
| ModelSplitter.HeaderCuts | scripts/split_models.py:88-96 | A usual class header ends the class before it |
| ModelSplitter.SpanOfHeader | scripts/split_models.py:88-96 | On the raw lines: a top-level class ends at the next line that has, at column 0, `class ` or `def ` with something behind it or `@`, or at the end of the file; every blank or indented line after the header stays with it until then |
| ModelSplitter.CutsAtColumnZeroIff | scripts/split_models.py:90-95 | The cut test at indentation 0, said on the raw line; blank and indented lines never cut |
| ModelSplitter.NextCut | scripts/split_models.py:88-96 | The end of a class is the first line that cuts, or the end of the file |
| ModelSplitter.NoLineLostIff | scripts/split_models.py:64-98 | From the first header on, every line is in what is recorded for some class if and only if no two classes bear one name and after that header no raw line but class headers has, at column 0, `class ` or `def ` with something behind it or `@` |
| ModelSplitter.WholeFileIsKeptIff | scripts/split_models.py:46-71 | For the whole file: no line is lost if and only if the first line is a class header and the condition of the row before holds; a file without classes loses everything |
| ModelSplitter.LinesAboveAreLost | scripts/split_models.py:51-62 | No line above the first class header is kept by any class |
| ModelSplitter.FirstDecoratorIsLost | scripts/split_models.py:82-98 | A concrete file, one decorated class, that meets the condition from the first header on and yet loses its decorator |
| ModelSplitter.UncoveredLineIsLost | scripts/split_models.py:69-98 | A line outside every span is kept by no class |
| ModelSplitter.SpanOfLastNamesakeIsKept | scripts/split_models.py:69-71 | The span of the last class of each name is kept |
| ModelSplitter.KeptLinesAreWrittenOnce | scripts/split_models.py:283-317 | Recorded lines, and no others, are written, each into exactly one file at one place of it |
| ModelSplitter.RecordedNode | scripts/split_models.py:69-71 | What is recorded under a name is the span of the last class bearing it |
| ModelSplitter.HeadersKeptMeansDistinctNames | scripts/split_models.py:69-71 | Of two classes with one name the earlier one's header is lost |
| ModelSplitter.KeptMeansOnlyHeadersCut | scripts/split_models.py:93-98 | If no line from the first header on is lost, only headers cut |
| ModelSplitter.SameNamesLoseALine | scripts/split_models.py:69-71 | A concrete file with two classes of one name that loses a line |
| ModelSplitter.DecoratorIsLost | scripts/split_models.py:93-96 | A concrete file with a decorated class that loses a line |
| ModelSplitter.OtherCutsLoseLines | scripts/split_models.py:93-98 | A line that ends classes and is no header is in no span |
| ModelSplitter.CoveredWithoutOtherCuts | scripts/split_models.py:93-98 | Without other cutting lines, each line is in the span of the last header before it |
| ModelSplitter.LastNamesakeIsRecorded | scripts/split_models.py:68-71 | Of classes with one name the last is recorded |
| ModelSplitter.RecordedAsParsed | scripts/split_models.py:100-116 | What is recorded under a name is the line, kind and dependencies of the last class bearing it |
| ModelSplitter.InfoTable | scripts/split_models.py:64-71 | A name is recorded exactly when some class bears it |
| ModelSplitter.GenericModelSplitter.AnalyzeSourceFile | scripts/split_models.py:64-71 | Records every class, each name listed once in insertion order |
| ModelSplitter.GenericModelSplitter.ExtractModelInfo | scripts/split_models.py:80-116 | The loop finds the end of the class, on the raw lines: the first later line that ends classes, or the end of the file |
| ModelSplitter.GenericModelSplitter.GroupRelatedModels | scripts/split_models.py:178-211 | The groups partition all classes: non-empty, each class in exactly one list once, nothing else, each list ordered with choices first |
| ModelSplitter.GenericModelSplitter.CollectGroups | scripts/split_models.py:187-202 | The groups before sorting list exactly the placed classes, each in its own file |
| ModelSplitter.GenericModelSplitter.GroupClass | scripts/split_models.py:188-202 | Placing one class puts it and its unplaced relatives into its file and moves nothing else |
| ModelSplitter.GenericModelSplitter.AddUnprocessed | scripts/split_models.py:199-202 | Appends each related class not yet processed once |
| ModelSplitter.GenericModelSplitter.SortGroups | scripts/split_models.py:204-209 | Each list is ordered and only permuted; files and their order are kept |
| ModelSplitter.GenericModelSplitter.FindRelatedModels | scripts/split_models.py:259-275 | Exactly the class itself and its users (for choices) or its choices (for models) |
| ModelSplitter.GenericModelSplitter.GetFileForModel | scripts/split_models.py:359-365 | The one file that lists the class, or `unknown` exactly for unknown classes |
| ModelSplitter.GenericModelSplitter.FirstFileWith | scripts/split_models.py:362-365 | The first file found is the only one |
| ModelSplitter.GenericModelSplitter.Exports | scripts/split_models.py:377-397 | `__all__` lists each class exactly once, in order |
| ModelSplitter.GenericModelSplitter.AllListed | scripts/split_models.py:380-385 | Walking all files meets each class exactly once |
| ModelSplitter.EachClassIsListedOnce | scripts/split_models.py:178-211 | A class is placed exactly when it is listed, and then at one position of one file |
| ModelSplitter.EveryClassIsPlaced | scripts/split_models.py:187-202 | The placed classes are exactly the analysed ones |
| ModelSplitter.PlacedWithFirstLeader | scripts/split_models.py:188-202 | Each class goes into the file named after the first class, not itself taken along before, that it goes with: the class itself, a choices class it uses, or a model that uses it as choices |
| ModelSplitter.PlacedAreModels | scripts/split_models.py:188-202 | Each processed class is placed, and only known classes are |
| ModelSplitter.SortedGroupsAreUnique | scripts/split_models.py:204-209 | The result depends on the placement alone: the iteration order of dependency sets does not show |
| ModelSplitter.OrderedListIsUnique | scripts/split_models.py:206-209 | An ordered list is determined by its elements |
| ModelSplitter.SortPermutes | scripts/split_models.py:206-209 | Sorting gives an ordered permutation |
| ModelSplitter.SortedListReads | scripts/split_models.py:204-209 | In each file choices classes come before all others, and either kind is in lexicographic order: by the first differing character, a proper beginning first |
| ModelSplitter.ExportsRead | scripts/split_models.py:395-397 | `__all__` is in that lexicographic order |
| ModelSplitter.InsertOrders | scripts/split_models.py:206-209 | Inserting one class keeps the order and adds exactly that class |
| ModelSplitter.PrecedesIsTotalOrder | scripts/split_models.py:206-209 | The sort key is a strict total order on class names |
| ModelSplitter.ListsAfterPlacing | scripts/split_models.py:192-202 | Adding unplaced classes to one file, new or not, keeps the partition |
| ModelSplitter.ListedFile | scripts/split_models.py:359-365 | A file lists exactly the classes placed in it, and exists exactly when there are some |
| ModelSplitter.RelistedFile | scripts/split_models.py:205-209 | Reordering one file's list keeps the partition |
| Announcements.CountersAlwaysAgree | members/views_announcement.py:63-79 | In every reachable state, deletions included, the three counters of each announcement equal its numbers of view, like and comment rows |
| Announcements.StepKeepsCounters | management/views_announcement.py:157-173 | Every member and manager request keeps that agreement for all announcements, and leaves no row without announcement |
| Announcements.ClampsNeverBite | members/views_announcement.py:144-149 | Whenever a like or comment is removed its counter was positive, so `max(0, …)` changes nothing |
| Announcements.TrackAgrees | members/views_announcement.py:69-79 | A view is counted exactly when its row is new |
| Announcements.AddLikeAgrees | members/views_announcement.py:106-115 | A new like row and its count stay together |
| Announcements.RemoveLikeAgrees | members/views_announcement.py:140-149 | A removed like row and its count stay together |
| Announcements.AddCommentAgrees | members/views_announcement.py:197-205 | A comment row and its count stay together |
| Announcements.RemoveCommentAgrees | management/views_announcement.py:404-413 | A removed comment lowers the count of its own announcement only |
| Announcements.RemoveAnnouncementAgrees | management/views_announcement.py:49-66 | Deleting an announcement with its rows leaves every other announcement's counters in agreement |
| Announcements.FiltersPartition | members/filters.py:27-41 | `read` and `unread` partition the visible announcements, and `unread` means not read by this user |
| Announcements.NotFoundIff | members/views_announcement.py:50-61 | A member request is not found, without change, if and only if the announcement is absent, unpublished or expired by now; the same announcements are missing from the read and unread lists together |
| Announcements.UnpublishedStaysHidden | members/views_announcement.py:57-59 | After it is unpublished no member finds an announcement, in any run, until it is published, updated to published, or created anew |
| Announcements.RefusedIff | members/views_announcement.py:133-159 | Requests that are reached are refused, without change, exactly for invalid input, an unlike without a like, and a publication that would change nothing |
| Announcements.ManagerFindsIff | management/views_announcement.py:222-277 | Managers find every existing announcement; what publishing, unpublishing and updating store |
| Announcements.CreateAdds | management/views_announcement.py:80-86 | Creating adds one announcement, published and expiring as sent and with nothing counted, and touches no other |
| Announcements.RowsAreLastTouches | members/views_announcement.py:106-149 | After any run a user likes an announcement exactly when the last such request was a like, and has viewed it exactly when it was ever retrieved, deletions considered |
| Announcements.StepOnComments | management/views_announcement.py:157-173 | A comment appears exactly by an accepted comment request, at its announcement, and goes exactly by its deletion or that of its announcement |
| Announcements.ReadingMovesOneCount | members/views_announcement.py:236-285 | Retrieving or marking a visible unread announcement lowers the reader's count by exactly one, marking a read one unread raises it by exactly one, and no other user's count moves |
| Announcements.ReadStatusAfter | members/views_announcement.py:82-89 | The three read requests change one user's status of one visible announcement |
| Announcements.ReadStatusIsLastTouch | members/views_announcement.py:236-285 | After any run, read means that the user's last successful touch was a reading one and the announcement was not deleted since |
| Announcements.AnnouncementService.UnreadCount | members/views_announcement.py:293-311 | The count is the size of the list under the `unread` filter |
| Announcements.AnnouncementService.RetrieveView | members/views_announcement.py:63-92 | Tracks the view once per user and marks as read; an invisible announcement is not found and nothing changes |
| Announcements.AnnouncementService.LikeView | members/views_announcement.py:100-125 | A repeated like changes nothing |
| Announcements.AnnouncementService.UnlikeView | members/views_announcement.py:133-159 | Refused without change when there is no like |
| Announcements.AnnouncementService.MemberCommentView | members/views_announcement.py:189-228 | An invalid comment is refused without change |
| Announcements.AnnouncementService.ManagerCommentView | management/views_announcement.py:157-196 | The same for managers, who also reach hidden announcements |
| Announcements.AnnouncementService.DestroyCommentView | management/views_announcement.py:400-415 | Removes the comment and lowers its announcement's count |
| Announcements.AnnouncementService.MarkAsReadView | members/views_announcement.py:236-255 | Creates the status if missing and sets it |
| Announcements.AnnouncementService.MarkAsUnreadView | members/views_announcement.py:263-285 | Clears an existing status and creates none |
| Announcements.AnnouncementService.SetPublished | management/views_announcement.py:222-277 | Publishing or unpublishing twice is refused without change |
| Announcements.AnnouncementService.PerformCreate | management/views_announcement.py:80-86 | A new announcement starts with all counters at zero |
| Announcements.AnnouncementService.UpdateView | management/views_announcement.py:114-119 | Changes publication and expiry as sent, and no counter |
| Announcements.AnnouncementService.DestroyView | management/views_announcement.py:49-66 | Removes the announcement and every view, like, comment and read status that refers to it |
| Roles.PrimaryRoleSafety | accounts/views/roles.py:30-48 | Once an admin is created, along every run of creates, updates (renames included) and deletes by anyone, it owns exactly one role displayed as "Administrator", with the default permissions, whose row never changes |
| Roles.StepKeepsPrimary | accounts/serializers/roles.py:78-97 | No request changes or deletes an existing primary role |
| Roles.PrimaryKept | accounts/serializers/roles.py:64-97 | The same over runs of any length |
| Roles.StepKeepsConsistent | accounts/models/roles.py:60-70 | Names stay unique and prefixed with their owner |
| Roles.ConsistentAlways | accounts/models/roles.py:60-70 | The same in every reachable state |
| Roles.AdminGetsPrimary | accounts/models/users.py:57-73 | Creating an admin stores a primary role with the default permissions |
| Roles.DefaultIsStored | accounts/models/users.py:60-69 | Each default role is stored under its own name with its own permissions |
| Roles.OnlyOnePrimary | accounts/models/roles.py:82-85 | An owner has at most one role that counts as primary |
| Roles.PrimaryIsStoredExactly | accounts/models/roles.py:72-85 | A role counts as primary exactly when its stored name is the owner, a colon and the primary name |
| Roles.NamesInvertIff | accounts/models/roles.py:64-77 | `display_name` recovers the given name exactly when that does not start with owner and colon; the name field exactly when it does not start with the owner |
| Roles.SavingIsIdempotent | accounts/models/roles.py:64-70 | Saving again changes no name |
| Roles.StoredNamesAreInjective | accounts/models/roles.py:64-70 | Equal stored names come from the same owner and the same name |
| Roles.FieldNameAfterColon | accounts/serializers/roles.py:35-37 | The field shows all that follows the first colon |
| Roles.NameFieldCanShowTwo | accounts/serializers/roles.py:35-37 | A name starting with the owner's own identifier can be shown as a second "Administrator" by the field without being primary |
| Roles.FieldAgreesIff | accounts/models/roles.py:72-77 | For stored names starting with their owner, name field and `display_name` agree if and only if a colon follows the owner |
| Roles.ShownTwiceIff | accounts/serializers/roles.py:35-37 | In every consistent state the field shows a role other than the primary one as "Administrator" exactly when its name has something between the owner and the first colon |
| Roles.CreateShowsSecondIff | accounts/serializers/roles.py:64-76 | A create leads there exactly when the requested name itself has that form |
| Roles.UpdateShowsSecondIff | accounts/serializers/roles.py:78-91 | An update leads there exactly when it gives a new name of that form |
| Roles.StoredMimicsIff | accounts/models/roles.py:64-70 | Storing a name neither gives nor takes away that form |
| Roles.TidyRunsShowOnePrimary | accounts/serializers/roles.py:64-97 | Along every run whose requested names do not start with the owner, or continue with a colon, the field shows exactly the primary role as "Administrator" |
| Roles.CreateStores | accounts/serializers/roles.py:64-76 | A create is saved if and only if the name is not the primary one and its prefixed form is free; it then adds one role with all fields as sent, otherwise nothing changes |
| Roles.UpdateStores | accounts/serializers/roles.py:78-91 | An update reaches own roles only, refuses the primary one, is saved if and only if the prefixed name is free, and then sets exactly the fields sent, an empty set of permissions counting as not sent |
| Roles.DestroyRemoves | accounts/views/roles.py:44-48 | A delete removes exactly the named own role, and never the primary one |
| Roles.RoleService.Save | accounts/models/roles.py:60-62 | The prefixed row is stored, or on a taken name nothing changes |
| Roles.RoleService.CreateView | accounts/views/roles.py:30-35 | Refuses the primary name and duplicates without change |
| Roles.RoleService.UpdateView | accounts/views/roles.py:37-42 | Reaches the caller's own roles only, refuses the primary one, and rolls back on a duplicate |
| Roles.RoleService.DestroyView | accounts/views/roles.py:44-48 | Deletes one role of the caller other than the primary |
| Roles.RoleService.CreateAndAssignRoles | accounts/models/users.py:57-69 | Stores all default roles in order |
| Roles.Role.SetNameFromOwnerId | accounts/models/roles.py:64-70 | Prefixes the name exactly when the owner is not there yet |
| ImportInsertion.InsertionIsLineSafeIff | fix_editable_false_fields.py:72-77 | The edited text splits into the old lines with the statement at line k if and only if some line follows the imports |
| ImportInsertion.InsertInside | fix_editable_false_fields.py:67-70 | The insertion for every k inside the file |
| ImportInsertion.InsertAtEnd | fix_editable_false_fields.py:141-142 | What happens otherwise: the statement is glued to the last line |
| ImportInsertion.EditIsLineSafeIff | fix_editable_false_fields.py:72-77 | For every file: the edit adds exactly one line if and only if the last line is not an import of the first block |
| ImportInsertion.EndsFileIff | fix_editable_false_fields.py:127-139 | No line follows the imports exactly when the last line is an import of the first block |
| ImportInsertion.InsertedBeforeLineIff | fix_editable_false_fields.py:127-139 | The statement lands before a line that is neither blank nor an import exactly when that line follows an import of the first block, so before the continuation of an import in parentheses |
| ImportInsertion.OneImportIsGlued | fix_editable_false_fields.py:67-70 | To every file that is a single import line the statement is glued |
| ImportInsertion.GluedExample | fix_editable_false_fields.py:67-70 | The file `import x` becomes `import ximport y` |
| ImportInsertion.ParenthesesExample | fix_editable_false_fields.py:72-77 | A concrete import over three lines gets the statement between its parentheses |
| ImportInsertion.InsertAfterLine | fix_editable_false_fields.py:58-63 | The other insertion, after a matched import line, adds exactly one line |
| ImportInsertion.FindImportSection | fix_editable_false_fields.py:122-142 | The position is that of line k, which ends the first block of imports |
| ImportInsertion.ImportEnd | fix_editable_false_fields.py:124-139 | Line k-1 is an import, only imports and blank lines lie between the first import and k, and only blank ones from k to the next other line; 0 exactly when there is no import |
| ImportInsertion.ImportEndIsUnique | fix_editable_false_fields.py:124-139 | That description determines k |
| ImportInsertion.CutAtPosition | fix_editable_false_fields.py:141-142 | Cutting the text at the position cuts the list of lines at k |
| ImportInsertion.SplitOfConcat | fix_editable_false_fields.py:124 | Splitting texts joined by a newline concatenates their lines |
| Text.JoinOfSplit | fix_editable_false_fields.py:142 | Joining the split lines gives back the text |
| Text.SplitOfJoin | fix_editable_false_fields.py:124 | Splitting joined lines gives back the lines |
| NameSplit.NamesAreRecoveredIff | accounts/serializers/mixins.py:11-29 | Parsing and showing gives back the trimmed first and last name if and only if the first is one word, or both are empty |
| NameSplit.JoinedNamesAreShown | accounts/serializers/mixins.py:13-17 | A first name of one word, with any trimmed last name, is shown as it was joined |
| NameSplit.JoinedName | accounts/serializers/mixins.py:26-28 | The joined name has no stray blank when a part is empty |
| NameSplit.RoundTripIsIdempotent | accounts/serializers/mixins.py:11-29 | Showing a stored name and saving it unchanged settles after one round |
| NameSplit.ShownFirstIsOneWord | accounts/serializers/mixins.py:13-20 | The shown first name is one word, or empty exactly for a blank name |
| NameSplit.OneFieldIsTheName | accounts/serializers/mixins.py:24-29 | With one of the two fields the name is that field, trimmed; with none it is left alone |

## Left out

- AccountRuns.GuessBound: bounds comparisons made by login attempts; the comparison of the current password in a password change is not counted by the code as a failed login, and is not counted here.
- SecuritySystem.SecurityService.MarkAsVerified: has a contract of its own but is not a request of the runs, because none of the modelled views calls it.
- SecuritySystem.SecurityService.Register: the profile fields other than the phone number are not modelled, and the normalisation of addresses is a given function.
- SecuritySystem.SecurityService.AuthenticateRequest: the signature, the cookie fallback and PyJWT's truncation of times to whole seconds are not modelled; a token is the ledger entry itself.
- ResidentImport.ResidentImporter.ToInternalValue: loaded residents are values of a table written back at the end, so aliasing between a resident object and other holders of it is not captured.
- ResidentImport.ResidentImporter.InitializeNewResident: the random password of an imported account is not modelled.
- ResidentImport.RunImport: begins with rows that have all three attributes; reading the file, the importer view and the notifications after it are not modelled.
- ResidentImport.ResidentImporter.ValidateRowData: beyond the dialing code, the validators are given functions of one cell.
- ModelSplitter.GenericModelSplitter.GroupRelatedModels: covers the automatic path; predefined groupings, the naming of groups and the detection of dependencies are not modelled.
- CsvImport.ResidentImporter.ProcessRow: of the database's refusals overlong values and NUL characters are modelled, with the column lengths of the account model and PostgreSQL; losing the connection, a missing cluster, and a file the CSV reader cannot finish are not.
- Roles.RoleService.CreateAndAssignRoles: the default roles are a parameter with an entry for the primary role; assigning the primary role to the admin's groups is not modelled.
- ImportInsertion.InsertAfterLine: takes the end of the matched import as given instead of modelling the regular expression.
- User settings and notification preferences: nested updates are a plain last-write-wins map.
- Accounts.PreviousPasswords.AddPassword: models a method that nothing in the repository calls.
- `PreviousPasswords.passwords` being null, which only `add_password` guards against.
- The password reset of the accounts application and the role endpoints of the management views.
- The generic create and update endpoints of the comment viewset, which cannot set a comment's announcement; attachments.
- Hash functions, signatures, random codes and clocks: ideal functions and parameters.
- Mail, SMS, notifications, audit logs, permissions and pagination.
- Concurrent lost updates: counters and lock fields are read, changed and written back, so requests are taken as sequential and atomic.
- Wallets, bills, shifts, tasks and chat: their models live in modules that are not part of this model.
- `NameSplitMixin.validate`, the maximum length of role names, and creation and modification stamps.
