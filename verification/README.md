# Verified model of the STA backend's stateful cores

This project models, in Dafny, the parts of the backend in which correctness depends on more than one function: keys rotated while the API runs, accounts and one-time tokens, administrator MFA, two protocols made of several transactions, in-place reordering, a text format, and a read cache. Every SQL transaction, and every single statement outside one, is an atomic step; ciphers, MACs and random tokens are functions and fresh values with only the laws stated in the code.

- **Key rotation** (`FieldCiphers`, `FramedCipher`, `Paging`, `LiveTable`, `LiveColumn`, `LiveLookup`, `Reencrypt`, `LookupRotation`). The versioned field-cipher ring with its legacy fallback, the HMAC lookup ring, and the two keyset-paged loops of `cmd/reencrypt`, with faults that may stop them at any batch and with the API writing to the same rows before and after every page read.
- **Accounts** (`Accounts`, `AccountRuns`, `AccountTheorems`, `AccountEffects`, `AccountStore`). One state machine over accounts, sessions, roles and reset, activation, email and OAuth tokens; an invariant of all its runs; theorems about whole runs; what each transaction means for who gets in; and the store methods, each proved to be one step of the machine. A login is two steps, as in the service.
- **Administrator MFA** (`Totp`, `AdminMfa`). The TOTP window of sections 4.2 and 5.2 of RFC 6238, the truncation of section 5.3 of RFC 4226, and the record that grants a code-less window, with service calls interleaving between their code check and their guarded write.
- **Brochures** (`Brochures`, `BrochureStore`). Event log and lazily watermarked copy under interleaved downloads, uploads, reviews and discoveries.
- **Applications** (`Applications`). Concurrent approvals and rejections of one account application, each in several transactions.
- **Ordering** (`ExamItems`, `TimelineOrder`, `TimelineResort`). The swap loop that writes through the caller's slice, and the repairs of `sort_order` under a uniqueness constraint checked row by row.
- **Texts** (`Text`, `Contributions`, `TimelineScope`, `Identifiers`). Go's string functions over code points, the people-count format, scope stripping, and program identifiers.
- **Program inputs and cache** (`ProgramInputs`, `ReadCache`). Validation and materialisation over a shared slice, and the Redis cache-aside.

## Where the code does not do what is said of it

For each the exact condition is proved, with the code modelled as it is; some of the lemmas cited beside it show one concrete run or input.

- The field rotation runs to the end only when every stale row opens; an erased account's email marker never does, so it stops every run that reaches it (`Reencrypt.RotateTwice`). An unversioned blob whose first byte equals the primary version is never rewritten, and needs the legacy key for ever (`FieldCiphers.LegacyKeyStillNeeded`, `FramedCipher.OldBlobLooksUpToDate`, `Reencrypt.OldKeysGoExactlyWhen`).
- The UPDATEs of both rotations name only the id. A value the API writes between a page read and its commit is lost exactly when it is the row's last write and the batch holds another text of it (`LiveColumn.ConcurrentWriteSurvives`, `LiveColumn.WriteLost`), and an address changed in that gap leaves the account unfindable by it until a later run (`LiveLookup.AddressChangeSurvives`, `LiveLookup.AddressLost`).
- The UNIQUE column compares hashes, not addresses, so two accounts may share an address under different keys (`Applications.NewKeyNewAccount`); lookup rotation completes exactly when none do and every address can be read (`LookupRotation.RotateUndisturbed`).
- `PurgeExpiredPendingAccounts` takes it that a pending account has nothing but reset and outbox rows. An administrator can give it the moderator role or a verification mail; either blocks the purge of every expired account (`AccountTheorems.PurgeCommitsExactlyWhen`). Its comment also denies a resend flow, which exists.
- A password reset ends all sessions but not a login between its check and its insert (`AccountTheorems.ResetLeavesAdmittedLogins`); nor does a suspension, whose reinstatement then lets that login's session in (`AccountEffects.ReinstatedEnters`).
- The MFA store's writes are guarded by `enabled_at`, not by the secret the code was checked against (`AdminMfa.BackedExactlyWhenNoMiss`, `AdminMfa.HonestExactlyWhenInTime`, `AdminMfa.OverlappingSetupsMiss`), a setup overtaken by an enabling call is dropped without an error (`AdminMfa.LateSetupIsLost`), and the grant window starts at the clock reading written, not at the accepted code (`AdminMfa.SlowCallStretchesGrant`).
- The guard on `SetBrochureWatermarkedKey` is sound, but the discovery repository replaces a file without clearing the cached key (`Brochures.CurrentExactlyWhenNoStaleCopies`, `Brochures.ForeignExactlyWhenCopied`).
- `Decide` settles the application once; that there is one account comes from the UNIQUE hash of the address, and from the lookup key staying. A pending application can be approved exactly while a call holds an account or can still create one, so an approval that stops after creating its account cannot be repeated (`Applications.ApprovableExactlyWhen`, `Applications.StoppedApprovalIsFinal`), and a rejected application can still end with an account, exactly when one was created before the rejection or an approval in progress can still find the address and a name free (`Applications.RejectionLeavesAccountExactlyWhen`).
- The pair repairs abort as soon as two pairs share a row, and raising by 1000 does not take rows out of the range of existing orders: both repairs can collide with orders above 1000, depending on the order in which the database takes the rows (`TimelineOrder.Timeline.SwapTimelinePairs`, `TimelineResort.ResortNeverRefusedExactlyWhen`, `TimelineResort.OffsetApartAborts`).
- `Invalidate` passes over Redis errors (`ReadCache.CachedRepository.WriteAndInvalidate`), and even when it succeeds a read under way may store an answer the write has changed; what an invalidation has passed over stays current exactly when no store does (`ReadCache.CurrentExactlyWhenStoresInTime`, `ReadCache.OverlappingReadStaysStale`).
- Running the exam-item loop again changes nothing exactly when the first run leaves the orders of names with both words ascending and no review-only order above the both-word order that caps it; with no such name, or no other, that is always so, but not in general (`ExamItems.RerunExactlyWhen`, `ExamItems.BothWordsMoveAgain`). Normalising people counts needs two applications in general (`Contributions.OnceIsEnoughExactlyWhen`), and 全系 and 全校 lose their meaning behind 除 (`TimelineScope.ScopeAndExceptionAreOpposite`).

## Model

| member | source | states |
|---|---|---|
| `FieldCiphers.NewFieldCipherRing` | backend/internal/auth/crypto.go:43-62 | A ring is accepted exactly when its primary version is non-zero, present, and every version is non-zero with a 32-byte key; the accepted ring holds the caller's keys, and the legacy key only when it has 32 bytes |
| `FieldCiphers.VersionOpens` | backend/internal/auth/crypto.go:81-124 | A blob sealed under any version of the ring opens to its plaintext |
| `FieldCiphers.SealedOpens` | backend/internal/auth/crypto.go:89-124 | What a ring seals, it opens to the same plaintext, and needs no rotation |
| `FieldCiphers.CarriedOpens` | backend/internal/auth/crypto.go:74-124 | A blob whose first byte is the primary version and whose rest the primary key opens needs no rotation, and opens to that text also after every other key is retired |
| `FieldCiphers.LegacyOpens` | backend/internal/auth/crypto.go:99-124 | An unversioned blob under the legacy key, nonce first, opens to its text when the nonce's first byte is no version of the ring |
| `FieldCiphers.LegacyOpensExactlyWhen` | backend/internal/auth/crypto.go:99-124 | When that byte is a version, it opens to its text if and only if that version's key does not open the rest, or opens it to the same text |
| `FieldCiphers.UnknownBlobIsRefused` | backend/internal/auth/crypto.go:99-124 | What neither the key of its version nor the legacy key opens is refused as invalid, or as not configured by an empty ring |
| `FieldCiphers.RetiredRingAgrees` | backend/internal/auth/crypto.go:74-124 | A blob at the primary version reads the same after every other version is retired |
| `FieldCiphers.LegacyKeyStillNeeded` | backend/internal/auth/crypto.go:74-124 | The legacy key can be dropped for a readable up-to-date blob if and only if the primary key opens what follows its version byte; NeedsRotation looks at that byte alone |
| `FramedCipher.OldBlobLooksUpToDate` | backend/internal/auth/crypto.go:74-124 | A concrete blob under the legacy key whose nonce starts with the primary version counts as up to date, reads well, and is lost with the legacy key |
| `FieldCiphers.TombstoneNeverOpens` | backend/cmd/account-tool/erase.go:96-114 | The one-byte marker an erasure leaves in email_ciphertext, like an empty blob, is stale for every valid ring and opens under none |
| `FieldCiphers.Candidates` | backend/internal/auth/crypto.go:190-197 | The loop yields the primary key's hash at index 0 and the i-th retired key's at index i + 1, and nothing else |
| `FieldCiphers.CandidateMatchesOwner` | backend/internal/auth/crypto.go:183-203 | With collision-free hashing, a stored hash made of an address by the primary or any retired key is among a probe's candidates if and only if the probe is that address |
| `FieldCiphers.CandidatesExactly` | backend/internal/auth/crypto.go:190-197 | A hash is among a probe's candidates if and only if the primary key or some retired key makes it of the probe |
| `Paging.SelectPage` | backend/cmd/reencrypt/main.go:215-223 | One page: the ids after the cursor in ascending order, at most the limit, none skipped, short only when nothing is left |
| `Reencrypt.CollectStale` | backend/cmd/reencrypt/main.go:240-258 | A page's stale rows in order with their plaintexts, or the first stale row that does not open |
| `Reencrypt.RewriteBatch` | backend/cmd/reencrypt/main.go:261-284 | One transaction on the live column writes a fresh seal of each collected text into its row, if the row is still there, and touches no other row |
| `Reencrypt.BatchAdvances` | backend/cmd/reencrypt/main.go:265-291 | Committing a collected page extends, to the end of that page, the stretch in which every stale row is up to date and reads as before |
| `Reencrypt.RunBatch` | backend/cmd/reencrypt/main.go:223-291 | One turn of the loop with the API's writes before and after its page read is a run of the steps of LiveColumn, and what it collected and committed is what the page and the live column held |
| `Reencrypt.PageLeavesNoStale` | backend/cmd/reencrypt/main.go:236-284 | If the API seals with the ring, no stale row is left up to the end of a committed page, and none at all after a short page |
| `Reencrypt.Turn` | backend/cmd/reencrypt/main.go:223-291 | One turn of the loop, whatever the API wrote during it, keeps what holds at the loop's head, counters included, or ends the run in one of its outcomes with everything the whole run promises of that outcome |
| `Reencrypt.Column.RotateColumn` | backend/cmd/reencrypt/main.go:213-292 | The whole run, under any traffic of API writes, is a run of the steps of LiveColumn and, on completion, leaves no stale row if the API seals with the ring; on a column nobody writes to, completion means every non-null row was visited exactly once, both counters are the true counts in dry run and apply alike and every stale row was readable, and wherever it stops the rows up to the frontier are rotated with their texts kept and the others untouched; a dry run changes nothing; it terminates |
| `Reencrypt.RotationKeepsReads` | backend/cmd/reencrypt/main.go:213-292 | On a column nobody writes to, every cell reads at every moment exactly as before the run, readable or not |
| `Reencrypt.RetiringIsSafe` | backend/cmd/reencrypt/main.go:213-292 | After a complete applying run no row is stale, and primary plus legacy key alone read every cell as the full ring did before |
| `Reencrypt.OldKeysGoExactlyWhen` | backend/cmd/reencrypt/main.go:213-292 | After a run that has passed a readable cell, the primary key alone reads it as the full ring did if and only if the cell was stale before the run or the primary key opens what follows its version byte |
| `Reencrypt.LegacyRowReads` | backend/internal/auth/crypto.go:99-124 | In a column of unversioned blobs under the legacy key whose nonces start with no version, or with one whose key does not open the rest otherwise, every row reads as its text, and is stale unless its nonce starts with the primary version |
| `Reencrypt.RotateLegacyColumn` | backend/cmd/reencrypt/main.go:213-292 | An undisturbed applying run over such a column completes, rewrites exactly the rows whose nonce does not start with the primary version, leaves every row reading as its text, and the rewritten ones also under the primary key alone |
| `Reencrypt.LiveRotation` | backend/cmd/reencrypt/main.go:213-292 | After a run under API traffic each row reads as the API alone would have left it if and only if it was not overtaken, and after a complete one primary plus legacy key read every row as the whole ring does |
| `LiveColumn.ConcurrentWriteSurvives` | backend/cmd/reencrypt/main.go:221-284 | Over every run of page reads, commits, abandoned batches and API writes, a row ends with the text last written to it if and only if that write does not fall between the page read and the commit of a batch that holds another text of it |
| `LiveTable.LastWriteDecides` | backend/cmd/reencrypt/main.go:221-284 | After any list of API writes a row is as its last write left it, gone if that was a deletion, and untouched without one |
| `LiveColumn.UnwrittenKeepsText` | backend/cmd/reencrypt/main.go:221-284 | A row nobody writes to keeps its text through any number of batches |
| `LiveColumn.WrongBatchDecides` | backend/cmd/reencrypt/main.go:221-284 | A row whose text changed under a batch loses the new text if and only if that batch commits |
| `LiveColumn.ClearWritesSurvive` | backend/cmd/reencrypt/main.go:221-284 | Writes that touch no row of a batch under way are never overtaken |
| `LiveColumn.WriteLost` | backend/cmd/reencrypt/main.go:221-284 | A run in which the API stores a new text, the batch commits, and the old text is back, for every ring that reads a retired version |
| `Reencrypt.ErasedRowIsUnreadable` | backend/cmd/account-tool/erase.go:96-114 | An erased account's row is stale and unreadable |
| `Reencrypt.RotateTwice` | backend/cmd/reencrypt/main.go:213-292 | Undisturbed, an applying run completes if and only if every stale row opens, hence never on a column with an erased account; a second run then rewrites 0 rows |
| `LookupRotation.ComputedExtends` | backend/cmd/reencrypt/main.go:144-164 | Looking at the next row adds it to the batch exactly when its stored hash is not the primary key's, with the new hash |
| `LookupRotation.WriteHashes` | backend/cmd/reencrypt/main.go:175-192 | The batch's updates run in order on the live table until one would duplicate another row's hash; the UNIQUE column is kept throughout, and a conflict comes with the row already holding the hash |
| `LookupRotation.WrittenIsCommitted` | backend/cmd/reencrypt/main.go:175-192 | A transaction that goes through is the commit of the page it was computed from, whatever was written in between |
| `LookupRotation.ConflictMeansClash` | backend/cmd/reencrypt/main.go:175-192 | With collision-free hashing and readable rows hashed by configured keys, a conflict comes from two accounts with one address, or from an unreadable row that holds the new hash |
| `LookupRotation.RehashAdvances` | backend/cmd/reencrypt/main.go:144-200 | A committed page extends the stretch of rows carrying the primary key's hash and nothing else changes |
| `LookupRotation.RunBatch` | backend/cmd/reencrypt/main.go:135-200 | One turn with the API's writes before and after its page read is a run of the steps of LiveLookup; it stops at an unreadable address, or at a conflict, which leaves the live table as it was |
| `LookupRotation.Table.RotateEmailLookupHash` | backend/cmd/reencrypt/main.go:127-201 | The whole run, under any traffic of address changes, is a run of the steps of LiveLookup; on a table nobody else writes to, rows up to the frontier carry the primary hash, the rest is untouched, stored hashes stay unique, completion means every row was visited and opened and both counters are exact, and a conflict means two accounts with one address, or an unreadable row holding the new hash, also in a table with erased accounts |
| `LookupRotation.ErasedAccountNeverOpens` | backend/cmd/account-tool/erase.go:96-114 | An erased account's address opens under no valid ring |
| `LiveLookup.IndexedMeansFound` | backend/internal/auth/postgres_store.go:401-413 | Looking an address up finds an active account that indexes its own address if and only if the address is the account's; an account that does not index it is not found by it |
| `LiveLookup.AddressChangeSurvives` | backend/cmd/reencrypt/main.go:134-192 | Over every run of page reads, commits, abandoned batches and address changes, an account ends findable by its address if and only if its last change does not fall between page read and commit of a batch holding its old address, or a later batch repairs it |
| `LiveLookup.UnwrittenRow` | backend/cmd/reencrypt/main.go:134-192 | A row nobody writes to ends findable if and only if it was, or a batch that holds it commits |
| `LiveLookup.AddressLost` | backend/internal/auth/postgres_store.go:811-823 | A run in which an account changes its address under a batch: its new address then finds nobody and its old one finds it |
| `LookupRotation.LiveRehash` | backend/cmd/reencrypt/main.go:127-201 | After a run under API traffic an account findable before still is if and only if it was not overtaken |
| `LookupRotation.LookupsAgree` | backend/internal/auth/postgres_store.go:401-413 | At every frontier of a run nobody disturbs, also one stopped at an erased account, looking an address up with all configured keys finds what it found before, and among readable rows exactly the active accounts of the address |
| `LookupRotation.RehashedRow` | backend/cmd/reencrypt/main.go:144-192 | Up to the frontier of a run a row's hash is the primary key's HMAC of its decrypted and normalised address; its ciphertext, its status and every row beyond are as before |
| `LookupRotation.ConfiguredHashIsFound` | backend/internal/auth/postgres_store.go:401-413 | An active account whose stored hash the primary or any retired key made of its normalised address is found by that address, before a run and at every frontier of one |
| `LookupRotation.FindByEmail` | backend/internal/auth/service.go:329-341 | Looking an address up finds exactly the active accounts whose hash some configured key makes of it |
| `LookupRotation.PrimaryKeySuffices` | backend/internal/auth/crypto.go:157-203 | After a complete run the primary key alone answers every lookup as all keys did before |
| `LookupRotation.RotateUndisturbed` | backend/cmd/reencrypt/main.go:127-201 | Undisturbed, an applying run completes if and only if every address can be read and no two accounts share one, and leaves no stale hash |
| `AccountRuns.StepKeepsOneOpenReset` | backend/internal/auth/postgres_store.go:415-434 | Every step keeps at most one unconsumed reset or activation challenge per account |
| `AccountRuns.StepKeepsSession` | backend/internal/auth/postgres_store.go:112-183 | No step deletes a session row, moves it to another account or clears its revocation |
| `AccountRuns.StepKeepsInv` | backend/internal/auth/postgres_store.go:112-574 | Every step of every kind keeps the invariant: one open reset per account; sessions, pending logins, admin roles and OAuth flows only for accounts that left the pending state; every token drawn fresh |
| `AccountRuns.StepIsOneWay` | backend/internal/auth/postgres_store.go:112-574 | Every step only moves forward: revoked sessions stay, spent tokens stay spent, settled accounts stay settled, deleted accounts stay deleted |
| `AccountRuns.RunKeepsInv` | backend/internal/auth/postgres_store.go:112-574 | The same over every run of any length |
| `AccountTheorems.RevokedForever` | backend/internal/auth/postgres_store.go:130-183 | A revoked session authenticates at no later moment of any run, including after reinstatement |
| `AccountTheorems.SessionsEndWithTheirAccount` | backend/internal/admin/users.go:605-717 | No session that existed when its account was suspended, force-logged-out, erased or password-reset ever authenticates afterwards |
| `AccountTheorems.ChangeKeepsOnlyCaller` | backend/internal/auth/postgres_store.go:551-574 | After a self-service password change a session authenticates if and only if it did before and, if it is the account's, is the caller's |
| `AccountTheorems.ResetLeavesAdmittedLogins` | backend/internal/auth/service.go:964-1018 | A reset ends the sessions there are, not logins under way: the account can be entered afterwards without a new credential check if and only if a login had passed its check and not yet inserted its session |
| `AccountTheorems.AcceptedIsSpent` | backend/internal/auth/postgres_store.go:251-351 | An accepted reset, activation, email or OAuth token was unspent and not expired, and is spent afterwards |
| `AccountTheorems.TokenAcceptedOnce` | backend/internal/auth/postgres_store.go:251-487 | In every run from empty tables no token of any kind is accepted twice |
| `AccountTheorems.OnlyActivationActivates` | backend/internal/auth/postgres_store.go:436-487 | A pending account becomes active if and only if the step is the accepted consumption of its own activating token |
| `AccountTheorems.DeletedForever` | backend/cmd/account-tool/erase.go:96-114 | In every run a deleted account stays deleted, no password and no session admits anybody under it, and its row never changes except by another erasure of it |
| `AccountTheorems.PurgeSparesUsableLinks` | backend/internal/auth/postgres_store.go:497-549 | At the moment of a purge no link of an account it selects could still be consumed |
| `AccountTheorems.PurgeCommitsExactlyWhen` | backend/internal/auth/postgres_store.go:526-549 | A purge commits if and only if no account it selects holds the moderator role, has an email-verification row, or is referred to by a row of any other table |
| `AccountTheorems.ModeratorStallsPurge` | backend/internal/admin/users.go:719-755 | Granting the moderator role to one expired pending account makes the purge change nothing at all |
| `AccountTheorems.EmailCheckStallsPurge` | backend/internal/auth/service.go:246-284 | So does sending such an account a verification mail |
| `AccountTheorems.PurgedWasNeverUsed` | backend/internal/auth/postgres_store.go:497-549 | An account a purge removes was pending and without a session at every earlier moment of the run |
| `AccountTheorems.NewLinkReplacesOld` | backend/internal/auth/postgres_store.go:415-434 | After a link is issued no earlier link of the account is accepted, and the new one is accepted exactly until its expiry if the account's status fits its kind |
| `AccountTheorems.NewPasswordAlone` | backend/internal/auth/postgres_store.go:436-487 | After an accepted reset or change, a password passes the login check if and only if it is the new one |
| `AccountTheorems.ActiveOnlyThroughItsLink` | backend/internal/auth/postgres_store.go:436-487 | In every run a pending account found active later has had its own activating link consumed in between, or was purged and its id used anew |
| `AccountTheorems.OldPasswordFailsOnlyIfSet` | backend/internal/auth/postgres_store.go:436-574 | In every run the only password that admits a login is the one the account had, unless an accepted reset, a change or an erasure of the account set it in between, or the account was purged and its id used anew |
| `AccountTheorems.ErasureVoidsTokens` | backend/cmd/account-tool/erase.go:54-86 | No token an account held when it was erased is accepted at any later moment |
| `AccountEffects.NewAccounts` | backend/internal/auth/postgres_store.go:26-64 | A registered account takes no login until it is activated, one created active takes exactly its password; neither has a verified address or an identity beyond temporary |
| `AccountEffects.ActivationEnters` | backend/internal/auth/postgres_store.go:436-487 | After the activating token is consumed the account is a student's and takes exactly the password that came with it |
| `AccountEffects.LoginEnters` | backend/internal/auth/service.go:964-1018 | A login that passed its check can insert its session, which lets its holder in exactly until it expires |
| `AccountEffects.LogoutEnds` | backend/internal/auth/postgres_store.go:173-183 | Logging out ends that session and no other; revoking the others keeps exactly the named one of the account and all of other accounts |
| `AccountEffects.ForcedLogoutEnds` | backend/internal/admin/users.go:688-717 | A forced logout ends every session of the account and no other, and its password stays valid |
| `AccountEffects.SuspendedIsShutOut` | backend/internal/admin/users.go:605-653 | From the suspension of an active account that is no administrator's, in every run without an accepted reinstatement of it, no password or provider login of it passes and no session of it authenticates, including one inserted by a login admitted before |
| `AccountEffects.SuspensionSparesOthers` | backend/internal/admin/users.go:605-653 | A suspension keeps the account's password, identity and verification, and every session of every other account |
| `AccountEffects.ReinstatedEnters` | backend/internal/admin/users.go:655-686 | A reinstated account takes exactly the password it had, and a session of it authenticates again if and only if it is unrevoked and unexpired: those inserted during the suspension by logins admitted before it |
| `AccountEffects.SuspensionRevokes` | backend/internal/admin/users.go:605-653 | No session the account had when it was suspended ever authenticates again, also after a reinstatement |
| `AccountEffects.AdministratorStaysActive` | backend/internal/admin/users.go:605-653 | No step but its erasure takes an active administrator's account or role away |
| `AccountEffects.ErasedIsShutOut` | backend/cmd/account-tool/erase.go:28-130 | An erased account keeps no role, identity or verification, has the tombstone for a password, and in every run nobody gets in with it |
| `AccountEffects.NewCheckReplacesOld` | backend/internal/auth/postgres_store.go:284-351 | After a verification mail is issued no earlier check of the account is accepted, and the new one is exactly until its expiry, by the token alone or by its own account |
| `AccountEffects.CheckVerifies` | backend/internal/auth/postgres_store.go:299-351 | An accepted check sets the verification time of its owner if that account is active and has none, and changes nothing else of any account |
| `AccountEffects.VerifiedOnlyByCheck` | backend/internal/auth/postgres_store.go:299-351 | A verification time changes only by an accepted check of the account that had none, or by its erasure |
| `AccountEffects.NewStateIsForItsProvider` | backend/internal/auth/postgres_store.go:239-282 | An OAuth state is accepted exactly from the provider it was issued for and before it expires |
| `AccountEffects.RolesAreAsAsked` | backend/internal/admin/users.go:719-755 | The moderator role is given and taken exactly as asked, the administrator role only to accounts past their activation, and nobody else's roles change |
| `AccountEffects.PurgeRemovesExactly` | backend/internal/auth/postgres_store.go:497-549 | A committed purge removes exactly the pending accounts with an unconsumed activation link past its expiry, and leaves the others' rows as they were |
| `AccountEffects.OthersAreSpared` | backend/internal/auth/postgres_store.go:112-574 | No step of any kind changes the row, the roles or a session of an account it is not about |
| `AccountStore.Store.CheckLogin` | backend/internal/auth/service.go:964-995 | The credential check passes exactly for an active account with this password, and is then the machine's CheckPassword step |
| `AccountStore.Store.CreateSession` | backend/internal/auth/postgres_store.go:112-128 | Inserting the session is the machine's OpenSession step: it rechecks neither status nor password |
| `AccountStore.Store.FindActiveSession` | backend/internal/auth/postgres_store.go:130-163 | Found exactly when the session is unrevoked, unexpired and its account active |
| `AccountStore.Store.CreatePasswordResetChallenge` | backend/internal/auth/postgres_store.go:415-434 | The transaction is the machine's IssueReset step; the account only has to exist |
| `AccountStore.Store.ConsumePasswordResetChallenge` | backend/internal/auth/postgres_store.go:436-487 | The transaction is the machine's ConsumeReset step, and a refusal changes nothing |
| `AccountStore.Store.CreateEmailVerificationChallenge` | backend/internal/auth/postgres_store.go:284-297 | The transaction is the machine's IssueEmailCheck step; the account only has to exist |
| `AccountStore.Store.ConsumeEmailVerification` | backend/internal/auth/postgres_store.go:299-351 | Both forms are the machine's ConsumeEmailCheck step |
| `AccountStore.Store.ConsumeOAuthState` | backend/internal/auth/postgres_store.go:251-282 | The transaction is the machine's ConsumeOAuthState step |
| `AccountStore.Store.UpdatePasswordForAccount` | backend/internal/auth/postgres_store.go:551-574 | Succeeds exactly for an active account, whose password it then sets, and is the machine's ChangePassword step |
| `AccountStore.Store.FindExpiredPending` | backend/internal/auth/postgres_store.go:504-526 | The join selects exactly the pending accounts with an unconsumed, expired activating challenge |
| `AccountStore.Store.PurgeExpiredPendingAccounts` | backend/internal/auth/postgres_store.go:497-549 | The transaction is the machine's Purge step; a row still referring to a selected account rolls all of it back |
| `AccountStore.Store.SuspendAccount` | backend/internal/admin/users.go:605-653 | Succeeds exactly for an active account that is no administrator's, which it leaves suspended, and is the machine's Suspend step |
| `AccountStore.Store.ReinstateAccount` | backend/internal/admin/users.go:655-686 | Succeeds exactly for a suspended account, which it leaves active, and is the machine's Reinstate step |
| `AccountStore.Store.ForceLogoutAccount` | backend/internal/admin/users.go:688-717 | The transaction is the machine's ForceLogout step |
| `AccountStore.Store.SetAdmissionsModeratorRole` | backend/internal/admin/users.go:719-755 | The transaction is the machine's SetModerator step; the account only has to exist |
| `AccountStore.Store.CheckErase` | backend/cmd/account-tool/main.go:178-184 | The command refuses an account that is already deleted, before the transaction opens |
| `AccountStore.Store.EraseAccount` | backend/cmd/account-tool/erase.go:28-130 | With confirm the transaction is the machine's Erase step, which does not ask for the status again, so overlapping erasures both run; without it nothing changes |
| `Totp.Truncate` | backend/internal/auth/mfa.go:64-73 | Every 20-byte digest yields six decimal digits, read inside the digest |
| `Totp.CodesAgree` | backend/internal/auth/mfa.go:64-73 | Two digests give the same code if and only if the numbers RFC 4226 truncates them to are equal |
| `Totp.TruncateIsNumber` | backend/internal/auth/mfa.go:64-73 | The six digits are the decimal value of the four bytes at the offset in the digest's last half byte, the top bit cleared, modulo a million |
| `Totp.Rfc4226Example` | backend/internal/auth/mfa.go:64-73 | The worked example of section 5.4 of RFC 4226: a digest with 50ef7f19 at offset 10 gives 872921 |
| `Totp.AcceptsExactlyRfcCodes` | backend/internal/auth/mfa.go:75-96 | A code is accepted if and only if, trimmed, it is that of the present 30-second step, the one before or the one after, its counter sent as eight big-endian bytes |
| `Totp.BigEndianRoundTrip` | backend/internal/auth/mfa.go:65-67 | Different counters are sent to the MAC as different blocks |
| `Totp.VerifyTOTP` | backend/internal/auth/mfa.go:75-96 | Accepted if and only if the trimmed code is that of a non-negative step within one of the current; the step returned is the earliest such |
| `Totp.CodeAcceptedNearby` | backend/internal/auth/mfa.go:75-96 | A code made at one instant is accepted at every instant of a non-negative clock at most 30 seconds away |
| `Totp.AcceptedCodeIsRecent` | backend/internal/auth/mfa.go:75-96 | The whole interval of an accepted code's step lies within 60 seconds of the check |
| `AdminMfa.RunKeepsInv` | backend/internal/auth/postgres_store.go:655-699 | In every interleaved run a record that is not enabled carries no verification time |
| `AdminMfa.EnabledSecretIsKept` | backend/internal/auth/postgres_store.go:655-673 | In every interleaved run without a disabling write an enabled record stays enabled with its secret |
| `AdminMfa.SetupLastsUntil` | backend/internal/auth/mfa.go:215-280 | After a setup is saved on a record that is not enabled, exactly enabling calls with a code of its secret pass, and exactly until it expires |
| `AdminMfa.EnabledTakesCodes` | backend/internal/auth/mfa.go:129-312 | On an enabled record exactly verifying and disabling calls with a code of its secret pass |
| `AdminMfa.WriteOpensGrant` | backend/internal/auth/postgres_store.go:675-703 | A write that lands keeps the secret, leaves the record enabled with no setup pending, and opens a grant that lasts exactly the TTL from the time written |
| `AdminMfa.OtherWrites` | backend/internal/auth/postgres_store.go:675-753 | A disabling write leaves no record; an enabling one on an enabled record and a verifying one on any other change nothing |
| `AdminMfa.StepKeepsStamped` | backend/internal/auth/postgres_store.go:655-699 | Every step keeps: a record that is not enabled carries no verification time, an enabled one carries that of the call that last stamped it |
| `AdminMfa.GrantsStayBackedUnlessMissed` | backend/internal/auth/mfa.go:129-163 | A step keeps the grant backed by a code of the present secret if and only if it does not stamp a record whose secret changed since its code was checked |
| `AdminMfa.BackedExactlyWhenNoMiss` | backend/internal/auth/mfa.go:129-312 | Over every interleaved run the enabled record's verification time comes at every moment from a call that accepted a code of its present secret, if and only if no write misses |
| `AdminMfa.HonestExactlyWhenInTime` | backend/internal/auth/mfa.go:129-312 | Over every run of setups, accepted codes and writes, the grant lets a code-less request in only after some code of the stored secret was accepted within the TTL plus a given delay, at every moment, if and only if each write that sets a verification time comes after an accepted code of the secret then stored, no more than that delay before the time it writes, its own call's or another's; the condition speaks of the schedule of saves, codes and writes alone |
| `AdminMfa.GrantComesFromACode` | backend/internal/auth/mfa.go:120-125 | In every run without a miss, when a code-less request passes on the grant, a code of the stored secret was accepted less than the TTL earlier, plus the time its call took between check and clock reading |
| `AdminMfa.SlowCallStretchesGrant` | backend/internal/auth/mfa.go:129-163 | That bound is sharp: a call that takes a given time stretches the window by as much |
| `AdminMfa.SequentialCallsNeverMiss` | backend/internal/auth/mfa.go:129-312 | Calls that do not overlap never miss |
| `AdminMfa.OverlappingSetupsMiss` | backend/internal/auth/mfa.go:247-280 | Two overlapping setups do: a code of the first secret enables the second, and code-less requests pass although no code of it was ever shown |
| `AdminMfa.LateSetupIsLost` | backend/internal/auth/postgres_store.go:655-673 | A setup that read the record before another call enabled it saves nothing and reports no error |
| `AdminMfa.Service.VerifyAdminTOTP` | backend/internal/auth/mfa.go:168-186 | Passes exactly when not limited beforehand and the code is accepted; a refusal is a rate limit if either limiter says so, the distributed one only after a wrong code |
| `AdminMfa.Service.CheckSetup` | backend/internal/auth/mfa.go:215-226 | Refuses non-admins and enabled records |
| `AdminMfa.Service.SaveAdminMFASecret` | backend/internal/auth/postgres_store.go:655-673 | The guarded upsert is the machine's Save step and leaves an enabled record alone without saying so |
| `AdminMfa.Service.BeginAdminMFA` | backend/internal/auth/mfa.go:215-245 | Answers by the record it read, whatever other calls did before its save; afterwards the new secret is pending, or a record enabled meanwhile is as it was |
| `AdminMfa.Service.EnableAdminMFA` | backend/internal/auth/mfa.go:247-280 | Succeeds exactly for an admin with a live pending secret and a code of it, and is then a check and a write of the machine; a failure changes nothing; which error is told apart by role, record, expiry, limiter and code |
| `AdminMfa.Service.VerifyAdminMFA` | backend/internal/auth/mfa.go:129-163 | Succeeds exactly for an enabled record and an accepted code; the expiry returned is the first instant at which the grant no longer counts |
| `AdminMfa.Service.DisableAdminMFA` | backend/internal/auth/mfa.go:282-312 | Removes the record exactly for an enabled record and an accepted code, and otherwise fails by role, record, limiter and code |
| `AdminMfa.Service.RequireAdminMFA` | backend/internal/auth/mfa.go:336-394 | Service accounts pass; without an enabled record the request passes unless MFA is required; with one, code-less requests pass exactly on a live grant and others exactly on an accepted code, which renews the grant when grants are on |
| `Brochures.StepKeepsLog` | backend/internal/admissions/postgres_repository.go:656-761 | Every step, discovery included, keeps or extends a brochure's event log so that it stays a connected path from "-" to the row's status, dated exactly when published |
| `Brochures.LogsAlwaysConsistent` | backend/internal/admissions/postgres_repository.go:845-893 | The same over every interleaving, and the log only grows |
| `Brochures.CacheStaysCurrentUnlessDiscovered` | backend/internal/admissions/postgres_repository.go:952-965 | A step keeps every row's watermarked key the one made from its present file, and every download honest, if and only if it is not a discovery replacing the file of a row with a cached copy |
| `Brochures.CurrentExactlyWhenNoStaleCopies` | backend/internal/admissions/postgres_repository.go:952-965 | Over every interleaving the watermarked keys stay current at every moment if and only if no discovery replaces the file of a row that then has a cached copy |
| `Brochures.RunKeepsInv` | backend/internal/admissions/brochure_handler.go:191-231 | The same over every interleaving of downloads, uploads and reviews without such a discovery |
| `Brochures.ForeignExactlyWhenCopied` | backend/internal/admissions/brochure_handler.go:191-231 | In every interleaving, discoveries included, a download serves bytes foreign to the file of the row it read if and only if that row carried the key of a copy made from a file with other contents |
| `Brochures.DownloadsServeTheirRow` | backend/internal/admissions/brochure_handler.go:191-231 | Hence without a discovery replacing the file of a row with a cached copy, whatever a download serves derives from the file of the row it read |
| `Brochures.BareExactlyWhenRenderingFails` | backend/internal/admissions/brochure_handler.go:191-231 | In every run a download ends serving an unwatermarked file if and only if it gave up at its rendering; failing to store or record the copy never does that |
| `Brochures.FirstDownloadCaches` | backend/internal/admissions/brochure_handler.go:191-231 | Undisturbed, the first download of a published file serves its watermarked rendering, stores it under the file's key with .watermarked.pdf appended, and records that key |
| `Brochures.LaterDownloadServesCopy` | backend/internal/admissions/brochure_handler.go:191-231 | Every later download serves the copy the row names and changes nothing |
| `Brochures.UploadIsStored` | backend/internal/admissions/postgres_repository.go:656-708 | A published upload is what the next download starts from |
| `Brochures.RemovedFileIsGone` | backend/internal/admissions/brochure_handler.go:191-231 | A download whose file has been removed cannot go on, and no other file is affected |
| `Brochures.OnlyPublishedIsServed` | backend/internal/admissions/postgres_repository.go:895-907 | In every run a download serves a document that was published when it was asked for |
| `Brochures.PublicOnlyByReview` | backend/internal/admissions/postgres_repository.go:656-893 | A brochure becomes public only by an administrator's upload, an approving review, or from the archive |
| `Brochures.StatusMoves` | backend/internal/admissions/postgres_repository.go:710-893 | Only a pending brochure is rejected, only a published one archived, and it becomes pending again exactly with a new file |
| `Brochures.ReviewsReach` | backend/internal/admissions/postgres_repository.go:818-893 | A status change is admitted exactly from pending to published or rejected, from published to archived and back |
| `Brochures.UploadsReplaceTheFile` | backend/internal/admissions/postgres_repository.go:656-761 | An upload puts its file in the row without a cached copy, pending or published and dated as it was made |
| `Brochures.StaleCopyIsServed` | backend/internal/brochurediscovery/postgres_repository.go:408-417 | After such a discovery is confirmed, a download of the new document serves the old document's copy |
| `BrochureStore.Store.CreateBrochure` | backend/internal/admissions/postgres_repository.go:710-761 | The transaction is the machine's Create step and returns the key it replaced |
| `BrochureStore.Store.PublishBrochureInTx` | backend/internal/admissions/postgres_repository.go:656-708 | The transaction is the machine's Publish step and returns the key it replaced |
| `BrochureStore.Store.ChangeBrochureStatus` | backend/internal/admissions/postgres_repository.go:845-893 | Succeeds exactly when the row has the expected status and is then the machine's ChangeStatus step |
| `BrochureStore.Store.SetBrochureWatermarkedKey` | backend/internal/admissions/postgres_repository.go:952-965 | Only the row that still has the expected file takes the key |
| `BrochureStore.Store.WatermarkedBrochureBytes` | backend/internal/admissions/brochure_handler.go:191-231 | Fails exactly when the object is missing. A cached copy is served as it is; otherwise the watermarked rendering of the file, whether or not storing and recording it succeed, and the bare file exactly when rendering fails. The copy is stored under the file's key with .watermarked.pdf appended and recorded unless a step failed or the row was replaced; nothing else is stored, and every table invariant is kept |
| `Applications.StepKeepsInv` | backend/internal/accountapplications/service.go:414-504 | Every step of interleaved approvals, rejections and account changes keeps: address hashes and usernames unique, an application approved exactly when it names an account, that account created and marked by its reviewers |
| `Applications.DecidedOnce` | backend/internal/accountapplications/postgres_repository.go:242-258 | Once decided, no run changes the status or the account named |
| `Applications.DecidedStartsNothing` | backend/internal/accountapplications/service.go:414-475 | A review that starts on a decided application ends at once as already decided and changes nothing |
| `Applications.ReviewsAreSafe` | backend/internal/accountapplications/service.go:414-462 | In every interleaving an approved application names an existing account that was created for it and marked a student, and two accounts created under one lookup key that still hold the address are the same |
| `Applications.AtMostOneAccount` | backend/internal/accountapplications/service.go:430-450 | While no account is erased or changes its address and the lookup key stays, all reviewers together create at most one account |
| `Applications.NewKeyNewAccount` | backend/internal/auth/postgres_store.go:26-44 | Under a new lookup key a second account is created for the same address |
| `Applications.ApprovableExactlyWhen` | backend/internal/accountapplications/service.go:414-462 | While the lookup key stays and no account is erased or changes its address, a pending application can still be approved if and only if a call holds an account, or a call that is looking for a name, or one that starts now, can still create one: the address is free, and its next name is valid and free or leaves it a further try that is |
| `Applications.StoppedApprovalIsFinal` | backend/internal/accountapplications/service.go:414-462 | Hence an approval that stops after creating its account, being the only one that holds one and having made it under the key in force, leaves an application that can no longer be approved, whoever holds the requested name |
| `Applications.FirstApprovalStops` | backend/internal/accountapplications/service.go:414-462 | The run in which this happens: a first approval finds address and name free, creates the account and stops; the application stays pending, the account active, and no continuation approves it |
| `Applications.RejectionLeavesAccountExactlyWhen` | backend/internal/accountapplications/service.go:414-504 | After a rejection commits, some continuation in which the lookup key stays and no account is erased or changes its address has an account created for the rejected application if and only if one was created already, or an approval is still looking for a name, the address is free, and the name it tries is valid and free or leaves it a further try that can succeed |
| `Applications.RejectionLeavesAccount` | backend/internal/accountapplications/service.go:414-504 | One such run: the approval creates its account, the rejection commits, and the account ends active and marked a student |
| `Applications.Service.CreateApprovedAccount` | backend/internal/auth/service.go:937-962 | Refused exactly for an invalid username or address, or when the hash of the address or the username is taken; agrees with the machine's TryCreate from every attempt |
| `Applications.Service.MarkAccountIdentityVerified` | backend/internal/accountapplications/postgres_repository.go:260-281 | Marks the account exactly when it is active; agrees with the machine's Mark |
| `Applications.Service.Decide` | backend/internal/accountapplications/postgres_repository.go:239-258 | Writes the decision exactly when the application is pending |
| `Applications.Service.Approve` | backend/internal/accountapplications/service.go:405-462 | Undisturbed: approves with the first of at most five names when every earlier one was refused by a UNIQUE column and it is valid and free; reports a conflict exactly after five refusals; a failure changes nothing |
| `Applications.Service.Reject` | backend/internal/accountapplications/service.go:464-504 | Undisturbed: rejects exactly a pending application |
| `ExamItems.OuterRearranges` | backend/internal/admissions/model.go:674-683 | The nested swap loop only permutes the sort orders, distinct ones staying distinct and positive ones positive |
| `ExamItems.InterviewsEndLast` | backend/internal/admissions/model.go:673-683 | Every item named 面試 but not 書面審查 ends ordered no earlier than every 書面審查 item, strictly later when orders are distinct |
| `ExamItems.ReviewsComeFirst` | backend/internal/admissions/model.go:673-683 | The same by the words themselves: an item with 面試 and without 書面審查 in its name ends ordered no earlier than any with 書面審查 in it, strictly later when orders are distinct |
| `ExamItems.OnlyOrdersMove` | backend/internal/admissions/model.go:674-683 | Every item keeps all but its sort order, and the sort orders are the same ones counted with repetitions |
| `ExamItems.UnchangedExactlyWhen` | backend/internal/admissions/model.go:674-683 | For every list the loop changes nothing if and only if every interview-only order is at least every reviewing one, the orders of names with both words ascend by position, and every review-only order is at most that of the both-word position nearest before it, or of the first one if none precedes it |
| `ExamItems.RerunExactlyWhen` | backend/internal/admissions/model.go:674-683 | A second run changes nothing if and only if the first leaves the both-word orders ascending and the review-only ones capped in that way |
| `ExamItems.RerunChangesNothing` | backend/internal/admissions/model.go:674-683 | That is so whenever no name has both words |
| `ExamItems.BothWordsMoveAgain` | backend/internal/admissions/model.go:674-683 | It is not so for a both-word, a review-only and an interview-only item ordered 2, 3, 1: the first run leaves 1, 2, 3 and the second 2, 1, 3 |
| `ExamItems.OuterSorts` | backend/internal/admissions/model.go:674-683 | When every name has both words the loop sorts, orders ending ascending by position, and a second run changes nothing |
| `ExamItems.OrderReviewsFirst` | backend/internal/admissions/model.go:674-683 | The loop in place on the caller's array computes that permutation of the orders and changes no other field |
| `TimelineOrder.UpdateOrder` | backend/migrations/000054_program_timeline_events.sql:23-33 | A row update is refused exactly when the order does not fit the column or another row of the program has it, and otherwise keeps what the table admits |
| `TimelineOrder.SwapOne` | backend/cmd/admissions-tool/main.go:277-290 | One pair's row updates pass exactly when none is refused, in either order of the raised rows, and then exchange the two orders |
| `TimelineOrder.SeenPairFits` | backend/cmd/admissions-tool/main.go:277-290 | A pair whose orders are as the query saw them fits if and only if its raised orders fit the column and meet no other row, nor each other in the order the rows are raised |
| `TimelineOrder.SharedRowCollides` | backend/cmd/admissions-tool/main.go:277-290 | A pair sharing a row with an earlier one collides with that one's other row |
| `TimelineOrder.FitsIffDisjoint` | backend/cmd/admissions-tool/main.go:277-290 | A pair's updates fit if and only if it shares no row with an earlier pair and could be raised in the table the query saw |
| `TimelineOrder.Timeline.SwapTimelinePairs` | backend/cmd/admissions-tool/main.go:239-296 | The transaction commits if and only if it was confirmed, no two pairs share a row and every pair can be raised; then every pair has exchanged its orders and no other row moved, otherwise nothing changed |
| `TimelineOrder.SmallOrdersRaise` | backend/cmd/admissions-tool/main.go:278-279 | While orders stay up to 1000 every pair can be raised |
| `TimelineOrder.OffsetApart` | backend/cmd/admissions-tool/main.go:278-279 | Two rows exactly 1000 apart can be swapped only if the later one is raised first |
| `TimelineOrder.SwappedPairsInOrder` | backend/cmd/admissions-tool/main.go:236-238 | After a commit each pair is in the right order and holds exactly the two orders it had |
| `TimelineResort.NumberedByDateTimeAndStage` | backend/cmd/admissions-tool/main.go:298-314 | Within a program one row is numbered before another if and only if its date is earlier, an undated row coming last, or on one date its time is earlier, - coming last, or at one time its name holds a word of an earlier stage of the list from 簡章, 報名, 繳費 to 放棄, or all that is equal and its old order is smaller |
| `TimelineResort.ResortedStandsInOrder` | backend/cmd/admissions-tool/main.go:298-366 | In the resorted table the orders of a program stand in that order, and rows keep everything else |
| `TimelineResort.ResortedIsOneToN` | backend/cmd/admissions-tool/main.go:346-366 | A number is some row's new order if and only if it lies in 1..n for the program's n rows |
| `TimelineResort.NothingMisplaced` | backend/cmd/admissions-tool/main.go:316-334 | A rescan of the resorted table counts no row |
| `TimelineResort.UpdateAll` | backend/cmd/admissions-tool/main.go:346-363 | The UPDATE row by row, in the order the database takes the rows, stopping at the first refused one |
| `TimelineResort.PassExactlyWhen` | backend/cmd/admissions-tool/main.go:346-363 | For any row order an UPDATE of the whole column commits if and only if every new order fits and no row is taken before one that still has its new order; it has then renumbered every row |
| `TimelineResort.ResortExactlyWhen` | backend/cmd/admissions-tool/main.go:346-363 | For any two row orders the resort commits if and only if both UPDATEs pass in turn, and then leaves exactly the resorted table |
| `TimelineResort.ResortNeverRefusedExactlyWhen` | backend/cmd/admissions-tool/main.go:346-363 | The resort commits whatever orders the rows are taken in if and only if no raised order is one another row of its program has and no program has more than 1000 rows |
| `TimelineResort.SmallOrdersAreSafe` | backend/cmd/admissions-tool/main.go:298-302 | While orders stay up to 1000 that is the case |
| `TimelineResort.OffsetApartAborts` | backend/cmd/admissions-tool/main.go:346-363 | Two like events with orders 1 and 1001 abort the resort in one row order and commit it in the other |
| `TimelineResort.ResortTimeline` | backend/cmd/admissions-tool/main.go:298-370 | The count reported is the number of misplaced rows; confirmed, the transaction commits exactly when nothing is misplaced or the resort passes, always when it is safe, and leaves the resorted table, in which dates, then times, then stages ascend; otherwise nothing changed |
| `Contributions.FormatContributionRows` | backend/internal/admissions/contribution_model.go:160-181 | The loop computes the printed text, refusing exactly the rows and sizes the specification refuses |
| `Contributions.ParseContributionRowsText` | backend/internal/admissions/contribution_model.go:183-218 | The loop with its early exits computes the specified reading of every text |
| `Contributions.FormatAcceptsExactly` | backend/internal/admissions/contribution_model.go:160-181 | Printed are only 1 to 100 rows with a name that is not blank, of at most 240 bytes and on one line, and 0 to 1000000000 people; such rows are refused only when the text exceeds 16000 bytes |
| `Contributions.PrintedLineIs` | backend/internal/admissions/contribution_model.go:172-176 | A row's line is its trimmed name, with 系 after a space unless it ends in 系, a space, the count, and 人 |
| `Contributions.OldLineReads` | backend/internal/admissions/contribution_model.go:190-213 | A line of the older form, a name without a half-width comma, a comma and a count, or with a full-width comma for both, reads as the trimmed name and the count |
| `Contributions.OldTextReads` | backend/internal/admissions/contribution_model.go:183-218 | A text of up to 100 such lines within 16000 bytes reads as exactly those rows in order |
| `Contributions.ReadIsWithinBounds` | backend/internal/admissions/contribution_model.go:183-218 | Whatever is read has 1 to 100 rows with trimmed names and counts in bounds, and came from no unreadable line and no text over 16000 bytes |
| `Contributions.UnreadableTextStays` | backend/internal/admissions/contribution_model.go:220-230 | A text that cannot be read, or whose rows cannot be printed, stays as it is |
| `Contributions.PrintedTextReadsBack` | backend/internal/admissions/contribution_model.go:160-218 | Printed text reads back as the same rows in order, 系 appended where missing and white space collapsed, if and only if no name holds a comma; with one it is refused |
| `Contributions.SingleSpacedNamesComeBack` | backend/internal/admissions/contribution_model.go:160-218 | A single-spaced name comes back with 系 added where missing and nothing else changed |
| `Contributions.NormalizeTwiceIsStable` | backend/internal/admissions/contribution_model.go:220-230 | For every text normalising is stable from the second application on |
| `Contributions.OnceIsEnoughExactlyWhen` | backend/internal/admissions/contribution_model.go:220-230 | The first application is already stable if and only if a name holds a comma, a name has outgrown the limits, or every printed name is single-spaced |
| `Contributions.RewriteConserves` | backend/internal/admissions/contribution_model.go:220-230 | Whenever normalising rewrites, line i shows row i's count and there are as many lines as rows |
| `Contributions.RereadConserves` | backend/internal/admissions/contribution_model.go:220-230 | Whenever the result is read again it has the original number of rows and of people |
| `Text.TrimCuts` | backend/internal/admissions/contribution_model.go:190-191 | Trimming takes white space off both ends and nothing else |
| `Text.SpacesAreUnicode` | backend/internal/admissions/contribution_model.go:199-204 | White space is exactly the 25 code points with the Unicode property White_Space |
| `Text.ContainsMeans` | backend/internal/admissions/timeline_input_normalization.go:58-66 | One text contains another if and only if it stands somewhere in it |
| `Text.AtoiReads` | backend/internal/admissions/contribution_model.go:206-209 | A count is read from digits, or digits behind one sign, and from nothing else |
| `Text.RuneBytesIsLeast` | backend/internal/admissions/contribution_model.go:183-186 | A code point counts for as many bytes as UTF-8 needs for it |
| `TimelineScope.NormalizeTimelineEventsForProgram` | backend/internal/admissions/timeline_input_normalization.go:8-28 | The nested loops terminate, each round shortening the name, and compute the kept events |
| `TimelineScope.StrippedHasNoScope` | backend/internal/admissions/timeline_input_normalization.go:30-50 | What is left of a kept name carries no further scope |
| `TimelineScope.KeepsInputOrder` | backend/internal/admissions/timeline_input_normalization.go:8-28 | The result is every accepted event and no other, in input order, changed in nothing but its name |
| `TimelineScope.KeptIsStable` | backend/internal/admissions/timeline_input_normalization.go:8-28 | Normalising again for the same program changes nothing |
| `TimelineScope.ScopeAndExceptionAreOpposite` | backend/internal/admissions/timeline_input_normalization.go:52-90 | For a department list s, in half-width or full-width brackets, the （s） event is kept exactly when the （除s） event is dropped, if and only if s is neither 全系 nor 全校 or the program's name holds it; one of the two is always kept |
| `TimelineScope.ListReadsBack` | backend/internal/admissions/timeline_input_normalization.go:92-100 | A list of departments joined by any of the three separators splits into the same departments |
| `TimelineScope.ListedDepartmentsKeep` | backend/internal/admissions/timeline_input_normalization.go:69-104 | An event marked for a list of departments, with any separator and in either kind of brackets, is kept by exactly the programs whose name holds one of them, white space aside; one marked 除 and the list by exactly the others |
| `TimelineScope.WholeIsForAll` | backend/internal/admissions/timeline_input_normalization.go:52-72 | An event marked 全系 or 全校 is kept by every program, without the mark |
| `TimelineScope.OtherNotesStay` | backend/internal/admissions/timeline_input_normalization.go:52-67 | A bracketed note that names no department, exception or whole is no scope and stays in the name |
| `TimelineScope.DepartmentsAre` | backend/internal/admissions/timeline_input_normalization.go:58-66 | A part names a department if and only if 系 or 學程 stands in it or it ends in 組 |
| `TimelineScope.CompactIsSqueezed` | backend/internal/admissions/timeline_input_normalization.go:102-104 | Names are compared with every white-space code point left out |
| `Identifiers.ParsePrint` | backend/internal/admissions/model.go:74-88 | Every valid identifier parses back from its printed form |
| `Identifiers.PrintParse` | backend/internal/admissions/model.go:74-88 | Every accepted text is valid and is the printed form of what it was parsed as |
| `Identifiers.PrintedIs` | backend/internal/admissions/model.go:74-76 | The printed form is the year in three digits, the school and the program, with dashes between |
| `Identifiers.DerivedLocatorFits` | backend/internal/admissions/model.go:346-357 | Every source locator that can be derived passes the program's own check for its school |
| `Identifiers.LocatorIs` | backend/internal/admissions/model.go:346-357 | A locator is derived exactly for a three-digit school other than 000 and no page or one from 1 to 999; it is - without a page, else the school, a dash and the page in three digits |
| `ProgramInputs.CleanItemStaysValid` | backend/internal/admissions/model.go:664-672 | Cleaning a valid exam item again leaves it valid with the same order |
| `ProgramInputs.ReorderedStaysValid` | backend/internal/admissions/model.go:673-683 | The swap loop keeps a valid list of items valid, distinct orders included |
| `ProgramInputs.NormalizedStaysValid` | backend/internal/admissions/model.go:664-683 | Valid items stay valid however often they are normalised again |
| `ProgramInputs.AcceptedInputMaterializes` | backend/internal/admissions/model.go:208-332 | An input Validate accepts materialises under every non-blank school name, after any number of further normalisations of the shared items |
| `ProgramInputs.NormalizeItems` | backend/internal/admissions/model.go:664-683 | Normalising rewrites the caller's slice in place to the specified items |
| `ProgramInputs.Validate` | backend/internal/admissions/model.go:269-332 | Accepts exactly the specified inputs, and leaves the caller's slice normalised either way |
| `ProgramInputs.AcceptsExactly` | backend/internal/admissions/model.go:269-332 | Accepted exactly: a three-digit year and codes, a name of 1 to 500 code points once trimmed, a quota that is not negative, texts, addresses and dates within their rules once blanks are dashes, a derivable locator, and items and events within theirs |
| `ProgramInputs.Materialize` | backend/internal/admissions/model.go:208-267 | Computes the specified program or refusal, and leaves the caller's slice normalised |
| `ProgramInputs.MaterializedFields` | backend/internal/admissions/model.go:208-267 | Every field of the program is the input's field of that name, trimmed or dashed; its identifier parses to year, school and program, its locator is the derived one, and addresses, dates and events pass their checks |
| `ProgramInputs.NormalizedItemIs` | backend/internal/admissions/model.go:664-683 | Each normalised item is the one at its place with its texts trimmed or dashed, its page as a plain number, weight and multiplier untouched; the orders are the same ones counted with repetitions |
| `ProgramInputs.NormalizedEventIs` | backend/internal/admissions/model.go:684-700 | Each normalised event is a kept one of the input, scope stripped, numbered from 1 in input order, texts trimmed or dashed |
| `ProgramInputs.ValidateThenMaterialize` | backend/internal/admissions/model.go:269-332 | Called one after the other on one slice, what the first lets through the second never refuses |
| `ReadCache.ListKeyInjective` | backend/internal/admissions/cached_repository.go:36-39 | Distinct validated queries never share a list key, although the search text may hold colons |
| `ReadCache.KeyInjective` | backend/internal/admissions/cached_repository.go:36-87 | No two different requests of any of the three families share a cache key |
| `ReadCache.ExpiryKeepsCoherence` | backend/internal/admissions/cached_repository.go:124-133 | Entries may expire at any time |
| `ReadCache.CurrentExactlyWhenStoresInTime` | backend/internal/admissions/cached_repository.go:36-133 | Over every run of overlapping reads, writes, expiries and invalidations that may fail, overlap or interleave with the rest key by key: every entry whose key has been passed over since the last write is current at every moment if and only if every store under such a key lands while the repository gives the request the answer it gave at that call's miss |
| `ReadCache.InvalidatedIsCoherent` | backend/internal/admissions/cached_repository.go:93-111 | The whole cache is then current whenever the keys of the namespace have all been passed over since the last write, as a complete invalidation does |
| `ReadCache.NoOverlapKeepsCurrent` | backend/internal/admissions/cached_repository.go:36-133 | So it is while no write changes the answer of a read under way |
| `ReadCache.OverlappingReadStaysStale` | backend/internal/admissions/cached_repository.go:113-133 | A run that fails: a read under way stores the old answer after a complete invalidation, and it stays |
| `ReadCache.CachedRepository.Read` | backend/internal/admissions/cached_repository.go:113-133 | A cached read equals the repository's answer whether Redis answers, misses or cannot store, and keeps the cache current |
| `ReadCache.CachedRepository.ListPrograms` | backend/internal/admissions/cached_repository.go:36-49 | Equals the uncached answer |
| `ReadCache.CachedRepository.GetProgram` | backend/internal/admissions/cached_repository.go:61-73 | Equals the uncached answer |
| `ReadCache.CachedRepository.ListSchools` | backend/internal/admissions/cached_repository.go:75-87 | Equals the uncached answer |
| `ReadCache.CachedRepository.Invalidate` | backend/internal/admissions/cached_repository.go:93-111 | The loop deletes exactly the keys that DeletedExactly describes |
| `ReadCache.DeletedExactly` | backend/internal/admissions/cached_repository.go:93-111 | A key is deleted if and only if it lies in the namespace and on some page whose delete does not fail and which the scan reaches, every scan up to it succeeding; a failed delete stops nothing |
| `ReadCache.CachedRepository.WriteAndInvalidate` | backend/internal/admissions/cached_repository.go:93-111 | After a write and an invalidation with any failures the cache is current if and only if no entry that was left is one the write changed; without failures it always is |

## Left out

- AES-GCM, HMAC, SHA-1, Argon2, base64 and random generation: functions and fresh values with the laws stated where they are used. Clock readings are parameters.
- The nil receivers and key-length errors of the two key rings' constructors beyond `NewFieldCipherRing`.
- Ids, session and challenge tokens are naturals in database order; a token stands for itself and its stored hash.
- Account columns for usernames, contact and school emails, OAuth identities, service tokens, audit and outbox rows; rate limits and mail delivery; rows of other tables that refer to an account are one set.
- PostgreSQL's own concurrency inside one transaction, and serialisation failures between them. On the two rotated columns the API's writes are those the UNIQUE constraint let through.
- The MFA record's deletion by an erasure, the stored policy behind `required`, and `HasValidAdminMFAGrant`; the failure limiter is a boolean parameter.
- `Totp` decoding of a base32 secret and the provisioning URL.
- Watermark embedding, PDF checks and upload validation of brochures; a storage key names one content for ever, as the upload code's random keys do.
- AccountTheorems.DeletedForever: does not promise that a deleted account's tombstone stays, because the command checks the status before its transaction and a second erasure under way writes another one.
- Applications.Service.CreateApprovedAccount: what a valid username and a valid address are is a parameter.
- Mails, Discord and Telegram messages, documents and activation links of an application.
- ProgramInputs.Validate: the URL, date and time rules are parameters, the thirty free-text fields are one sequence checked alike, and `weight` and `multiplier` are reals.
- TimelineResort.ResortTimeline: the number of affected programs, which is only logged, is not computed.
- TimelineOrder.Timeline.SwapTimelinePairs: what each repair's SQL pattern selects is a parameter, constrained to pairs of one program in the wrong order.
- `ContributionInput.NormalizeAndValidate` beyond the people-count text: single-branch field checks.
- Contributions.ParseContributionRowsText: Atoi's 64-bit range, since the bound on people rejects larger values too.
- JSON encoding in the cache and entry lifetimes as numbers.
- Full-text search, statistics, calendar, forum, chat, notifications, portfolio, OpenAPI and the frontend: foreign effects or members with no law across functions.
