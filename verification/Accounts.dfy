/**
 The account machine: accounts, sessions and one-time tokens as the tables of
 `auth/postgres_store.go`, and every transaction that changes them as one step.
 A login is two steps, because the service checks the credentials in one call
 and inserts the session row in another.
 */
module Accounts {
  import opened Wrappers

  type AccountId = nat
  /** Stands for an opaque random token and for the hash stored of it. */
  type Token = nat
  type Time = int

  datatype Status = Pending | Active | Suspended | Deleted

  datatype Identity = Temporary | Student

  datatype Account = Account(status: Status, identity: Identity, password: string, emailVerified: Option<Time>)

  datatype Session = Session(account: AccountId, expires: Time, revoked: Option<Time>)

  datatype Purpose = Reset | Activation | EmailCheck | OAuthState(provider: string)

  datatype Challenge = Challenge(owner: Option<AccountId>, purpose: Purpose, expires: Time, consumed: bool) {
    predicate IsReset() {
      purpose.Reset? || purpose.Activation?
    }
  }

  /**
   `issued` remembers every token ever created, so that creating one models
   drawing fresh randomness; `admitted` holds the logins that have passed
   their credential check and not yet inserted their session; `attached` the
   accounts that rows of any table not modelled here refer to.
   */
  datatype State = State(
    accounts: map<AccountId, Account>,
    sessions: map<Token, Session>,
    challenges: map<Token, Challenge>,
    admins: set<AccountId>,
    moderators: set<AccountId>,
    attached: set<AccountId>,
    issued: set<Token>,
    admitted: multiset<AccountId>)

  const EMPTY := State(map[], map[], map[], {}, {}, {}, {}, multiset{})

  datatype Step =
    | Register(id: AccountId, password: string)
    | CreateActive(id: AccountId, password: string)
    | GrantAdmin(id: AccountId)
    | SetModerator(id: AccountId, grant: bool)
    | SetAttached(id: AccountId, attached: bool)
    | CheckPassword(id: AccountId, password: string)
    | CheckOAuth(id: AccountId)
    | OpenSession(id: AccountId, token: Token, expires: Time)
    | RevokeSession(token: Token, now: Time)
    | RevokeOthers(id: AccountId, keep: Token, now: Time)
    | IssueReset(id: AccountId, token: Token, expires: Time, activates: bool)
    | ConsumeReset(token: Token, password: string, now: Time)
    | IssueEmailCheck(id: AccountId, token: Token, expires: Time)
    | ConsumeEmailCheck(token: Token, caller: Option<AccountId>, now: Time)
    | IssueOAuthState(owner: Option<AccountId>, provider: string, token: Token, expires: Time)
    | ConsumeOAuthState(token: Token, provider: string, now: Time)
    | ChangePassword(id: AccountId, password: string, keep: Token, now: Time)
    | Purge(now: Time)
    | Suspend(id: AccountId, now: Time)
    | Reinstate(id: AccountId)
    | ForceLogout(id: AccountId, now: Time)
    | Erase(id: AccountId, tombstone: string, now: Time)

  predicate HasStatus(s: State, id: AccountId, status: Status) {
    id in s.accounts && s.accounts[id].status == status
  }

  ghost predicate HasSession(s: State, id: AccountId) {
    exists t :: t in s.sessions && s.sessions[t].account == id
  }

  /** The row a consuming query selects: unconsumed, of the right kind, and not expired. */
  predicate Consumable(s: State, token: Token, now: Time) {
    token in s.challenges && !s.challenges[token].consumed && s.challenges[token].expires > now
  }

  /** `revoked_at = COALESCE(revoked_at, now)` on an account's sessions, except perhaps one. */
  function RevokeAll(sessions: map<Token, Session>, id: AccountId, keep: Option<Token>, now: Time)
    : map<Token, Session>
  {
    map t | t in sessions ::
      if sessions[t].account == id && keep != Some(t) && sessions[t].revoked.None?
      then sessions[t].(revoked := Some(now)) else sessions[t]
  }

  function CloseOpen(challenges: map<Token, Challenge>, id: AccountId, resets: bool): map<Token, Challenge> {
    map t | t in challenges ::
      if challenges[t].owner == Some(id)
        && (if resets then challenges[t].IsReset() else challenges[t].purpose.EmailCheck?)
      then challenges[t].(consumed := true) else challenges[t]
  }

  /** The accounts PurgeExpiredPendingAccounts selects. */
  function Expired(s: State, now: Time): set<AccountId> {
    set t | t in s.challenges && s.challenges[t].purpose.Activation? && !s.challenges[t].consumed
            && s.challenges[t].expires < now && s.challenges[t].owner.Some?
            && HasStatus(s, s.challenges[t].owner.value, Pending)
      :: s.challenges[t].owner.value
  }

  ghost predicate OwnsCheck(s: State, token: Token, id: AccountId) {
    token in s.challenges && !s.challenges[token].IsReset() && s.challenges[token].owner == Some(id)
  }

  /** Rows the purge does not delete and whose foreign key forbids deleting the account. */
  ghost predicate References(s: State, id: AccountId) {
    HasSession(s, id) || id in s.admins || id in s.moderators || id in s.attached || exists t :: OwnsCheck(s, t, id)
  }

  /** The step's transaction commits; otherwise it reports an error and changes nothing. */
  ghost predicate Enabled(s: State, step: Step) {
    match step
    case Register(id, _) => id !in s.accounts
    case CreateActive(id, _) => id !in s.accounts
    case GrantAdmin(id) => id in s.accounts && s.accounts[id].status != Pending
    case SetModerator(id, _) => id in s.accounts
    case SetAttached(id, _) => id in s.accounts
    case CheckPassword(id, password) => HasStatus(s, id, Active) && s.accounts[id].password == password
    case CheckOAuth(id) => HasStatus(s, id, Active)
    case OpenSession(id, token, _) => id in s.admitted && id in s.accounts && token !in s.issued
    case RevokeSession(token, _) => token in s.sessions
    case RevokeOthers(id, _, _) => HasSession(s, id)
    case IssueReset(id, token, _, _) => id in s.accounts && token !in s.issued
    case ConsumeReset(token, _, now) =>
      Consumable(s, token, now) && s.challenges[token].IsReset() && s.challenges[token].owner.Some?
      && HasStatus(s, s.challenges[token].owner.value,
                   if s.challenges[token].purpose.Activation? then Pending else Active)
    case IssueEmailCheck(id, token, _) => id in s.accounts && token !in s.issued
    case ConsumeEmailCheck(token, caller, now) =>
      Consumable(s, token, now) && s.challenges[token].purpose.EmailCheck?
      && (caller.Some? ==> s.challenges[token].owner == caller)
    case IssueOAuthState(owner, _, token, _) =>
      (owner.Some? ==> HasSession(s, owner.value) && owner.value in s.accounts) && token !in s.issued
    case ConsumeOAuthState(token, provider, now) =>
      Consumable(s, token, now) && s.challenges[token].purpose == OAuthState(provider)
    case ChangePassword(id, _, _, _) => HasStatus(s, id, Active)
    case Purge(now) => forall id :: id in Expired(s, now) ==> !References(s, id)
    case Suspend(id, _) => HasStatus(s, id, Active) && id !in s.admins
    case Reinstate(id) => HasStatus(s, id, Suspended)
    case ForceLogout(id, _) => id in s.accounts
    case Erase(id, _, _) => id in s.accounts
  }

  function WithChallenge(s: State, challenges: map<Token, Challenge>, token: Token, challenge: Challenge): State {
    s.(challenges := challenges[token := challenge], issued := s.issued + {token})
  }

  function WithAccount(s: State, id: AccountId, account: Account): State {
    s.(accounts := s.accounts[id := account])
  }

  function Consumed(s: State, token: Token): State
    requires token in s.challenges
  {
    s.(challenges := s.challenges[token := s.challenges[token].(consumed := true)])
  }

  function ResetDone(s: State, token: Token, password: string, now: Time): State
    requires token in s.challenges && s.challenges[token].owner.Some? && s.challenges[token].owner.value in s.accounts
  {
    var id := s.challenges[token].owner.value;
    var account := if s.challenges[token].purpose.Activation?
                   then s.accounts[id].(password := password, status := Active, identity := Student)
                   else s.accounts[id].(password := password);
    WithAccount(Consumed(s, token), id, account).(sessions := RevokeAll(s.sessions, id, None, now))
  }

  function EmailChecked(s: State, token: Token, now: Time): State
    requires token in s.challenges
  {
    var owner := s.challenges[token].owner;
    if owner.Some? && HasStatus(s, owner.value, Active) && s.accounts[owner.value].emailVerified.None?
    then WithAccount(Consumed(s, token), owner.value, s.accounts[owner.value].(emailVerified := Some(now)))
    else Consumed(s, token)
  }

  function Purged(s: State, now: Time): State {
    var gone := Expired(s, now);
    s.(accounts := s.accounts - gone,
       challenges := map t | t in s.challenges && !(s.challenges[t].IsReset() && s.challenges[t].owner.Some?
                                                    && s.challenges[t].owner.value in gone) :: s.challenges[t])
  }

  function Erased(s: State, id: AccountId, tombstone: string, now: Time): State {
    s.(accounts := s.accounts[id := Account(Deleted, Temporary, tombstone, None)],
       sessions := RevokeAll(s.sessions, id, None, now),
       challenges := map t | t in s.challenges && s.challenges[t].owner != Some(id) :: s.challenges[t],
       admins := s.admins - {id},
       moderators := s.moderators - {id})
  }

  ghost function Next(s: State, step: Step): State {
    if !Enabled(s, step) then s
    else
      match step
      case Register(id, password) => WithAccount(s, id, Account(Pending, Temporary, password, None))
      case CreateActive(id, password) => WithAccount(s, id, Account(Active, Temporary, password, None))
      case GrantAdmin(id) => s.(admins := s.admins + {id})
      case SetModerator(id, grant) => s.(moderators := if grant then s.moderators + {id} else s.moderators - {id})
      case SetAttached(id, attached) => s.(attached := if attached then s.attached + {id} else s.attached - {id})
      case CheckPassword(id, _) => s.(admitted := s.admitted + multiset{id})
      case CheckOAuth(id) => s.(admitted := s.admitted + multiset{id})
      case OpenSession(id, token, expires) =>
        s.(sessions := s.sessions[token := Session(id, expires, None)], issued := s.issued + {token},
           admitted := s.admitted - multiset{id})
      case RevokeSession(token, now) =>
        s.(sessions := s.sessions[token := s.sessions[token].(revoked :=
             if s.sessions[token].revoked.Some? then s.sessions[token].revoked else Some(now))])
      case RevokeOthers(id, keep, now) => s.(sessions := RevokeAll(s.sessions, id, Some(keep), now))
      case IssueReset(id, token, expires, activates) =>
        WithChallenge(s, CloseOpen(s.challenges, id, true), token,
                      Challenge(Some(id), if activates then Activation else Reset, expires, false))
      case ConsumeReset(token, password, now) => ResetDone(s, token, password, now)
      case IssueEmailCheck(id, token, expires) =>
        WithChallenge(s, CloseOpen(s.challenges, id, false), token, Challenge(Some(id), EmailCheck, expires, false))
      case ConsumeEmailCheck(token, _, now) => EmailChecked(s, token, now)
      case IssueOAuthState(owner, provider, token, expires) =>
        WithChallenge(s, s.challenges, token, Challenge(owner, OAuthState(provider), expires, false))
      case ConsumeOAuthState(token, _, _) => Consumed(s, token)
      case ChangePassword(id, password, keep, now) =>
        WithAccount(s, id, s.accounts[id].(password := password))
          .(sessions := RevokeAll(s.sessions, id, Some(keep), now))
      case Purge(now) => Purged(s, now)
      case Suspend(id, now) =>
        WithAccount(s, id, s.accounts[id].(status := Suspended)).(sessions := RevokeAll(s.sessions, id, None, now))
      case Reinstate(id) => WithAccount(s, id, s.accounts[id].(status := Active))
      case ForceLogout(id, now) => s.(sessions := RevokeAll(s.sessions, id, None, now))
      case Erase(id, tombstone, now) => Erased(s, id, tombstone, now)
  }

  /** The state after a whole run. */
  ghost function Run(s: State, steps: seq<Step>): State
    decreases |steps|
  {
    if steps == [] then s else Run(Next(s, steps[0]), steps[1..])
  }

  /** FindActiveSession. */
  predicate Authenticates(s: State, token: Token, now: Time) {
    && token in s.sessions && s.sessions[token].revoked.None? && s.sessions[token].expires > now
    && HasStatus(s, s.sessions[token].account, Active)
  }

  /** The step redeems this token, and the redemption is accepted. */
  ghost predicate Accepts(s: State, step: Step, token: Token) {
    && (step.ConsumeReset? || step.ConsumeEmailCheck? || step.ConsumeOAuthState?)
    && step.token == token && Enabled(s, step)
  }
}
