/** What each transaction of the account machine means for logins, sessions, tokens and roles. */
module AccountEffects {
  import opened Wrappers
  import opened Accounts
  import opened AccountRuns
  import opened AccountTheorems

  // ---- getting in ------------------------------------------------------------

  /** Nobody logs in to an account that is only registered; one an administrator creates takes its password at once. */
  lemma NewAccounts(s: State, id: AccountId, password: string, attempt: string)
    requires id !in s.accounts
    ensures var s' := Next(s, Register(id, password));
      HasStatus(s', id, Pending) && !Enabled(s', CheckPassword(id, attempt)) && !Enabled(s', CheckOAuth(id))
      && s'.accounts[id].identity == Temporary && s'.accounts[id].emailVerified.None?
    ensures var s' := Next(s, CreateActive(id, password));
      (Enabled(s', CheckPassword(id, attempt)) <==> attempt == password)
      && s'.accounts[id].identity == Temporary && s'.accounts[id].emailVerified.None?
  {
  }

  /** The activation link makes the account an active student's, with the password it was given. */
  lemma ActivationEnters(s: State, step: Step, id: AccountId, attempt: string)
    requires Activates(s, step, id)
    ensures Enabled(Next(s, step), CheckPassword(id, attempt)) <==> attempt == step.password
    ensures Next(s, step).accounts[id].identity == Student
  {
  }

  /** A login that passes its check opens a session that lets its holder in until it expires. */
  lemma LoginEnters(s: State, check: Step, id: AccountId, token: Token, expires: Time, now: Time)
    requires Enabled(s, check) && token !in s.issued
    requires (check.CheckPassword? && check.id == id) || (check.CheckOAuth? && check.id == id)
    ensures var checked := Next(s, check);
      Enabled(checked, OpenSession(id, token, expires))
      && (Authenticates(Next(checked, OpenSession(id, token, expires)), token, now) <==> now < expires)
  {
  }

  // ---- leaving ---------------------------------------------------------------

  /** Logging out ends that session and no other; logging the others out keeps the one named. */
  lemma LogoutEnds(s: State, token: Token, id: AccountId, keep: Token, now: Time, other: Token, later: Time)
    ensures token in s.sessions ==>
      (Authenticates(Next(s, RevokeSession(token, now)), other, later)
       <==> Authenticates(s, other, later) && other != token)
    ensures HasSession(s, id) ==>
      (Authenticates(Next(s, RevokeOthers(id, keep, now)), other, later)
       <==> Authenticates(s, other, later) && (s.sessions[other].account == id ==> other == keep))
  {
    if token in s.sessions {
      assert Enabled(s, RevokeSession(token, now));
    }
  }

  /** A forced logout ends every session of the account and no other, and leaves its password valid. */
  lemma ForcedLogoutEnds(s: State, id: AccountId, now: Time, other: Token, later: Time, attempt: string)
    requires id in s.accounts
    ensures var s' := Next(s, ForceLogout(id, now));
      && (Authenticates(s', other, later) <==> Authenticates(s, other, later) && s.sessions[other].account != id)
      && (Enabled(s', CheckPassword(id, attempt)) <==> Enabled(s, CheckPassword(id, attempt)))
  {
  }

  // ---- suspension and erasure --------------------------------------------------

  /** No credential of the account passes and none of its sessions lets anybody in. */
  ghost predicate ShutOut(s: State, id: AccountId) {
    && (forall password :: !Enabled(s, CheckPassword(id, password))) && !Enabled(s, CheckOAuth(id))
    && forall token, now :: Authenticates(s, token, now) ==> s.sessions[token].account != id
  }

  ghost predicate Barred(s: State, id: AccountId) {
    HasStatus(s, id, Suspended) || HasStatus(s, id, Deleted)
  }

  /** An administrator's reinstatement of the account is accepted in the run. */
  ghost predicate Reinstated(s: State, steps: seq<Step>, id: AccountId)
    decreases |steps|
  {
    steps != []
    && ((steps[0] == Reinstate(id) && Enabled(s, steps[0])) || Reinstated(Next(s, steps[0]), steps[1..], id))
  }

  lemma StepKeepsBarred(s: State, step: Step, id: AccountId)
    requires Barred(s, id) && !(step == Reinstate(id) && Enabled(s, step))
    ensures Barred(Next(s, step), id)
  {
  }

  lemma {:induction false} BarredIsShutOut(s: State, steps: seq<Step>, id: AccountId)
    requires Barred(s, id) && !Reinstated(s, steps, id)
    ensures ShutOut(Run(s, steps), id)
    decreases |steps|
  {
    if steps != [] {
      StepKeepsBarred(s, steps[0], id);
      BarredIsShutOut(Next(s, steps[0]), steps[1..], id);
    }
  }

  /**
   From the suspension of an active account on, an administrator's excepted, in
   every run without an accepted reinstatement nobody gets in: not with the
   password or through a provider, not on an old session, and not on one
   inserted by a login admitted before.
   */
  lemma SuspendedIsShutOut(s: State, id: AccountId, now: Time, steps: seq<Step>)
    requires HasStatus(s, id, Active) && id !in s.admins && !Reinstated(Next(s, Suspend(id, now)), steps, id)
    ensures ShutOut(Run(Next(s, Suspend(id, now)), steps), id)
  {
    BarredIsShutOut(Next(s, Suspend(id, now)), steps, id);
  }

  /** A suspension takes nothing else from the account, and nothing from any other. */
  lemma SuspensionSparesOthers(s: State, id: AccountId, now: Time, other: Token, later: Time)
    requires HasStatus(s, id, Active) && id !in s.admins
    ensures var s' := Next(s, Suspend(id, now));
      && s'.accounts[id].password == s.accounts[id].password && s'.accounts[id].identity == s.accounts[id].identity
      && s'.accounts[id].emailVerified == s.accounts[id].emailVerified
      && (Authenticates(s', other, later) <==> Authenticates(s, other, later) && s.sessions[other].account != id)
  {
  }

  /**
   Reinstated, the account takes the password it had. Its sessions are the ones
   not revoked: those inserted meanwhile by logins admitted before the
   suspension, for it revoked all that existed.
   */
  lemma ReinstatedEnters(s: State, id: AccountId, attempt: string, token: Token, now: Time)
    requires HasStatus(s, id, Suspended)
    ensures var s' := Next(s, Reinstate(id));
      && (Enabled(s', CheckPassword(id, attempt)) <==> attempt == s.accounts[id].password)
      && Enabled(s', CheckOAuth(id))
      && (token in s.sessions && s.sessions[token].account == id ==>
            (Authenticates(s', token, now) <==> s.sessions[token].revoked.None? && now < s.sessions[token].expires))
  {
  }

  lemma SuspensionRevokes(s: State, id: AccountId, now: Time, token: Token, steps: seq<Step>, later: Time)
    requires Inv(s) && HasStatus(s, id, Active) && id !in s.admins
    requires token in s.sessions && s.sessions[token].account == id
    ensures !Authenticates(Run(Next(s, Suspend(id, now)), steps), token, later)
  {
    SessionsEndWithTheirAccount(s, Suspend(id, now), id, token, steps, later);
  }

  /** An administrator is suspended by nobody: only the erasure takes an active one's account away. */
  lemma AdministratorStaysActive(s: State, step: Step, id: AccountId)
    requires id in s.admins && HasStatus(s, id, Active) && !(step.Erase? && step.id == id)
    ensures id in Next(s, step).admins && HasStatus(Next(s, step), id, Active)
  {
  }

  /** An erased account is shut out in every run, holds no role, and keeps none of what it was. */
  lemma ErasedIsShutOut(s: State, id: AccountId, tombstone: string, now: Time, steps: seq<Step>)
    requires id in s.accounts
    ensures var s' := Next(s, Erase(id, tombstone, now));
      && s'.accounts[id].password == tombstone && s'.accounts[id].identity == Temporary
      && s'.accounts[id].emailVerified.None? && id !in s'.admins && id !in s'.moderators
      && ShutOut(Run(s', steps), id)
  {
    DeletedIsNeverReinstated(Next(s, Erase(id, tombstone, now)), steps, id);
    BarredIsShutOut(Next(s, Erase(id, tombstone, now)), steps, id);
  }

  lemma {:induction false} DeletedIsNeverReinstated(s: State, steps: seq<Step>, id: AccountId)
    requires HasStatus(s, id, Deleted)
    ensures !Reinstated(s, steps, id)
    decreases |steps|
  {
    if steps != [] {
      StepKeepsDeleted(s, steps[0], id);
      DeletedIsNeverReinstated(Next(s, steps[0]), steps[1..], id);
    }
  }

  // ---- tokens ------------------------------------------------------------------

  /** A new check supersedes every earlier one of its account, and is accepted until it expires. */
  lemma NewCheckReplacesOld(s: State, id: AccountId, token: Token, expires: Time, other: Token,
                            caller: Option<AccountId>, now: Time)
    requires id in s.accounts && token !in s.issued
    ensures var s' := Next(s, IssueEmailCheck(id, token, expires));
      && (Enabled(s', ConsumeEmailCheck(other, caller, now)) && s'.challenges[other].owner == Some(id) ==>
            other == token)
      && (Enabled(s', ConsumeEmailCheck(token, caller, now)) <==> now < expires && caller in {None, Some(id)})
  {
  }

  /** An accepted check dates the address of its active owner, once, and changes nothing else of any account. */
  lemma CheckVerifies(s: State, token: Token, caller: Option<AccountId>, now: Time, id: AccountId)
    requires Enabled(s, ConsumeEmailCheck(token, caller, now)) && id in s.accounts
    ensures var s' := Next(s, ConsumeEmailCheck(token, caller, now));
      s'.accounts.Keys == s.accounts.Keys
      && s'.accounts[id] ==
         if s.challenges[token].owner == Some(id) && HasStatus(s, id, Active) && s.accounts[id].emailVerified.None?
         then s.accounts[id].(emailVerified := Some(now)) else s.accounts[id]
  {
  }

  /** A verification time comes from an accepted check of the account and stays until the account is erased. */
  lemma VerifiedOnlyByCheck(s: State, step: Step, id: AccountId)
    requires id in s.accounts && id in Next(s, step).accounts
    requires Next(s, step).accounts[id].emailVerified != s.accounts[id].emailVerified
    ensures Enabled(s, step)
    ensures (step.Erase? && step.id == id)
      || (s.accounts[id].emailVerified.None? && step.ConsumeEmailCheck? && s.challenges[step.token].owner == Some(id)
          && Next(s, step).accounts[id].emailVerified == Some(step.now))
  {
  }

  /** A provider's answer is accepted for the state it was started with, from that provider, until the state expires. */
  lemma NewStateIsForItsProvider(s: State, owner: Option<AccountId>, provider: string, token: Token, expires: Time,
                                 from: string, now: Time)
    requires token !in s.issued
    requires owner.Some? ==>
      owner.value in s.accounts && exists t :: t in s.sessions && s.sessions[t].account == owner.value
    ensures var s' := Next(s, IssueOAuthState(owner, provider, token, expires));
      Enabled(s', ConsumeOAuthState(token, from, now)) <==> from == provider && now < expires
  {
  }

  // ---- roles and the purge --------------------------------------------------------

  /**
   Roles, and rows of other tables, are given and taken as asked, to and from
   nobody else; administrators are past their activation.
   */
  lemma RolesAreAsAsked(s: State, id: AccountId, grant: bool, other: AccountId)
    ensures id in s.accounts ==>
      (other in Next(s, SetModerator(id, grant)).moderators <==> if other == id then grant else other in s.moderators)
    ensures id in s.accounts ==>
      (other in Next(s, SetAttached(id, grant)).attached <==> if other == id then grant else other in s.attached)
    ensures other in Next(s, GrantAdmin(id)).admins
      <==> other in s.admins || (other == id && id in s.accounts && s.accounts[id].status != Pending)
  {
    if id in s.accounts {
      assert Enabled(s, SetModerator(id, grant)) && Enabled(s, SetAttached(id, grant));
    }
  }

  /** A committed purge removes exactly the pending accounts whose activation link lies open past its expiry. */
  lemma PurgeRemovesExactly(s: State, now: Time, id: AccountId)
    requires Enabled(s, Purge(now))
    ensures id in Next(s, Purge(now)).accounts <==>
      && id in s.accounts
      && !(s.accounts[id].status == Pending
           && exists t :: t in s.challenges && s.challenges[t].purpose == Activation && !s.challenges[t].consumed
                          && s.challenges[t].owner == Some(id) && s.challenges[t].expires < now)
    ensures id in Next(s, Purge(now)).accounts ==> Next(s, Purge(now)).accounts[id] == s.accounts[id]
  {
    if id in Expired(s, now) {
      var t :| t in s.challenges && s.challenges[t].purpose.Activation? && !s.challenges[t].consumed
        && s.challenges[t].expires < now && s.challenges[t].owner == Some(id);
      assert s.challenges[t].purpose == Activation;
    }
  }

  // ---- everybody else ------------------------------------------------------------

  /** The account the step is about, if it is about one. */
  ghost predicate Concerns(s: State, step: Step, id: AccountId) {
    match step
    case ConsumeReset(token, _, _) => token in s.challenges && s.challenges[token].owner == Some(id)
    case ConsumeEmailCheck(token, _, _) => token in s.challenges && s.challenges[token].owner == Some(id)
    case RevokeSession(token, _) => token in s.sessions && s.sessions[token].account == id
    case IssueOAuthState(_, _, _, _) => false
    case ConsumeOAuthState(_, _, _) => false
    case Purge(_) => HasStatus(s, id, Pending)
    case _ => step.id == id
  }

  lemma OtherRowsAreSpared(s: State, step: Step, id: AccountId)
    requires id in s.accounts && !Concerns(s, step, id)
    ensures id in Next(s, step).accounts && Next(s, step).accounts[id] == s.accounts[id]
  {
  }

  lemma OtherRolesAreSpared(s: State, step: Step, id: AccountId)
    requires id in s.accounts && !Concerns(s, step, id)
    ensures id in Next(s, step).admins <==> id in s.admins
    ensures id in Next(s, step).moderators <==> id in s.moderators
  {
  }

  lemma OtherSessionsAreSpared(s: State, step: Step, token: Token)
    requires Inv(s) && token in s.sessions && !Concerns(s, step, s.sessions[token].account)
    ensures token in Next(s, step).sessions && Next(s, step).sessions[token] == s.sessions[token]
  {
  }

  /** No step changes the row, the roles or the sessions of an account it is not about. */
  lemma OthersAreSpared(s: State, step: Step, id: AccountId)
    requires Inv(s) && id in s.accounts && !Concerns(s, step, id)
    ensures var s' := Next(s, step);
      && id in s'.accounts && s'.accounts[id] == s.accounts[id]
      && (id in s'.admins <==> id in s.admins) && (id in s'.moderators <==> id in s.moderators)
      && forall token :: token in s.sessions && s.sessions[token].account == id ==>
           token in s'.sessions && s'.sessions[token] == s.sessions[token]
  {
    OtherRowsAreSpared(s, step, id);
    OtherRolesAreSpared(s, step, id);
    forall token | token in s.sessions && s.sessions[token].account == id
      ensures token in Next(s, step).sessions && Next(s, step).sessions[token] == s.sessions[token]
    {
      OtherSessionsAreSpared(s, step, token);
    }
  }
}
