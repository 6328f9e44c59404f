/** The promises the account machine makes over whole runs. */
module AccountTheorems {
  import opened Wrappers
  import opened Accounts
  import opened AccountRuns

  // ---- sessions -----------------------------------------------------------

  /** A revoked session never authenticates again, whatever happens next, including reinstatement. */
  lemma RevokedForever(s: State, token: Token, steps: seq<Step>, now: Time)
    requires Inv(s) && token in s.sessions && s.sessions[token].revoked.Some?
    ensures !Authenticates(Run(s, steps), token, now)
  {
    RunKeepsInv(s, steps);
  }

  /** The account whose every session the step ends. */
  ghost predicate Cuts(s: State, step: Step, id: AccountId) {
    && Enabled(s, step)
    && match step
       case Suspend(a, _) => a == id
       case Erase(a, _, _) => a == id
       case ForceLogout(a, _) => a == id
       case ConsumeReset(token, _, _) => s.challenges[token].owner == Some(id)
       case _ => false
  }

  /**
   No session that existed when its account was suspended, erased, force-logged-out or
   password-reset authenticates later.
   */
  lemma SessionsEndWithTheirAccount(s: State, step: Step, id: AccountId, token: Token, steps: seq<Step>, now: Time)
    requires Inv(s) && Cuts(s, step, id)
    requires token in s.sessions && s.sessions[token].account == id
    ensures !Authenticates(Run(Next(s, step), steps), token, now)
  {
    StepKeepsInv(s, step);
    assert Next(s, step).sessions[token].revoked.Some?;
    RevokedForever(Next(s, step), token, steps, now);
  }

  /** A self-service change keeps the caller's session and no other of the account, and touches no other account's. */
  lemma ChangeKeepsOnlyCaller(s: State, id: AccountId, password: string, keep: Token, token: Token, now: Time,
                              later: Time)
    requires Inv(s) && HasStatus(s, id, Active)
    ensures var s' := Next(s, ChangePassword(id, password, keep, now));
      Authenticates(s', token, later) <==>
        Authenticates(s, token, later) && (s.sessions[token].account == id ==> token == keep)
  {
    var s' := Next(s, ChangePassword(id, password, keep, now));
    assert s'.sessions == RevokeAll(s.sessions, id, Some(keep), now);
    assert s'.sessions.Keys == s.sessions.Keys;
  }

  // ---- a login caught between its check and its insert ---------------------

  ghost predicate NoCheck(steps: seq<Step>, id: AccountId) {
    forall step :: step in steps ==>
      !(step.CheckPassword? && step.id == id) && !(step.CheckOAuth? && step.id == id)
  }

  ghost predicate NoLiveSession(s: State, id: AccountId) {
    && id !in s.admitted
    && forall t :: t in s.sessions && s.sessions[t].account == id ==> s.sessions[t].revoked.Some?
  }

  lemma SessionOrigin(s: State, step: Step, t: Token)
    requires t in Next(s, step).sessions && t !in s.sessions
    ensures Next(s, step).sessions[t].account in s.admitted
  {
  }

  lemma StepAdmitsNobody(s: State, step: Step, id: AccountId)
    requires id !in s.admitted && !(step.CheckPassword? && step.id == id) && !(step.CheckOAuth? && step.id == id)
    ensures id !in Next(s, step).admitted
  {
  }

  lemma StepOpensNoSession(s: State, step: Step, id: AccountId)
    requires Inv(s) && NoLiveSession(s, id)
    requires !(step.CheckPassword? && step.id == id) && !(step.CheckOAuth? && step.id == id)
    ensures NoLiveSession(Next(s, step), id)
  {
    var s' := Next(s, step);
    StepAdmitsNobody(s, step, id);
    forall t | t in s'.sessions && s'.sessions[t].account == id
      ensures s'.sessions[t].revoked.Some?
    {
      if t in s.sessions {
        StepKeepsSession(s, step, t);
      } else {
        SessionOrigin(s, step, t);
      }
    }
  }

  lemma {:induction false} RunOpensNoSession(s: State, steps: seq<Step>, id: AccountId)
    requires Inv(s) && NoLiveSession(s, id) && NoCheck(steps, id)
    ensures NoLiveSession(Run(s, steps), id)
    decreases |steps|
  {
    if steps != [] {
      assert steps[0] in steps;
      StepOpensNoSession(s, steps[0], id);
      StepKeepsInv(s, steps[0]);
      RunOpensNoSession(Next(s, steps[0]), steps[1..], id);
    }
  }

  lemma {:induction false} FreshToken(issued: set<Token>) returns (token: Token)
    ensures forall t :: t in issued ==> t < token
    decreases |issued|
  {
    token := 0;
    if t :| t in issued {
      var rest := FreshToken(issued - {t});
      token := if t < rest then rest else t + 1;
      assert forall u :: u in issued ==> u == t || u in issued - {t};
    }
  }

  /** Some later state, reached without checking any credential of the account again, lets one of its sessions in. */
  ghost predicate LateSession(s: State, id: AccountId) {
    exists steps: seq<Step>, token: Token, now: Time ::
      NoCheck(steps, id) && Authenticates(Run(s, steps), token, now) && Run(s, steps).sessions[token].account == id
  }

  /** A login that has passed its check can still insert its session, and use it while the account is active. */
  lemma AdmittedCanEnter(s: State, id: AccountId)
    requires id in s.admitted && HasStatus(s, id, Active)
    ensures LateSession(s, id)
  {
    var unused := FreshToken(s.issued);
    var open := OpenSession(id, unused, 1);
    assert [open][1..] == [];
    assert Run(s, [open]) == Next(s, open);
    assert NoCheck([open], id) && Authenticates(Next(s, open), unused, 0);
  }

  lemma NobodyEnters(s: State, id: AccountId)
    requires Inv(s) && NoLiveSession(s, id)
    ensures !LateSession(s, id)
  {
    forall steps: seq<Step>, t: Token, later: Time | NoCheck(steps, id) && Authenticates(Run(s, steps), t, later)
      ensures Run(s, steps).sessions[t].account != id
    {
      RunOpensNoSession(s, steps, id);
    }
  }

  lemma ResetEndsSessions(s: State, token: Token, password: string, now: Time, id: AccountId)
    requires Enabled(s, ConsumeReset(token, password, now)) && s.challenges[token].owner == Some(id)
    ensures var s' := Next(s, ConsumeReset(token, password, now));
      HasStatus(s', id, Active) && s'.admitted == s.admitted
      && forall t :: t in s'.sessions && s'.sessions[t].account == id ==> s'.sessions[t].revoked.Some?
  {
  }

  /**
   A password reset ends the sessions there are, not the logins under way: an
   account can be entered afterwards without proving the new password exactly
   when a login had passed its check and not yet inserted its session.
   */
  lemma ResetLeavesAdmittedLogins(s: State, token: Token, password: string, now: Time, id: AccountId)
    requires Inv(s) && Enabled(s, ConsumeReset(token, password, now)) && s.challenges[token].owner == Some(id)
    ensures LateSession(Next(s, ConsumeReset(token, password, now)), id) <==> id in s.admitted
  {
    var s' := Next(s, ConsumeReset(token, password, now));
    StepKeepsInv(s, ConsumeReset(token, password, now));
    ResetEndsSessions(s, token, password, now, id);
    if id in s.admitted {
      AdmittedCanEnter(s', id);
    } else {
      NobodyEnters(s', id);
    }
  }

  // ---- one-time tokens ----------------------------------------------------

  lemma AcceptedIsSpent(s: State, step: Step, token: Token)
    requires Inv(s) && Accepts(s, step, token)
    ensures s.challenges[token].expires > step.now && !Spent(s, token) && Spent(Next(s, step), token)
  {
  }

  /** In any run from the empty tables a token of any kind is accepted at most once. */
  lemma TokenAcceptedOnce(steps: seq<Step>, i: nat, j: nat, token: Token)
    requires i < j < |steps| && Accepts(Run(EMPTY, steps[..i]), steps[i], token)
    ensures !Accepts(Run(EMPTY, steps[..j]), steps[j], token)
  {
    RunReaches(steps, i);
    RunReaches(steps, j);
    AcceptedIsSpent(Run(EMPTY, steps[..i]), steps[i], token);
    var s := Run(EMPTY, steps[..i + 1]);
    StepKeepsInv(Run(EMPTY, steps[..i]), steps[i]);
    RunSplits(EMPTY, steps[..j], i + 1);
    assert steps[..j][..i + 1] == steps[..i + 1];
    RunKeepsInv(s, steps[..j][i + 1..]);
    if Accepts(Run(EMPTY, steps[..j]), steps[j], token) {
      AcceptedIsSpent(Run(EMPTY, steps[..j]), steps[j], token);
    }
  }

  // ---- pending and deleted accounts ---------------------------------------

  ghost predicate ErasedIn(steps: seq<Step>, id: AccountId) {
    exists step :: step in steps && step.Erase? && step.id == id
  }

  /**
   Nothing brings a deleted account back or lets anybody in under it, and its
   row changes only by an erasure that was under way beside the first.
   */
  lemma {:induction false} DeletedForever(s: State, id: AccountId, steps: seq<Step>)
    requires Inv(s) && HasStatus(s, id, Deleted)
    ensures HasStatus(Run(s, steps), id, Deleted)
    ensures !ErasedIn(steps, id) ==> Run(s, steps).accounts[id] == s.accounts[id]
    ensures forall password :: !Enabled(Run(s, steps), CheckPassword(id, password))
    ensures forall token, now :: Authenticates(Run(s, steps), token, now) ==>
      Run(s, steps).sessions[token].account != id
    decreases |steps|
  {
    if steps != [] {
      assert steps[0] in steps && forall step :: step in steps[1..] ==> step in steps;
      StepKeepsInv(s, steps[0]);
      StepKeepsDeleted(s, steps[0], id);
      DeletedForever(Next(s, steps[0]), id, steps[1..]);
    }
  }

  /** The step consumes the activating token of this account. */
  ghost predicate Activates(s: State, step: Step, id: AccountId) {
    step.ConsumeReset? && Enabled(s, step)
    && s.challenges[step.token].purpose.Activation? && s.challenges[step.token].owner == Some(id)
  }

  /** Consuming the account's activating token is the only step from pending to active. */
  lemma OnlyActivationActivates(s: State, step: Step, id: AccountId)
    requires Inv(s) && HasStatus(s, id, Pending)
    ensures HasStatus(Next(s, step), id, Active) <==> Activates(s, step, id)
  {
  }

  /** The step sets this account's password: an accepted reset or activation, a change, or the erasure. */
  ghost predicate SetsPassword(s: State, step: Step, id: AccountId) {
    && Enabled(s, step)
    && match step
       case ConsumeReset(token, _, _) => s.challenges[token].owner == Some(id)
       case ChangePassword(a, _, _, _) => a == id
       case Erase(a, _, _) => a == id
       case _ => false
  }

  lemma StepLeavesPending(s: State, step: Step, id: AccountId)
    requires HasStatus(s, id, Pending) && id in Next(s, step).accounts && !Activates(s, step, id)
    ensures Next(s, step).accounts[id].status == Pending || Next(s, step).accounts[id].status == Deleted
  {
  }

  lemma StepLeavesPassword(s: State, step: Step, id: AccountId)
    requires id in s.accounts && id in Next(s, step).accounts && !SetsPassword(s, step, id)
    ensures Next(s, step).accounts[id].password == s.accounts[id].password
  {
  }

  /** At some moment of the run the account's own link is consumed, or the account is not in the table. */
  ghost predicate ActivatedOrGone(s: State, steps: seq<Step>, id: AccountId)
    decreases |steps|
  {
    steps != [] && (Activates(s, steps[0], id) || id !in Next(s, steps[0]).accounts
                    || ActivatedOrGone(Next(s, steps[0]), steps[1..], id))
  }

  ghost predicate PasswordSetOrGone(s: State, steps: seq<Step>, id: AccountId)
    decreases |steps|
  {
    steps != [] && (SetsPassword(s, steps[0], id) || id !in Next(s, steps[0]).accounts
                    || PasswordSetOrGone(Next(s, steps[0]), steps[1..], id))
  }

  /**
   In every run, a pending account found active later has had its activating
   link consumed in between, unless it was purged and its id used anew.
   */
  lemma {:induction false} ActiveOnlyThroughItsLink(s: State, steps: seq<Step>, id: AccountId)
    requires Inv(s) && HasStatus(s, id, Pending) && HasStatus(Run(s, steps), id, Active)
    ensures ActivatedOrGone(s, steps, id)
    decreases |steps|
  {
    if !Activates(s, steps[0], id) && id in Next(s, steps[0]).accounts {
      StepLeavesPending(s, steps[0], id);
      StepKeepsInv(s, steps[0]);
      if HasStatus(Next(s, steps[0]), id, Deleted) {
        DeletedForever(Next(s, steps[0]), id, steps[1..]);
      } else {
        ActiveOnlyThroughItsLink(Next(s, steps[0]), steps[1..], id);
      }
    }
  }

  /** In every run, the password that admits a login is the one the account had, unless a step in between set it. */
  lemma {:induction false} OldPasswordFailsOnlyIfSet(s: State, steps: seq<Step>, id: AccountId, password: string)
    requires Inv(s) && id in s.accounts && Enabled(Run(s, steps), CheckPassword(id, password))
    ensures password == s.accounts[id].password || PasswordSetOrGone(s, steps, id)
    decreases |steps|
  {
    if steps != [] && !SetsPassword(s, steps[0], id) && id in Next(s, steps[0]).accounts {
      StepLeavesPassword(s, steps[0], id);
      StepKeepsInv(s, steps[0]);
      OldPasswordFailsOnlyIfSet(Next(s, steps[0]), steps[1..], id, password);
    }
  }

  /** At the moment of a purge, no activation link of a purged account could still be used. */
  lemma PurgeSparesUsableLinks(s: State, now: Time, id: AccountId, token: Token, password: string)
    requires Inv(s) && id in Expired(s, now) && token in s.challenges && s.challenges[token].owner == Some(id)
    ensures !Enabled(s, ConsumeReset(token, password, now))
  {
    var t :| t in s.challenges && s.challenges[t].purpose.Activation? && !s.challenges[t].consumed
      && s.challenges[t].expires < now && s.challenges[t].owner == Some(id);
    assert OpenReset(s, t, id);
    if Enabled(s, ConsumeReset(token, password, now)) {
      assert OpenReset(s, token, id);
    }
  }

  ghost predicate AwaitsEmailCheck(s: State, id: AccountId) {
    exists t :: t in s.challenges && s.challenges[t].purpose.EmailCheck? && s.challenges[t].owner == Some(id)
  }

  lemma OnlyStrayRowsRefer(s: State, id: AccountId)
    requires Inv(s) && HasStatus(s, id, Pending)
    ensures References(s, id) <==> id in s.moderators || id in s.attached || AwaitsEmailCheck(s, id)
  {
    assert !Settled(s, id);
    if t :| t in s.challenges && s.challenges[t].purpose.EmailCheck? && s.challenges[t].owner == Some(id) {
      assert OwnsCheck(s, t, id);
    }
    if t :| OwnsCheck(s, t, id) {
      assert s.challenges[t].purpose.OAuthState? ==> OwnsOAuthState(s, t, id);
    }
  }

  /**
   A purge commits exactly when no account it selects holds the moderator role,
   has an email-verification row, or is referred to from a table not modelled
   here: an administrator can give a pending account either of the first two,
   and all these rows forbid deleting it.
   */
  lemma PurgeCommitsExactlyWhen(s: State, now: Time)
    requires Inv(s)
    ensures Enabled(s, Purge(now)) <==>
      forall id :: id in Expired(s, now) ==> id !in s.moderators && id !in s.attached && !AwaitsEmailCheck(s, id)
  {
    forall id | id in Expired(s, now)
      ensures References(s, id) <==> id in s.moderators || id in s.attached || AwaitsEmailCheck(s, id)
    {
      OnlyStrayRowsRefer(s, id);
    }
  }

  lemma StaysExpired(s: State, s': State, id: AccountId, now: Time)
    requires id in Expired(s, now) && s'.accounts == s.accounts
    requires forall t :: t in s.challenges && s.challenges[t].purpose.Activation? ==>
      t in s'.challenges && s'.challenges[t] == s.challenges[t]
    ensures id in Expired(s', now)
  {
  }

  /** The role, given to one expired account, keeps every expired account in the table. */
  lemma ModeratorStallsPurge(s: State, id: AccountId, now: Time)
    requires Inv(s) && id in Expired(s, now)
    ensures var s' := Next(s, SetModerator(id, true)); Next(s', Purge(now)) == s'
  {
    StaysExpired(s, Next(s, SetModerator(id, true)), id, now);
  }

  /** So does a verification mail sent to it. */
  lemma EmailCheckStallsPurge(s: State, id: AccountId, token: Token, expires: Time, now: Time)
    requires Inv(s) && id in Expired(s, now) && token !in s.issued
    ensures var s' := Next(s, IssueEmailCheck(id, token, expires)); Next(s', Purge(now)) == s'
  {
    var s' := Next(s, IssueEmailCheck(id, token, expires));
    StaysExpired(s, s', id, now);
    assert OwnsCheck(s', token, id);
  }

  /**
   An account a purge removes was never active, suspended or deleted, and
   never had a session, at any earlier moment of the run.
   */
  lemma PurgedWasNeverUsed(steps: seq<Step>, j: nat, i: nat, id: AccountId)
    requires i <= j < |steps| && steps[j].Purge?
    requires id in Run(EMPTY, steps[..j]).accounts && id !in Run(EMPTY, steps[..j + 1]).accounts
    ensures !Settled(Run(EMPTY, steps[..i]), id) && !HasSession(Run(EMPTY, steps[..i]), id)
  {
    RunReaches(steps, j);
    EmptyIsInv();
    RunKeepsInv(EMPTY, steps[..i]);
    RunSplits(EMPTY, steps[..j], i);
    assert steps[..j][..i] == steps[..i];
    RunKeepsInv(Run(EMPTY, steps[..i]), steps[..j][i..]);
  }

  // ---- links and passwords ---------------------------------------------------------

  /** A new link supersedes every earlier one of its account, and works until it expires if the account fits it. */
  lemma NewLinkReplacesOld(s: State, id: AccountId, token: Token, expires: Time, activates: bool,
                         other: Token, password: string, now: Time)
    requires Inv(s) && Enabled(s, IssueReset(id, token, expires, activates))
    ensures var s' := Next(s, IssueReset(id, token, expires, activates));
      && (Enabled(s', ConsumeReset(other, password, now)) && s'.challenges[other].owner == Some(id) ==> other == token)
      && (Enabled(s', ConsumeReset(token, password, now)) <==>
            now < expires && HasStatus(s, id, if activates then Pending else Active))
  {
  }

  /** After a reset or a change, the new password and no other passes the credential check. */
  lemma NewPasswordAlone(s: State, step: Step, id: AccountId, password: string)
    requires Enabled(s, step)
    requires (step.ConsumeReset? && s.challenges[step.token].owner == Some(id))
             || (step.ChangePassword? && step.id == id)
    ensures Enabled(Next(s, step), CheckPassword(id, password)) <==> password == step.password
  {
  }

  /** No token an account had when it was erased is ever accepted afterwards. */
  lemma ErasureVoidsTokens(s: State, id: AccountId, tombstone: string, now: Time, token: Token, steps: seq<Step>,
                           i: nat)
    requires Inv(s) && Enabled(s, Erase(id, tombstone, now)) && i < |steps|
    requires token in s.challenges && s.challenges[token].owner == Some(id)
    ensures !Accepts(Run(Next(s, Erase(id, tombstone, now)), steps[..i]), steps[i], token)
  {
    var s' := Next(s, Erase(id, tombstone, now));
    StepKeepsInv(s, Erase(id, tombstone, now));
    assert Spent(s', token);
    RunKeepsInv(s', steps[..i]);
    var e := Run(s', steps[..i]);
    if Accepts(e, steps[i], token) {
      AcceptedIsSpent(e, steps[i], token);
    }
  }
}
