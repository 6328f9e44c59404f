/** What every run of the account machine keeps. */
module AccountRuns {
  import opened Wrappers
  import opened Accounts

  // ---- the invariant ------------------------------------------------------

  ghost predicate Settled(s: State, id: AccountId) {
    id in s.accounts && s.accounts[id].status != Pending
  }

  ghost predicate OpenReset(s: State, token: Token, id: AccountId) {
    token in s.challenges && s.challenges[token].IsReset() && !s.challenges[token].consumed
      && s.challenges[token].owner == Some(id)
  }

  ghost predicate OneOpenReset(s: State) {
    forall t, u, id :: OpenReset(s, t, id) && OpenReset(s, u, id) ==> t == u
  }

  /** An OAuth flow that binds a provider to the account of a signed-in caller. */
  ghost predicate OwnsOAuthState(s: State, token: Token, id: AccountId) {
    token in s.challenges && s.challenges[token].purpose.OAuthState? && s.challenges[token].owner == Some(id)
  }

  /** What only an account past its activation can have. */
  ghost predicate SessionsSettled(s: State) {
    && (forall t :: t in s.sessions ==> Settled(s, s.sessions[t].account))
    && (forall id :: id in s.admitted ==> Settled(s, id))
    && (forall id :: id in s.admins ==> Settled(s, id))
    && (forall t, id :: OwnsOAuthState(s, t, id) ==> Settled(s, id))
  }

  ghost predicate TokensIssued(s: State) {
    && (forall t :: t in s.sessions ==> t in s.issued)
    && (forall t :: t in s.challenges ==> t in s.issued)
  }

  ghost predicate Inv(s: State) {
    OneOpenReset(s) && SessionsSettled(s) && TokensIssued(s)
  }

  /** An open reset of an account is the one just issued, if one was, and otherwise was open before. */
  lemma OpenResetOrigin(s: State, step: Step, t: Token, id: AccountId)
    requires OpenReset(Next(s, step), t, id)
    ensures if step.IssueReset? && step.id == id && Enabled(s, step) then t == step.token else OpenReset(s, t, id)
  {
  }

  lemma StepKeepsOneOpenReset(s: State, step: Step)
    requires Inv(s)
    ensures OneOpenReset(Next(s, step))
  {
    var s' := Next(s, step);
    forall t, u, id | OpenReset(s', t, id) && OpenReset(s', u, id)
      ensures t == u
    {
      OpenResetOrigin(s, step, t, id);
      OpenResetOrigin(s, step, u, id);
    }
  }

  lemma StepKeepsSettled(s: State, step: Step, id: AccountId)
    requires Settled(s, id)
    ensures Settled(Next(s, step), id)
  {
  }

  /** No step removes a session row, moves it to another account, or un-revokes it. */
  lemma StepKeepsSession(s: State, step: Step, t: Token)
    requires TokensIssued(s) && t in s.sessions
    ensures t in Next(s, step).sessions
    ensures Next(s, step).sessions[t].account == s.sessions[t].account
    ensures s.sessions[t].revoked.Some? ==> Next(s, step).sessions[t] == s.sessions[t]
  {
  }

  lemma StepKeepsSessionOwners(s: State, step: Step, t: Token)
    requires Inv(s) && t in Next(s, step).sessions
    ensures Settled(Next(s, step), Next(s, step).sessions[t].account)
  {
    if t in s.sessions {
      StepKeepsSession(s, step, t);
      StepKeepsSettled(s, step, s.sessions[t].account);
    } else {
      assert step.OpenSession? && step.token == t;
    }
  }

  lemma AdmittedOrigin(s: State, step: Step, id: AccountId)
    requires id in Next(s, step).admitted
    ensures id in s.admitted || HasStatus(s, id, Active)
  {
  }

  lemma StepKeepsAdmitted(s: State, step: Step, id: AccountId)
    requires Inv(s) && id in Next(s, step).admitted
    ensures Settled(Next(s, step), id)
  {
    AdmittedOrigin(s, step, id);
    StepKeepsSettled(s, step, id);
  }

  lemma AdminOrigin(s: State, step: Step, id: AccountId)
    requires id in Next(s, step).admins
    ensures id in s.admins || Settled(s, id)
  {
  }

  lemma StepKeepsAdmins(s: State, step: Step, id: AccountId)
    requires Inv(s) && id in Next(s, step).admins
    ensures Settled(Next(s, step), id)
  {
    AdminOrigin(s, step, id);
    StepKeepsSettled(s, step, id);
  }

  lemma OAuthStateOrigin(s: State, step: Step, t: Token, id: AccountId)
    requires OwnsOAuthState(Next(s, step), t, id)
    ensures OwnsOAuthState(s, t, id) || HasSession(s, id)
  {
  }

  lemma StepKeepsOAuthStates(s: State, step: Step, t: Token, id: AccountId)
    requires Inv(s) && OwnsOAuthState(Next(s, step), t, id)
    ensures Settled(Next(s, step), id)
  {
    OAuthStateOrigin(s, step, t, id);
    assert Settled(s, id);
    StepKeepsSettled(s, step, id);
  }

  lemma StepKeepsSessionsSettled(s: State, step: Step)
    requires Inv(s)
    ensures SessionsSettled(Next(s, step))
  {
    var s' := Next(s, step);
    forall t | t in s'.sessions ensures Settled(s', s'.sessions[t].account) {
      StepKeepsSessionOwners(s, step, t);
    }
    forall id | id in s'.admitted ensures Settled(s', id) {
      StepKeepsAdmitted(s, step, id);
    }
    forall id | id in s'.admins ensures Settled(s', id) {
      StepKeepsAdmins(s, step, id);
    }
    forall t, id | OwnsOAuthState(s', t, id) ensures Settled(s', id) {
      StepKeepsOAuthStates(s, step, t, id);
    }
  }

  lemma StepKeepsSessionIssued(s: State, step: Step, t: Token)
    requires TokensIssued(s) && t in Next(s, step).sessions
    ensures t in Next(s, step).issued
  {
  }

  lemma StepKeepsChallengeIssued(s: State, step: Step, t: Token)
    requires TokensIssued(s) && t in Next(s, step).challenges
    ensures t in Next(s, step).issued
  {
  }

  lemma StepKeepsTokensIssued(s: State, step: Step)
    requires Inv(s)
    ensures TokensIssued(Next(s, step))
  {
    forall t | t in Next(s, step).sessions ensures t in Next(s, step).issued {
      StepKeepsSessionIssued(s, step, t);
    }
    forall t | t in Next(s, step).challenges ensures t in Next(s, step).issued {
      StepKeepsChallengeIssued(s, step, t);
    }
  }

  lemma StepKeepsInv(s: State, step: Step)
    requires Inv(s)
    ensures Inv(Next(s, step))
  {
    StepKeepsOneOpenReset(s, step);
    StepKeepsSessionsSettled(s, step);
    StepKeepsTokensIssued(s, step);
  }

  // ---- what only ever moves one way ---------------------------------------

  /** The token was created once and can no longer be redeemed. */
  ghost predicate Spent(s: State, token: Token) {
    token in s.issued && (token in s.challenges ==> s.challenges[token].consumed)
  }

  ghost predicate SessionsOneWay(s: State, s': State) {
    forall t :: t in s.sessions ==>
      t in s'.sessions && s'.sessions[t].account == s.sessions[t].account
      && (s.sessions[t].revoked.Some? ==> s'.sessions[t] == s.sessions[t])
  }

  ghost predicate AccountsOneWay(s: State, s': State) {
    && (forall id :: Settled(s, id) ==> Settled(s', id))
    && (forall id :: HasStatus(s, id, Deleted) ==> HasStatus(s', id, Deleted))
  }

  ghost predicate TokensOneWay(s: State, s': State) {
    && s.issued <= s'.issued
    && (forall t :: Spent(s, t) ==> Spent(s', t))
    && (forall t :: t in s.issued && t !in s.sessions ==> t !in s'.sessions)
  }

  ghost predicate OneWay(s: State, s': State) {
    SessionsOneWay(s, s') && AccountsOneWay(s, s') && TokensOneWay(s, s')
  }

  lemma StepKeepsSpent(s: State, step: Step, t: Token)
    requires Spent(s, t)
    ensures Spent(Next(s, step), t)
  {
  }

  lemma StepKeepsDeleted(s: State, step: Step, id: AccountId)
    requires HasStatus(s, id, Deleted)
    ensures HasStatus(Next(s, step), id, Deleted)
    ensures !(step.Erase? && step.id == id) ==> Next(s, step).accounts[id] == s.accounts[id]
  {
  }

  lemma StepKeepsIssued(s: State, step: Step, t: Token)
    requires t in s.issued && t !in s.sessions
    ensures t in Next(s, step).issued && t !in Next(s, step).sessions
  {
  }

  lemma StepIsOneWay(s: State, step: Step)
    requires Inv(s)
    ensures OneWay(s, Next(s, step))
  {
    forall t | t in s.sessions ensures t in Next(s, step).issued {
      StepKeepsSession(s, step, t);
      StepKeepsTokensIssued(s, step);
    }
    forall t | t in s.sessions
      ensures t in Next(s, step).sessions && Next(s, step).sessions[t].account == s.sessions[t].account
        && (s.sessions[t].revoked.Some? ==> Next(s, step).sessions[t] == s.sessions[t])
    {
      StepKeepsSession(s, step, t);
    }
    forall id | Settled(s, id) ensures Settled(Next(s, step), id) {
      StepKeepsSettled(s, step, id);
    }
    forall id | HasStatus(s, id, Deleted) ensures HasStatus(Next(s, step), id, Deleted) {
      StepKeepsDeleted(s, step, id);
    }
    forall t | Spent(s, t) ensures Spent(Next(s, step), t) {
      StepKeepsSpent(s, step, t);
    }
    forall t | t in s.issued && t !in s.sessions ensures t in Next(s, step).issued && t !in Next(s, step).sessions {
      StepKeepsIssued(s, step, t);
    }
  }

  /** Every run keeps the invariant and moves one way only. */
  lemma {:induction false} RunKeepsInv(s: State, steps: seq<Step>)
    requires Inv(s)
    ensures Inv(Run(s, steps)) && OneWay(s, Run(s, steps))
    decreases |steps|
  {
    if steps != [] {
      var s' := Next(s, steps[0]);
      StepKeepsInv(s, steps[0]);
      StepIsOneWay(s, steps[0]);
      RunKeepsInv(s', steps[1..]);
    }
  }

  lemma EmptyIsInv()
    ensures Inv(EMPTY)
  {
  }

  /** A run can be cut anywhere. */
  lemma {:induction false} RunSplits(s: State, steps: seq<Step>, i: nat)
    requires i <= |steps|
    ensures Run(s, steps) == Run(Run(s, steps[..i]), steps[i..])
    decreases i
  {
    if i == 0 {
      assert steps[..0] == [] && steps[0..] == steps;
    } else {
      RunSplits(Next(s, steps[0]), steps[1..], i - 1);
      assert steps[..i][1..] == steps[1..][..i - 1] && steps[1..][i - 1..] == steps[i..];
    }
  }

  lemma RunReaches(steps: seq<Step>, i: nat)
    requires i < |steps|
    ensures Inv(Run(EMPTY, steps[..i])) && Run(EMPTY, steps[..i + 1]) == Next(Run(EMPTY, steps[..i]), steps[i])
  {
    EmptyIsInv();
    RunKeepsInv(EMPTY, steps[..i]);
    RunSplits(EMPTY, steps[..i + 1], i);
    assert steps[..i + 1][..i] == steps[..i] && steps[..i + 1][i..] == [steps[i]];
    assert Run(Run(EMPTY, steps[..i]), [steps[i]]) == Next(Run(EMPTY, steps[..i]), steps[i]) by {
      assert [steps[i]][1..] == [];
    }
  }
}
