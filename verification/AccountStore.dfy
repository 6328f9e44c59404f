/**
 The store methods of `auth/postgres_store.go`, the admin transactions of
 `admin/users.go` and `eraseAccount`, statement by statement over the tables.
 Each is one step of the account machine; a transaction that fails part-way
 leaves the tables as they were.
 */
module AccountStore {
  import opened Wrappers
  import opened Accounts

  class Store {
    var accounts: map<AccountId, Account>
    var sessions: map<Token, Session>
    var challenges: map<Token, Challenge>
    var admins: set<AccountId>
    var moderators: set<AccountId>
    var attached: set<AccountId>
    ghost var issued: set<Token>
    ghost var admitted: multiset<AccountId>

    ghost function Tables(): State
      reads this
    {
      State(accounts, sessions, challenges, admins, moderators, attached, issued, admitted)
    }

    constructor ()
      ensures Tables() == EMPTY
    {
      accounts, sessions, challenges, admins, moderators, attached := map[], map[], map[], {}, {}, {};
      issued, admitted := {}, multiset{};
    }

    /** The credential check of Login: a separate call, before the session is inserted. */
    method CheckLogin(id: AccountId, password: string) returns (ok: bool)
      modifies `admitted
      ensures ok <==> id in accounts && accounts[id].password == password && accounts[id].status == Active
      ensures Tables() == Next(old(Tables()), CheckPassword(id, password))
    {
      ok := id in accounts && accounts[id].password == password && accounts[id].status == Active;
      if ok {
        admitted := admitted + multiset{id};
      }
    }

    /** CreateSession itself checks nothing but the foreign key and the fresh token. */
    method CreateSession(id: AccountId, token: Token, expires: Time) returns (ok: bool)
      requires id in admitted && token !in issued
      modifies `sessions, `issued, `admitted
      ensures ok <==> id in accounts
      ensures Tables() == Next(old(Tables()), OpenSession(id, token, expires))
    {
      ok := id in accounts;
      if ok {
        sessions := sessions[token := Session(id, expires, None)];
        issued, admitted := issued + {token}, admitted - multiset{id};
      }
    }

    method FindActiveSession(token: Token, now: Time) returns (found: bool)
      requires forall t :: t in sessions ==> sessions[t].account in accounts
      ensures found <==> Authenticates(Tables(), token, now)
    {
      if token !in sessions || sessions[token].revoked.Some? || sessions[token].expires <= now {
        return false;
      }
      return accounts[sessions[token].account].status == Active;
    }

    /** Supersedes every open reset of the account, then inserts the new one, in one transaction. */
    method CreatePasswordResetChallenge(id: AccountId, token: Token, expires: Time, activates: bool) returns (ok: bool)
      requires token !in issued
      modifies `challenges, `issued
      ensures ok <==> id in accounts
      ensures Tables() == Next(old(Tables()), IssueReset(id, token, expires, activates))
    {
      var tx := map t | t in challenges ::
        if challenges[t].IsReset() && challenges[t].owner == Some(id) && !challenges[t].consumed
        then challenges[t].(consumed := true) else challenges[t];
      if id !in accounts {
        return false;
      }
      assert tx == CloseOpen(challenges, id, true);
      tx := tx[token := Challenge(Some(id), if activates then Activation else Reset, expires, false)];
      challenges, issued, ok := tx, issued + {token}, true;
    }

    /**
     Marks the token consumed, sets the password if exactly the expected account row is there,
     and ends every session.
     */
    method ConsumePasswordResetChallenge(token: Token, password: string, now: Time) returns (ok: bool)
      modifies `accounts, `sessions, `challenges
      ensures ok <==> Enabled(old(Tables()), ConsumeReset(token, password, now))
      ensures Tables() == Next(old(Tables()), ConsumeReset(token, password, now))
    {
      if token !in challenges || challenges[token].consumed || challenges[token].expires <= now
         || !challenges[token].IsReset() || challenges[token].owner.None? {
        return false;
      }
      var id, activates := challenges[token].owner.value, challenges[token].purpose.Activation?;
      var txChallenges := challenges[token := challenges[token].(consumed := true)];
      var txAccounts, rowsAffected := accounts, 0;
      if activates {
        if id in accounts && accounts[id].status == Pending {
          txAccounts := accounts[id := accounts[id].(password := password, status := Active, identity := Student)];
          rowsAffected := 1;
        }
      } else if id in accounts && accounts[id].status == Active {
        txAccounts, rowsAffected := accounts[id := accounts[id].(password := password)], 1;
      }
      if rowsAffected == 0 {
        return false;
      }
      accounts, challenges, ok := txAccounts, txChallenges, true;
      sessions := RevokeAll(sessions, id, None, now);
    }

    /** The token form and the signed-in form, which also names its account. */
    method ConsumeEmailVerification(token: Token, caller: Option<AccountId>, now: Time) returns (ok: bool)
      modifies `accounts, `challenges
      ensures ok <==> Enabled(old(Tables()), ConsumeEmailCheck(token, caller, now))
      ensures Tables() == Next(old(Tables()), ConsumeEmailCheck(token, caller, now))
    {
      if token !in challenges || challenges[token].consumed || challenges[token].expires <= now
         || !challenges[token].purpose.EmailCheck? || (caller.Some? && challenges[token].owner != caller) {
        return false;
      }
      var owner := challenges[token].owner;
      challenges := challenges[token := challenges[token].(consumed := true)];
      if owner.Some? && owner.value in accounts && accounts[owner.value].status == Active {
        var verified := accounts[owner.value].emailVerified;
        accounts := accounts[owner.value :=
          accounts[owner.value].(emailVerified := if verified.Some? then verified else Some(now))];
      }
      return true;
    }

    method ConsumeOAuthState(token: Token, provider: string, now: Time) returns (ok: bool)
      modifies `challenges
      ensures ok <==> Enabled(old(Tables()), Step.ConsumeOAuthState(token, provider, now))
      ensures Tables() == Next(old(Tables()), Step.ConsumeOAuthState(token, provider, now))
    {
      ok := token in challenges && challenges[token].purpose == OAuthState(provider)
            && !challenges[token].consumed && challenges[token].expires > now;
      if ok {
        challenges := challenges[token := challenges[token].(consumed := true)];
      }
    }

    method UpdatePasswordForAccount(id: AccountId, password: string, keep: Token, now: Time) returns (ok: bool)
      modifies `accounts, `sessions
      ensures ok <==> id in old(accounts) && old(accounts)[id].status == Active
      ensures accounts == if ok then old(accounts)[id := old(accounts)[id].(password := password)] else old(accounts)
      ensures Tables() == Next(old(Tables()), ChangePassword(id, password, keep, now))
    {
      if id !in accounts || accounts[id].status != Active {
        return false;
      }
      accounts := accounts[id := accounts[id].(password := password)];
      sessions := RevokeAll(sessions, id, Some(keep), now);
      return true;
    }

    /** The join's rows, scanned one by one. */
    method FindExpiredPending(now: Time) returns (ids: set<AccountId>)
      ensures ids == Expired(Tables(), now)
    {
      ids := {};
      var rest := challenges.Keys;
      while rest != {}
        invariant rest <= challenges.Keys
        invariant forall id :: id in ids <==> exists t :: t in challenges.Keys - rest && Selects(t, id, now)
        decreases rest
      {
        var t :| t in rest;
        var c := challenges[t];
        if c.purpose.Activation? && !c.consumed && c.expires < now && c.owner.Some?
           && c.owner.value in accounts && accounts[c.owner.value].status == Pending {
          assert Selects(t, c.owner.value, now);
          ids := ids + {c.owner.value};
        }
        rest := rest - {t};
      }
      assert forall id :: id in ids <==> exists t :: t in challenges && Selects(t, id, now);
    }

    ghost predicate Selects(t: Token, id: AccountId, now: Time)
      requires t in challenges
      reads this
    {
      && challenges[t].purpose.Activation? && !challenges[t].consumed && challenges[t].expires < now
      && challenges[t].owner == Some(id) && HasStatus(Tables(), id, Pending)
    }

    /** Deletes the reset rows, then the accounts; any other row still naming one of them aborts the transaction. */
    method PurgeExpiredPendingAccounts(now: Time) returns (ok: bool)
      modifies `accounts, `challenges
      ensures ok <==> Enabled(old(Tables()), Purge(now))
      ensures Tables() == Next(old(Tables()), Purge(now))
    {
      var ids := FindExpiredPending(now);
      var tx := map t | t in challenges
        && !(challenges[t].IsReset() && challenges[t].owner.Some? && challenges[t].owner.value in ids)
        :: challenges[t];
      if t :| t in tx && tx[t].owner.Some? && tx[t].owner.value in ids {
        assert OwnsCheck(Tables(), t, tx[t].owner.value);
        return false;
      }
      if t :| t in sessions && sessions[t].account in ids {
        assert HasSession(Tables(), sessions[t].account);
        return false;
      }
      if id :| id in admins + moderators + attached && id in ids {
        return false;
      }
      forall id | id in ids ensures !References(Tables(), id) {
        assert forall t :: t in challenges && !challenges[t].IsReset() ==> t in tx;
      }
      challenges := tx;
      accounts := accounts - ids;
      return true;
    }

    method SuspendAccount(id: AccountId, now: Time) returns (ok: bool)
      modifies `accounts, `sessions
      ensures ok <==> id in old(accounts) && id !in admins && old(accounts)[id].status == Active
      ensures accounts == if ok then old(accounts)[id := old(accounts)[id].(status := Suspended)] else old(accounts)
      ensures Tables() == Next(old(Tables()), Suspend(id, now))
    {
      if id !in accounts || id in admins || accounts[id].status != Active {
        return false;
      }
      accounts := accounts[id := accounts[id].(status := Suspended)];
      sessions := RevokeAll(sessions, id, None, now);
      return true;
    }

    /** setAdmissionsModeratorRole: the account only has to exist. */
    method SetAdmissionsModeratorRole(id: AccountId, grant: bool) returns (ok: bool)
      modifies `moderators
      ensures ok <==> id in accounts
      ensures Tables() == Next(old(Tables()), SetModerator(id, grant))
    {
      ok := id in accounts;
      if ok {
        moderators := if grant then moderators + {id} else moderators - {id};
      }
    }

    /** Supersedes the account's earlier checks, then inserts the new one; the account only has to exist. */
    method CreateEmailVerificationChallenge(id: AccountId, token: Token, expires: Time) returns (ok: bool)
      requires token !in issued
      modifies `challenges, `issued
      ensures ok <==> id in accounts
      ensures Tables() == Next(old(Tables()), IssueEmailCheck(id, token, expires))
    {
      var tx := map t | t in challenges ::
        if challenges[t].purpose.EmailCheck? && challenges[t].owner == Some(id) && !challenges[t].consumed
        then challenges[t].(consumed := true) else challenges[t];
      if id !in accounts {
        return false;
      }
      assert tx == CloseOpen(challenges, id, false);
      tx := tx[token := Challenge(Some(id), EmailCheck, expires, false)];
      challenges, issued, ok := tx, issued + {token}, true;
    }

    method ReinstateAccount(id: AccountId) returns (ok: bool)
      modifies `accounts
      ensures ok <==> id in old(accounts) && old(accounts)[id].status == Suspended
      ensures accounts == if ok then old(accounts)[id := old(accounts)[id].(status := Active)] else old(accounts)
      ensures Tables() == Next(old(Tables()), Reinstate(id))
    {
      if id !in accounts || accounts[id].status != Suspended {
        return false;
      }
      accounts := accounts[id := accounts[id].(status := Active)];
      return true;
    }

    method ForceLogoutAccount(id: AccountId, now: Time) returns (ok: bool)
      modifies `sessions
      ensures ok <==> id in accounts
      ensures Tables() == Next(old(Tables()), ForceLogout(id, now))
    {
      if id !in accounts {
        return false;
      }
      sessions := RevokeAll(sessions, id, None, now);
      return true;
    }

    /** What the command asks of the account before it opens the transaction. */
    method CheckErase(id: AccountId) returns (ok: bool)
      ensures ok <==> id in accounts && accounts[id].status != Deleted
    {
      ok := id in accounts && accounts[id].status != Deleted;
    }

    /**
     The scrub and the tombstone in one transaction, which looks at the status
     no more; without `confirm` it is rolled back. `ok` is whether there is a row.
     */
    method EraseAccount(id: AccountId, tombstone: string, now: Time, confirm: bool) returns (ok: bool)
      modifies `accounts, `sessions, `challenges, `admins, `moderators
      ensures ok <==> Enabled(old(Tables()), Erase(id, tombstone, now))
      ensures Tables() == if confirm then Next(old(Tables()), Erase(id, tombstone, now)) else old(Tables())
    {
      if id !in accounts {
        return false;
      }
      var txSessions := RevokeAll(sessions, id, None, now);
      var txAdmins, txModerators := admins - {id}, moderators - {id};
      var txChallenges := map t | t in challenges && challenges[t].owner != Some(id) :: challenges[t];
      var txAccounts := accounts[id := Account(Deleted, Temporary, tombstone, None)];
      if confirm {
        sessions, admins, moderators := txSessions, txAdmins, txModerators;
        challenges, accounts := txChallenges, txAccounts;
      }
      return true;
    }
  }
}
