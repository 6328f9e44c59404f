/**
 Approving and rejecting one account application (`accountapplications`).
 Approve reads the application, creates an account, marks it a student and only
 then decides, each in its own transaction, so concurrent reviewers interleave
 at every one of these points.
 */
module Applications {
  import opened Wrappers

  type AccountId = nat
  type CallId = nat

  datatype Status = Pending | Approved | Rejected

  /** `emailHash` is the UNIQUE column: the address hashed with the lookup key in force when it was written. */
  datatype Account = Account(username: string, emailHash: string, active: bool, student: bool)

  datatype Failure = AlreadyDecided | Conflict | InvalidInput | AccountGone | Stopped

  /** Where a review call stands between two of its transactions. */
  datatype Call =
    | Naming(attempt: nat, username: string)
    | Created(account: AccountId)
    | Marked(account: AccountId)
    | Rejecting
    | Finished(error: Option<Failure>)

  /**
   The application's own fields: the requested name, whether its address
   passes validation, and what each lookup key hashes the address to.
   `normalizeUsername` is the function of that name.
   */
  datatype Request = Request(
    username: string, validEmail: bool, hashUnder: nat -> string, normalizeUsername: string -> Option<string>)
  {
    /** Both inputs are checked before anything is stored, and both fail alike. */
    function normalize(name: string): Option<string> {
      if validEmail then normalizeUsername(name) else None
    }
  }

  /**
   `key` is the lookup key in force. `created` remembers every account the
   calls made with the key of its hash, `marked` those marked, `released` those
   that later gave up the address.
   */
  datatype State = State(
    status: Status, account: Option<AccountId>, accounts: map<AccountId, Account>, calls: map<CallId, Call>,
    key: nat, created: map<AccountId, nat>, marked: set<AccountId>, released: set<AccountId>)

  datatype Step =
    | StartApprove(call: CallId)
    | TryCreate(call: CallId, id: AccountId, suffix: string)
    | Mark(call: CallId)
    | DecideApproved(call: CallId)
    | StartReject(call: CallId)
    | DecideRejected(call: CallId)
    | Stop(call: CallId)
    | RegisterOther(id: AccountId, username: string, emailHash: string)
    | SetActive(id: AccountId, active: bool)
    | Release(id: AccountId, username: string, emailHash: string)
    | Rekey(key: nat)

  const ATTEMPTS := 5

  ghost predicate EmailHeld(accounts: map<AccountId, Account>, emailHash: string) {
    exists i :: i in accounts && accounts[i].emailHash == emailHash
  }

  ghost predicate UsernameHeld(accounts: map<AccountId, Account>, username: string) {
    exists i :: i in accounts && accounts[i].username == username
  }

  ghost predicate Enabled(s: State, step: Step) {
    match step
    case StartApprove(c) => c !in s.calls
    case StartReject(c) => c !in s.calls
    case TryCreate(c, id, _) => c in s.calls && s.calls[c].Naming? && id !in s.accounts
    case Mark(c) => c in s.calls && s.calls[c].Created?
    case DecideApproved(c) => c in s.calls && s.calls[c].Marked?
    case DecideRejected(c) => c in s.calls && s.calls[c].Rejecting?
    case Stop(c) => c in s.calls && !s.calls[c].Finished?
    case RegisterOther(id, username, emailHash) =>
      id !in s.accounts && !EmailHeld(s.accounts, emailHash) && !UsernameHeld(s.accounts, username)
    case SetActive(id, _) => id in s.accounts
    case Release(id, username, emailHash) =>
      id in s.accounts && !EmailHeld(s.accounts, emailHash) && !UsernameHeld(s.accounts, username)
    case Rekey(_) => true
  }

  function Moved(s: State, c: CallId, call: Call): State {
    s.(calls := s.calls[c := call])
  }

  function RetryName(req: Request, suffix: string): string {
    req.username + "-" + suffix
  }

  ghost function AfterTry(req: Request, s: State, c: CallId, id: AccountId, suffix: string): State
    requires c in s.calls && s.calls[c].Naming?
  {
    match req.normalize(s.calls[c].username)
    case None => Moved(s, c, Finished(Some(InvalidInput)))
    case Some(name) =>
      if EmailHeld(s.accounts, req.hashUnder(s.key)) || UsernameHeld(s.accounts, name) then
        var n := s.calls[c].attempt + 1;
        Moved(s, c, if n < ATTEMPTS then Naming(n, RetryName(req, suffix)) else Finished(Some(Conflict)))
      else
        Moved(s, c, Created(id)).(
          accounts := s.accounts[id := Account(name, req.hashUnder(s.key), true, false)],
          created := s.created[id := s.key])
  }

  ghost function Next(req: Request, s: State, step: Step): State
    requires Enabled(s, step)
  {
    match step
    case StartApprove(c) =>
      Moved(s, c, if s.status == Pending then Naming(0, req.username) else Finished(Some(AlreadyDecided)))
    case StartReject(c) =>
      Moved(s, c, if s.status == Pending then Rejecting else Finished(Some(AlreadyDecided)))
    case TryCreate(c, id, suffix) => AfterTry(req, s, c, id, suffix)
    case Mark(c) =>
      var a := s.calls[c].account;
      if a in s.accounts && s.accounts[a].active then
        Moved(s, c, Marked(a)).(accounts := s.accounts[a := s.accounts[a].(student := true)], marked := s.marked + {a})
      else Moved(s, c, Finished(Some(AccountGone)))
    case DecideApproved(c) =>
      if s.status == Pending then Moved(s, c, Finished(None)).(status := Approved, account := Some(s.calls[c].account))
      else Moved(s, c, Finished(Some(AlreadyDecided)))
    case DecideRejected(c) =>
      if s.status == Pending then Moved(s, c, Finished(None)).(status := Rejected, account := None)
      else Moved(s, c, Finished(Some(AlreadyDecided)))
    case Stop(c) => Moved(s, c, Finished(Some(Stopped)))
    case RegisterOther(id, username, emailHash) =>
      s.(accounts := s.accounts[id := Account(username, emailHash, true, false)])
    case SetActive(id, active) => s.(accounts := s.accounts[id := s.accounts[id].(active := active)])
    case Release(id, username, emailHash) =>
      s.(accounts := s.accounts[id := s.accounts[id].(username := username, emailHash := emailHash)],
         released := s.released + {id})
    case Rekey(key) => s.(key := key)
  }

  // ---- the invariant ------------------------------------------------------

  ghost predicate UniqueEmails(accounts: map<AccountId, Account>) {
    forall i, j :: i in accounts && j in accounts && accounts[i].emailHash == accounts[j].emailHash ==> i == j
  }

  ghost predicate UniqueUsernames(accounts: map<AccountId, Account>) {
    forall i, j :: i in accounts && j in accounts && accounts[i].username == accounts[j].username ==> i == j
  }

  ghost predicate CallGood(s: State, call: Call) {
    match call
    case Created(a) => a in s.created
    case Marked(a) => a in s.created && a in s.marked
    case _ => true
  }

  ghost predicate Inv(req: Request, s: State) {
    && UniqueEmails(s.accounts) && UniqueUsernames(s.accounts)
    && (forall a :: a in s.created ==>
          a in s.accounts && (a !in s.released ==> s.accounts[a].emailHash == req.hashUnder(s.created[a])))
    && (forall c :: c in s.calls ==> CallGood(s, s.calls[c]))
    && (s.status == Approved <==> s.account.Some?)
    && (s.account.Some? ==> s.account.value in s.created && s.account.value in s.marked)
    && (forall a :: a in s.marked ==> a in s.accounts && s.accounts[a].student)
  }

  /** An application as it is received, among whatever accounts exist. */
  ghost predicate Fresh(s: State) {
    && UniqueEmails(s.accounts) && UniqueUsernames(s.accounts) && s.status == Pending && s.account.None?
    && s.calls == map[] && s.created == map[] && s.marked == {} && s.released == {}
  }

  lemma StepKeepsEmails(req: Request, s: State, step: Step)
    requires UniqueEmails(s.accounts) && Enabled(s, step)
    ensures UniqueEmails(Next(req, s, step).accounts)
  {
  }

  lemma StepKeepsUsernames(req: Request, s: State, step: Step)
    requires UniqueUsernames(s.accounts) && Enabled(s, step)
    ensures UniqueUsernames(Next(req, s, step).accounts)
  {
  }

  lemma StepKeepsCreated(req: Request, s: State, step: Step, a: AccountId)
    requires Inv(req, s) && Enabled(s, step) && a in Next(req, s, step).created
    ensures a in Next(req, s, step).accounts
    ensures a !in Next(req, s, step).released ==>
      Next(req, s, step).accounts[a].emailHash == req.hashUnder(Next(req, s, step).created[a]) || a in s.released
  {
  }

  lemma StepKeepsHistory(req: Request, s: State, step: Step)
    requires Enabled(s, step)
    ensures s.created.Keys <= Next(req, s, step).created.Keys && s.marked <= Next(req, s, step).marked
    ensures s.released <= Next(req, s, step).released
  {
  }

  lemma StepKeepsCalls(req: Request, s: State, step: Step, c: CallId)
    requires Inv(req, s) && Enabled(s, step) && c in Next(req, s, step).calls
    ensures CallGood(Next(req, s, step), Next(req, s, step).calls[c])
  {
    StepKeepsHistory(req, s, step);
  }

  lemma StepKeepsInv(req: Request, s: State, step: Step)
    requires Inv(req, s) && Enabled(s, step)
    ensures Inv(req, Next(req, s, step))
  {
    var s' := Next(req, s, step);
    StepKeepsEmails(req, s, step);
    StepKeepsUsernames(req, s, step);
    StepKeepsHistory(req, s, step);
    forall a | a in s'.created
      ensures a in s'.accounts && (a !in s'.released ==> s'.accounts[a].emailHash == req.hashUnder(s'.created[a]))
    {
      StepKeepsCreated(req, s, step, a);
    }
    forall c | c in s'.calls ensures CallGood(s', s'.calls[c]) {
      StepKeepsCalls(req, s, step, c);
    }
  }

  /** The decision and its account are written once. */
  lemma StepKeepsDecision(req: Request, s: State, step: Step)
    requires Enabled(s, step) && s.status != Pending
    ensures Next(req, s, step).status == s.status && Next(req, s, step).account == s.account
  {
  }

  /** A review of a decided application ends at once and changes nothing. */
  lemma DecidedStartsNothing(req: Request, s: State, c: CallId)
    requires c !in s.calls && s.status != Pending
    ensures var ended := s.(calls := s.calls[c := Finished(Some(AlreadyDecided))]);
      Next(req, s, StartApprove(c)) == ended && Next(req, s, StartReject(c)) == ended
  {
  }

  // ---- whole runs ---------------------------------------------------------

  ghost predicate CanRun(req: Request, s: State, steps: seq<Step>)
    decreases |steps|
  {
    steps == [] || (Enabled(s, steps[0]) && CanRun(req, Next(req, s, steps[0]), steps[1..]))
  }

  ghost function Run(req: Request, s: State, steps: seq<Step>): State
    requires CanRun(req, s, steps)
    decreases |steps|
  {
    if steps == [] then s else Run(req, Next(req, s, steps[0]), steps[1..])
  }

  /** Once out of pending, no interleaving changes the decision or the account it names. */
  lemma {:induction false} DecidedOnce(req: Request, s: State, steps: seq<Step>)
    requires CanRun(req, s, steps) && s.status != Pending
    ensures Run(req, s, steps).status == s.status && Run(req, s, steps).account == s.account
    decreases |steps|
  {
    if steps != [] {
      StepKeepsDecision(req, s, steps[0]);
      DecidedOnce(req, Next(req, s, steps[0]), steps[1..]);
    }
  }

  lemma {:induction false} RunKeepsInv(req: Request, s: State, steps: seq<Step>)
    requires Inv(req, s) && CanRun(req, s, steps)
    ensures Inv(req, Run(req, s, steps))
    decreases |steps|
  {
    if steps != [] {
      StepKeepsInv(req, s, steps[0]);
      RunKeepsInv(req, Next(req, s, steps[0]), steps[1..]);
    }
  }

  /**
   Under any interleaving: an approved application names an account its
   reviewers created, which exists and was marked a student; and any two
   accounts created for it under one lookup key that still hold the address are
   one account.
   */
  lemma ReviewsAreSafe(req: Request, s: State, steps: seq<Step>, i: AccountId, j: AccountId)
    requires Fresh(s) && CanRun(req, s, steps)
    ensures var e := Run(req, s, steps);
      && (e.status == Approved ==>
            e.account.Some? && e.account.value in e.accounts
            && e.account.value in e.created && e.account.value in e.marked && e.accounts[e.account.value].student)
      && (e.status != Approved ==> e.account.None?)
      && ({i, j} <= e.created.Keys && {i, j} !! e.released && e.created[i] == e.created[j] ==> i == j)
  {
    RunKeepsInv(req, s, steps);
  }

  /** No account is erased or changes its address, and the lookup key stays in force. */
  ghost predicate Steady(steps: seq<Step>) {
    forall step :: step in steps ==> !step.Release? && !step.Rekey?
  }

  ghost predicate OneKey(s: State) {
    forall a :: a in s.created ==> s.created[a] == s.key
  }

  lemma {:induction false} SteadyRun(req: Request, s: State, steps: seq<Step>)
    requires CanRun(req, s, steps) && Steady(steps)
    ensures Run(req, s, steps).released == s.released && Run(req, s, steps).key == s.key
    ensures OneKey(s) ==> OneKey(Run(req, s, steps))
    decreases |steps|
  {
    if steps != [] {
      assert steps[0] in steps;
      SteadyRun(req, Next(req, s, steps[0]), steps[1..]);
    }
  }

  /** In a steady run all the reviewers together create at most one account. */
  lemma AtMostOneAccount(req: Request, s: State, steps: seq<Step>)
    requires Fresh(s) && CanRun(req, s, steps) && Steady(steps)
    ensures |Run(req, s, steps).created.Keys| <= 1
  {
    SteadyRun(req, s, steps);
    var e := Run(req, s, steps);
    if a :| a in e.created {
      forall b | b in e.created ensures b == a {
        ReviewsAreSafe(req, s, steps, a, b);
      }
      assert e.created.Keys == {a};
    }
  }

  // ---- what the guards do not give ----------------------------------------

  /** No call holds an account it could still decide with. */
  ghost predicate NoneUnderway(s: State) {
    forall c :: c in s.calls ==> !s.calls[c].Created? && !s.calls[c].Marked?
  }

  ghost predicate CanBecomeApproved(req: Request, s: State) {
    exists steps: seq<Step> :: Steady(steps) && CanRun(req, s, steps) && Run(req, s, steps).status == Approved
  }

  lemma RunOne(req: Request, s: State, step: Step)
    requires Enabled(s, step)
    ensures CanRun(req, s, [step]) && Run(req, s, [step]) == Next(req, s, step)
  {
  }

  lemma RunCons(req: Request, s: State, step: Step, rest: seq<Step>)
    requires Enabled(s, step) && CanRun(req, Next(req, s, step), rest)
    ensures CanRun(req, s, [step] + rest) && Run(req, s, [step] + rest) == Run(req, Next(req, s, step), rest)
  {
  }

  ghost predicate NameFree(req: Request, s: State, username: string) {
    req.normalize(username).Some? && !UsernameHeld(s.accounts, req.normalize(username).value)
  }

  /** The call's next name creates an account, or is taken and leaves it another try that can. */
  ghost predicate CanStillCreate(req: Request, s: State, call: Call) {
    && call.Naming? && !EmailHeld(s.accounts, req.hashUnder(s.key)) && req.normalize(call.username).Some?
    && (NameFree(req, s, call.username)
        || (call.attempt + 1 < 5 && exists suffix :: NameFree(req, s, RetryName(req, suffix))))
  }

  ghost predicate SomeCallCanCreate(req: Request, s: State) {
    exists c :: c in s.calls && CanStillCreate(req, s, s.calls[c])
  }

  lemma HeldStays(req: Request, s: State, step: Step, username: string)
    requires Enabled(s, step) && !step.Release? && !step.Rekey?
    ensures EmailHeld(s.accounts, req.hashUnder(s.key)) ==> EmailHeld(Next(req, s, step).accounts, req.hashUnder(s.key))
    ensures NameFree(req, Next(req, s, step), username) ==> NameFree(req, s, username)
  {
    if i :| i in s.accounts && s.accounts[i].emailHash == req.hashUnder(s.key) {
      assert i in Next(req, s, step).accounts && Next(req, s, step).accounts[i].emailHash == req.hashUnder(s.key);
    }
    if name :| req.normalize(username) == Some(name) && UsernameHeld(s.accounts, name) {
      var i :| i in s.accounts && s.accounts[i].username == name;
      assert i in Next(req, s, step).accounts && Next(req, s, step).accounts[i].username == name;
    }
  }

  /** A call that stays as it is gains nothing. */
  lemma UntouchedGainsNothing(req: Request, s: State, step: Step, call: Call)
    requires Enabled(s, step) && !step.Release? && !step.Rekey? && CanStillCreate(req, Next(req, s, step), call)
    ensures CanStillCreate(req, s, call)
  {
    HeldStays(req, s, step, call.username);
    if !NameFree(req, Next(req, s, step), call.username) {
      var suffix :| NameFree(req, Next(req, s, step), RetryName(req, suffix));
      HeldStays(req, s, step, RetryName(req, suffix));
    }
  }

  /** Nor does a call whose name was refused. */
  lemma RefusedGainsNothing(req: Request, s: State, c: CallId, id: AccountId, suffix: string)
    requires Enabled(s, TryCreate(c, id, suffix)) && !CanStillCreate(req, s, s.calls[c])
    ensures var s' := Next(req, s, TryCreate(c, id, suffix));
      s'.accounts == s.accounts && s'.created == s.created && !s'.calls[c].Created?
      && !CanStillCreate(req, s', s'.calls[c])
  {
  }

  /** What a call can do depends on the accounts and the key alone. */
  lemma SameCallCreates(req: Request, s: State, t: State, call: Call)
    requires s.accounts == t.accounts && s.key == t.key && CanStillCreate(req, s, call)
    ensures CanStillCreate(req, t, call)
  {
    if !NameFree(req, s, call.username) {
      var suffix :| NameFree(req, s, RetryName(req, suffix));
      assert NameFree(req, t, RetryName(req, suffix));
    }
  }

  /** While no call can create an account, none gains that by a step, unless it starts with a name that can. */
  lemma CallsGainNothing(req: Request, s: State, step: Step)
    requires Enabled(s, step) && !step.Release? && !step.Rekey? && !SomeCallCanCreate(req, s)
    requires step.StartApprove? && s.status == Pending ==> !CanStillCreate(req, s, Naming(0, req.username))
    ensures !SomeCallCanCreate(req, Next(req, s, step))
  {
    var s' := Next(req, s, step);
    if step.TryCreate? {
      RefusedGainsNothing(req, s, step.call, step.id, step.suffix);
    }
    forall c | c in s'.calls ensures !CanStillCreate(req, s', s'.calls[c]) {
      if CanStillCreate(req, s', s'.calls[c]) {
        if c in s.calls && s'.calls[c] == s.calls[c] {
          UntouchedGainsNothing(req, s, step, s.calls[c]);
        } else if step.StartApprove? {
          SameCallCreates(req, s', s, s'.calls[c]);
        }
      }
    }
  }

  lemma {:induction false} FreshId(ids: set<AccountId>) returns (id: AccountId)
    ensures forall i :: i in ids ==> i < id
    decreases |ids|
  {
    id := 0;
    if i :| i in ids {
      var rest := FreshId(ids - {i});
      id := if i < rest then rest else i + 1;
      assert forall k :: k in ids ==> k == i || k in ids - {i};
    }
  }

  // ---- when a pending application can be approved ------------------------------------

  /** Not approved, with no call that holds an account or can still create one, and none to come. */
  ghost predicate Stuck(req: Request, s: State) {
    && s.status != Approved && NoneUnderway(s)
    && !SomeCallCanCreate(req, s) && !CanStillCreate(req, s, Naming(0, req.username))
  }

  lemma StepStaysStuck(req: Request, s: State, step: Step)
    requires Stuck(req, s) && Enabled(s, step) && !step.Release? && !step.Rekey?
    ensures Stuck(req, Next(req, s, step))
  {
    CallsGainNothing(req, s, step);
    if CanStillCreate(req, Next(req, s, step), Naming(0, req.username)) {
      UntouchedGainsNothing(req, s, step, Naming(0, req.username));
    }
    if step.TryCreate? {
      RefusedGainsNothing(req, s, step.call, step.id, step.suffix);
    }
  }

  lemma {:induction false} RunStaysStuck(req: Request, s: State, steps: seq<Step>)
    requires Stuck(req, s) && CanRun(req, s, steps) && Steady(steps)
    ensures Stuck(req, Run(req, s, steps))
    decreases |steps|
  {
    if steps != [] {
      assert steps[0] in steps;
      StepStaysStuck(req, s, steps[0]);
      RunStaysStuck(req, Next(req, s, steps[0]), steps[1..]);
    }
  }

  /** With its next name free, a call creates the account, marks it and decides. */
  lemma FreeNameApproves(req: Request, s: State, c: CallId, id: AccountId) returns (steps: seq<Step>)
    requires s.status == Pending && c in s.calls && s.calls[c].Naming? && id !in s.accounts
    requires !EmailHeld(s.accounts, req.hashUnder(s.key)) && NameFree(req, s, s.calls[c].username)
    ensures Steady(steps) && CanRun(req, s, steps) && Run(req, s, steps).status == Approved
  {
    var s1 := Next(req, s, TryCreate(c, id, ""));
    var s2 := Next(req, s1, Mark(c));
    RunOne(req, s2, DecideApproved(c));
    RunCons(req, s1, Mark(c), [DecideApproved(c)]);
    RunCons(req, s, TryCreate(c, id, ""), [Mark(c)] + [DecideApproved(c)]);
    steps := [TryCreate(c, id, "")] + ([Mark(c)] + [DecideApproved(c)]);
  }

  lemma CallApproves(req: Request, s: State, c: CallId) returns (steps: seq<Step>)
    requires s.status == Pending && c in s.calls && CanStillCreate(req, s, s.calls[c])
    ensures Steady(steps) && CanRun(req, s, steps) && Run(req, s, steps).status == Approved
  {
    var id := FreshId(s.accounts.Keys);
    if NameFree(req, s, s.calls[c].username) {
      steps := FreeNameApproves(req, s, c, id);
    } else {
      var suffix :| NameFree(req, s, RetryName(req, suffix));
      var refused := TryCreate(c, id, suffix);
      var rest := FreeNameApproves(req, Next(req, s, refused), c, id);
      RunCons(req, s, refused, rest);
      steps := [refused] + rest;
    }
  }

  /** A call that holds an account can always finish, once the account is active. */
  lemma HolderApproves(req: Request, s: State, c: CallId) returns (steps: seq<Step>)
    requires Inv(req, s) && s.status == Pending && c in s.calls && (s.calls[c].Created? || s.calls[c].Marked?)
    ensures Steady(steps) && CanRun(req, s, steps) && Run(req, s, steps).status == Approved
  {
    if s.calls[c].Marked? {
      RunOne(req, s, DecideApproved(c));
      steps := [DecideApproved(c)];
    } else {
      assert CallGood(s, s.calls[c]);
      var activate := SetActive(s.calls[c].account, true);
      var s1 := Next(req, s, activate);
      var s2 := Next(req, s1, Mark(c));
      RunOne(req, s2, DecideApproved(c));
      RunCons(req, s1, Mark(c), [DecideApproved(c)]);
      RunCons(req, s, activate, [Mark(c)] + [DecideApproved(c)]);
      steps := [activate] + ([Mark(c)] + [DecideApproved(c)]);
    }
  }

  /**
   A pending application can still be approved, by a steady run, exactly when a
   call holds an account, or one that is looking for a name can still create
   one, or one that starts now can.
   */
  lemma ApprovableExactlyWhen(req: Request, s: State)
    requires Inv(req, s) && s.status == Pending
    ensures CanBecomeApproved(req, s) <==>
      !NoneUnderway(s) || SomeCallCanCreate(req, s) || CanStillCreate(req, s, Naming(0, req.username))
  {
    if !NoneUnderway(s) {
      var c :| c in s.calls && (s.calls[c].Created? || s.calls[c].Marked?);
      var steps := HolderApproves(req, s, c);
    } else if SomeCallCanCreate(req, s) {
      var c :| c in s.calls && CanStillCreate(req, s, s.calls[c]);
      var steps := CallApproves(req, s, c);
    } else if CanStillCreate(req, s, Naming(0, req.username)) {
      var c := FreshId(s.calls.Keys);
      var started := Next(req, s, StartApprove(c));
      SameCallCreates(req, s, started, Naming(0, req.username));
      var rest := CallApproves(req, started, c);
      RunCons(req, s, StartApprove(c), rest);
      assert Steady([StartApprove(c)] + rest);
    } else {
      forall steps: seq<Step> | Steady(steps) && CanRun(req, s, steps)
        ensures Run(req, s, steps).status != Approved
      {
        RunStaysStuck(req, s, steps);
      }
    }
  }

  /**
   So an approval that stops after creating its account, as the only one that
   holds one, cannot be repeated: the account has the address.
   */
  lemma StoppedApprovalIsFinal(req: Request, s: State, call: CallId)
    requires Inv(req, s) && s.status == Pending
    requires call in s.calls && (s.calls[call].Created? || s.calls[call].Marked?)
    requires s.created[s.calls[call].account] == s.key && s.calls[call].account !in s.released
    requires forall c :: c in s.calls && c != call ==> !s.calls[c].Created? && !s.calls[c].Marked?
    ensures Next(req, s, Stop(call)).status == Pending && !CanBecomeApproved(req, Next(req, s, Stop(call)))
  {
    var stopped := Next(req, s, Stop(call));
    StepKeepsInv(req, s, Stop(call));
    assert stopped.accounts[s.calls[call].account].emailHash == req.hashUnder(stopped.key);
    ApprovableExactlyWhen(req, stopped);
  }

  /** As happens to a first approval that finds the address and the name free. */
  lemma FirstApprovalStops(req: Request, s: State, call: CallId, id: AccountId)
    requires Fresh(s) && id !in s.accounts && !EmailHeld(s.accounts, req.hashUnder(s.key))
    requires NameFree(req, s, req.username)
    ensures var steps := [StartApprove(call), TryCreate(call, id, ""), Stop(call)];
      && CanRun(req, s, steps) && Run(req, s, steps).status == Pending
      && id in Run(req, s, steps).accounts && Run(req, s, steps).accounts[id].active
      && !CanBecomeApproved(req, Run(req, s, steps))
  {
    var s1 := Next(req, s, StartApprove(call));
    var s2 := Next(req, s1, TryCreate(call, id, ""));
    RunOne(req, s2, Stop(call));
    RunCons(req, s1, TryCreate(call, id, ""), [Stop(call)]);
    RunCons(req, s, StartApprove(call), [TryCreate(call, id, "")] + [Stop(call)]);
    assert [StartApprove(call), TryCreate(call, id, ""), Stop(call)]
      == [StartApprove(call)] + ([TryCreate(call, id, "")] + [Stop(call)]);
    StepKeepsInv(req, s, StartApprove(call));
    StepKeepsInv(req, s1, TryCreate(call, id, ""));
    StoppedApprovalIsFinal(req, s2, call);
  }

  // ---- what a rejection leaves under way ------------------------------------------

  /**
   Deciding is guarded, creating is not: a rejection that overtakes an
   approval leaves the approval's account behind, active and a student.
   */
  lemma RejectionLeavesAccount(req: Request, s: State, approve: CallId, reject: CallId, id: AccountId)
    requires Fresh(s) && approve != reject && id !in s.accounts && !EmailHeld(s.accounts, req.hashUnder(s.key))
    requires req.normalize(req.username).Some? && !UsernameHeld(s.accounts, req.normalize(req.username).value)
    ensures var s1 := Next(req, s, StartApprove(approve));
      var s2 := Next(req, s1, StartReject(reject));
      Enabled(s2, TryCreate(approve, id, "")) &&
      var s3 := Next(req, s2, TryCreate(approve, id, ""));
      Enabled(s3, DecideRejected(reject)) &&
      var s4 := Next(req, s3, DecideRejected(reject));
      Enabled(s4, Mark(approve)) &&
      var s5 := Next(req, s4, Mark(approve));
      s5.status == Rejected && id in s5.accounts && s5.accounts[id].active && s5.accounts[id].student
  {
  }

  /** No account was created for the application, and no call is left that could. */
  ghost predicate Barren(req: Request, s: State) {
    s.status == Rejected && s.created == map[] && !SomeCallCanCreate(req, s)
  }

  lemma StepStaysBarren(req: Request, s: State, step: Step)
    requires Barren(req, s) && Enabled(s, step) && !step.Release? && !step.Rekey?
    ensures Barren(req, Next(req, s, step))
  {
    CallsGainNothing(req, s, step);
    if step.TryCreate? {
      RefusedGainsNothing(req, s, step.call, step.id, step.suffix);
    }
  }

  lemma {:induction false} RunStaysBarren(req: Request, s: State, steps: seq<Step>)
    requires Barren(req, s) && CanRun(req, s, steps) && Steady(steps)
    ensures Barren(req, Run(req, s, steps))
    decreases |steps|
  {
    if steps != [] {
      assert steps[0] in steps;
      StepStaysBarren(req, s, steps[0]);
      RunStaysBarren(req, Next(req, s, steps[0]), steps[1..]);
    }
  }

  /** Some steady continuation has an account created for the application. */
  ghost predicate CanHaveAccount(req: Request, s: State) {
    exists steps: seq<Step> :: Steady(steps) && CanRun(req, s, steps) && Run(req, s, steps).created != map[]
  }

  lemma FreeNameCreates(req: Request, s: State, c: CallId, id: AccountId)
    requires c in s.calls && s.calls[c].Naming? && id !in s.accounts
    requires !EmailHeld(s.accounts, req.hashUnder(s.key)) && NameFree(req, s, s.calls[c].username)
    ensures CanRun(req, s, [TryCreate(c, id, "")]) && Run(req, s, [TryCreate(c, id, "")]).created != map[]
  {
    var step := TryCreate(c, id, "");
    RunOne(req, s, step);
    assert id in Next(req, s, step).created;
  }

  lemma CallCreates(req: Request, s: State, c: CallId)
    requires c in s.calls && CanStillCreate(req, s, s.calls[c])
    ensures CanHaveAccount(req, s)
  {
    var id := FreshId(s.accounts.Keys);
    if NameFree(req, s, s.calls[c].username) {
      FreeNameCreates(req, s, c, id);
      assert Steady([TryCreate(c, id, "")]);
    } else {
      var suffix :| NameFree(req, s, RetryName(req, suffix));
      var refused := TryCreate(c, id, suffix);
      var next := Next(req, s, refused);
      FreeNameCreates(req, next, c, id);
      RunCons(req, s, refused, [TryCreate(c, id, "")]);
      assert Steady([refused] + [TryCreate(c, id, "")]);
    }
  }

  /**
   Deciding is guarded, creating is not: after a rejection has committed, some
   steady continuation has an account created for the rejected application
   exactly when one was created already, or an approval is still looking for a
   name, the address is free, and the name it is about to try is valid and
   free, or taken with a further try that can succeed.
   */
  lemma RejectionLeavesAccountExactlyWhen(req: Request, s: State, call: CallId)
    requires Inv(req, s) && s.status == Pending && Enabled(s, DecideRejected(call))
    ensures CanHaveAccount(req, Next(req, s, DecideRejected(call))) <==> s.created != map[] || SomeCallCanCreate(req, s)
  {
    var s' := Next(req, s, DecideRejected(call));
    assert forall c :: c in s.calls && c != call ==> s'.calls[c] == s.calls[c];
    if s.created != map[] {
      assert Run(req, s', []).created != map[] && Steady([]) && CanRun(req, s', []);
    } else if SomeCallCanCreate(req, s) {
      var c :| c in s.calls && CanStillCreate(req, s, s.calls[c]);
      SameCallCreates(req, s, s', s.calls[c]);
      CallCreates(req, s', c);
    } else {
      forall c | c in s'.calls ensures !CanStillCreate(req, s', s'.calls[c]) {
        if c != call && CanStillCreate(req, s', s'.calls[c]) {
          SameCallCreates(req, s', s, s'.calls[c]);
        }
      }
      forall steps: seq<Step> | Steady(steps) && CanRun(req, s', steps) ensures Run(req, s', steps).created == map[] {
        RunStaysBarren(req, s', steps);
      }
    }
  }

  /**
   The column compares keyed hashes: an approval under a new lookup key creates
   a second account for the address, while the first one still has it.
   */
  lemma NewKeyNewAccount(req: Request, s: State, first: CallId, second: CallId, i: AccountId, j: AccountId,
                         suffix: string, key: nat)
    requires Fresh(s) && first != second && i != j && i !in s.accounts && j !in s.accounts
    requires req.hashUnder(key) != req.hashUnder(s.key)
    requires !EmailHeld(s.accounts, req.hashUnder(s.key)) && !EmailHeld(s.accounts, req.hashUnder(key))
    requires req.normalize(req.username).Some? && !UsernameHeld(s.accounts, req.normalize(req.username).value)
    requires req.normalize(RetryName(req, suffix)).Some?
      && req.normalize(RetryName(req, suffix)) != req.normalize(req.username)
    requires !UsernameHeld(s.accounts, req.normalize(RetryName(req, suffix)).value)
    ensures var s1 := Next(req, Next(req, s, StartApprove(first)), StartApprove(second));
      Enabled(s1, TryCreate(first, i, "")) &&
      var s2 := Next(req, Next(req, s1, TryCreate(first, i, "")), Rekey(key));
      Enabled(s2, TryCreate(second, j, suffix)) &&
      var s3 := Next(req, s2, TryCreate(second, j, suffix));
      Enabled(s3, TryCreate(second, j, "")) &&
      var s4 := Next(req, s3, TryCreate(second, j, ""));
      i in s4.created && j in s4.created && i !in s4.released && j !in s4.released
  {
    var s1 := Next(req, Next(req, s, StartApprove(first)), StartApprove(second));
    var s2 := Next(req, Next(req, s1, TryCreate(first, i, "")), Rekey(key));
    assert i in s2.accounts && s2.accounts[i].username == req.normalize(req.username).value;
    var s3 := Next(req, s2, TryCreate(second, j, suffix));
    assert s3.calls[second] == Naming(1, RetryName(req, suffix));
    assert s3.accounts == s2.accounts;
    var account := Account(req.normalize(req.username).value, req.hashUnder(s.key), true, false);
    assert s2.accounts == s.accounts[i := account];
  }

  // ---- the calls, statement by statement ------------------------------------

  class Service {
    var status: Status
    var account: Option<AccountId>
    var accounts: map<AccountId, Account>
    var key: nat

    constructor (existing: map<AccountId, Account>, key: nat)
      ensures status == Pending && account.None? && accounts == existing && this.key == key
    {
      status, account, accounts := Pending, None, existing;
      this.key := key;
    }

    /** The machine's state with one call, `call`, standing at `progress`. */
    ghost function At(call: CallId, progress: Call): State
      reads this
    {
      State(status, account, accounts, map[call := progress], key, map[], {}, {})
    }

    /** CreateApprovedAccount: the two UNIQUE columns decide, as in the machine's TryCreate. */
    method CreateApprovedAccount(req: Request, username: string, id: AccountId) returns (error: Option<Failure>)
      requires id !in accounts
      modifies `accounts
      ensures error == Some(InvalidInput) <==> !req.validEmail || req.normalizeUsername(username).None?
      ensures req.normalize(username).None? <==> error == Some(InvalidInput)
      ensures error.None? ==> id in accounts && accounts[id].username == req.normalizeUsername(username).value
      ensures req.normalize(username).Some? ==>
        (error == Some(Conflict) <==>
           EmailHeld(old(accounts), req.hashUnder(key)) || UsernameHeld(old(accounts), req.normalize(username).value))
      ensures error.Some? ==> error.value in {InvalidInput, Conflict} && accounts == old(accounts)
      ensures error.None? ==>
        accounts == old(accounts)[id := Account(req.normalize(username).value, req.hashUnder(key), true, false)]
      ensures forall c: CallId, n: nat, suffix: string ::
        var next := AfterTry(req, old(At(c, Naming(n, username))), c, id, suffix);
        accounts == next.accounts && (error.None? <==> next.calls[c] == Created(id))
    {
      var name := req.normalize(username);
      if name.None? {
        return Some(InvalidInput);
      }
      if exists i ::
        i in accounts && (accounts[i].emailHash == req.hashUnder(key) || accounts[i].username == name.value) {
        return Some(Conflict);
      }
      accounts := accounts[id := Account(name.value, req.hashUnder(key), true, false)];
      return None;
    }

    method MarkAccountIdentityVerified(ghost req: Request, id: AccountId) returns (ok: bool)
      modifies `accounts
      ensures ok <==> id in old(accounts) && old(accounts)[id].active
      ensures accounts == if ok then old(accounts)[id := old(accounts)[id].(student := true)] else old(accounts)
      ensures forall c: CallId ::
        var next := Next(req, old(At(c, Created(id))), Step.Mark(c));
        accounts == next.accounts && (ok <==> next.calls[c] == Marked(id))
    {
      ok := id in accounts && accounts[id].active;
      if ok {
        accounts := accounts[id := accounts[id].(student := true)];
      }
    }

    /** One guarded UPDATE: only a pending application can be decided. */
    method Decide(decision: Status, id: Option<AccountId>) returns (ok: bool)
      requires decision != Pending
      modifies `status, `account
      ensures ok <==> old(status) == Pending
      ensures status == (if ok then decision else old(status)) && account == if ok then id else old(account)
    {
      ok := status == Pending;
      if ok {
        status, account := decision, id;
      }
    }

    /** The name tried at each attempt: the requested one first, then one with a random suffix. */
    ghost function NameAt(req: Request, suffixes: nat -> string, attempt: nat): string {
      if attempt == 0 then req.username else req.username + "-" + suffixes(attempt - 1)
    }

    /** The attempt failed on one of the UNIQUE columns. */
    ghost predicate Refused(req: Request, suffixes: nat -> string, attempt: nat)
      reads this
    {
      var name := req.normalize(NameAt(req, suffixes, attempt));
      name.Some? && (EmailHeld(accounts, req.hashUnder(key)) || UsernameHeld(accounts, name.value))
    }

    /**
     Up to five names; then mark and decide. Undisturbed it approves exactly
     when one of the five names is valid and free before any invalid one, and
     the address is free.
     */
    method Approve(req: Request, id: AccountId, suffixes: nat -> string)
      returns (error: Option<Failure>, ghost tried: nat)
      requires id !in accounts
      modifies `status, `account, `accounts
      ensures old(status) != Pending ==> error == Some(AlreadyDecided)
      ensures error.Some? ==> status == old(status) && account == old(account) && accounts == old(accounts)
      ensures old(status) == Pending ==>
        tried <= 5 && forall k :: 0 <= k < tried ==> old(Refused(req, suffixes, k))
      ensures old(status) == Pending ==>
        (error == Some(Conflict) <==> tried == 5)
        && (error == Some(InvalidInput) ==> tried < 5 && req.normalize(NameAt(req, suffixes, tried)).None?)
        && (error.Some? ==> error.value in {Conflict, InvalidInput})
      ensures error.None? ==> old(status) == Pending && status == Approved && account == Some(id) && tried < 5
      ensures error.None? ==> req.normalize(NameAt(req, suffixes, tried)).Some? && !old(Refused(req, suffixes, tried))
      ensures error.None? ==>
        accounts == old(accounts)[id :=
          Account(req.normalize(NameAt(req, suffixes, tried)).value, req.hashUnder(key), true, true)]
    {
      tried := 0;
      if status != Pending {
        return Some(AlreadyDecided), tried;
      }
      var username := req.username;
      var attempt := 0;
      while attempt < ATTEMPTS
        invariant attempt <= ATTEMPTS && tried == attempt
        invariant attempt < ATTEMPTS ==> username == NameAt(req, suffixes, attempt)
        invariant accounts == old(accounts) && status == Pending && account == old(account)
        invariant forall k :: 0 <= k < attempt ==> old(Refused(req, suffixes, k))
      {
        error := CreateApprovedAccount(req, username, id);
        if error.None? {
          break;
        }
        if error != Some(Conflict) {
          return;
        }
        username := RetryName(req, suffixes(attempt));
        attempt, tried := attempt + 1, tried + 1;
      }
      if attempt == ATTEMPTS {
        return Some(Conflict), tried;
      }
      var verified := MarkAccountIdentityVerified(req, id);
      var decided := Decide(Approved, Some(id));
      return None, tried;
    }

    method Reject() returns (error: Option<Failure>)
      modifies `status, `account
      ensures error.None? <==> old(status) == Pending
      ensures error.None? ==> status == Rejected && account.None?
      ensures error.Some? ==> status == old(status) && account == old(account)
    {
      if status != Pending {
        return Some(AlreadyDecided);
      }
      var decided := Decide(Rejected, None);
      return None;
    }
  }
}
