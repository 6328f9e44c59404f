/**
 Administrator MFA of `auth/mfa.go` for one account. Every service call reads
 the record and checks a code against the secret it read, and only then issues
 its guarded write, so calls interleave between those two points. Ciphertexts
 are represented by the secrets they open to.
 */
module AdminMfa {
  import opened Wrappers
  import opened Text
  import opened Totp

  type Time = int

  datatype Record = Record(secret: Bytes, enabled: Option<Time>, pendingUntil: Option<Time>, verified: Option<Time>)

  datatype Kind = Enabling | Verifying | Disabling

  /** A code that has passed against the secret its call read, at the clock reading of the check. */
  datatype Check = Check(kind: Kind, secret: Bytes, code: string, at: Time)

  /**
   `passed` holds every check that ever passed, `stamp` the one whose write last
   set the record's verification time.
   */
  datatype State = State(record: Option<Record>, underway: multiset<Check>, passed: set<Check>, stamp: Option<Check>)

  const FRESH := State(None, multiset{}, {}, None)

  datatype Step =
    | Save(secret: Bytes, until: Time)
    | Pass(check: Check)
    | Write(check: Check, now: Time)

  predicate IsEnabled(record: Option<Record>) {
    record.Some? && record.value.enabled.Some?
  }

  /** What each call demands of the record it reads before it looks at the code. */
  predicate Admits(record: Option<Record>, kind: Kind, now: Time) {
    record.Some? &&
    match kind
    case Enabling => record.value.enabled.None? && record.value.pendingUntil.Some?
      && record.value.pendingUntil.value > now
    case Verifying => record.value.enabled.Some?
    case Disabling => record.value.enabled.Some?
  }

  ghost predicate CanPass(mac: Mac, s: State, check: Check) {
    && Admits(s.record, check.kind, check.at) && check.secret == s.record.value.secret
    && Accepts(mac, check.secret, check.code, check.at)
  }

  /** SaveAdminMFASecret: insert, or replace a record that is not enabled. */
  function SavedRecord(record: Option<Record>, secret: Bytes, until: Time): Option<Record> {
    match record
    case None => Some(Record(secret, None, Some(until), None))
    case Some(r) => if r.enabled.Some? then record else Some(Record(secret, None, Some(until), r.verified))
  }

  /**
   EnableAdminMFA, TouchAdminMFAVerified and DisableAdminMFA of the store: guarded by
   enabled_at, never by the secret.
   */
  function WrittenRecord(record: Option<Record>, kind: Kind, now: Time): Option<Record> {
    match (kind, record)
    case (_, None) => None
    case (Enabling, Some(r)) =>
      if r.enabled.Some? then record else Some(Record(r.secret, Some(now), None, Some(now)))
    case (Verifying, Some(r)) => if r.enabled.Some? then Some(r.(verified := Some(now))) else record
    case (Disabling, Some(_)) => None
  }

  /** The guard of the write lets it set the record's verification time. */
  predicate Lands(record: Option<Record>, kind: Kind) {
    && record.Some?
    && ((kind.Enabling? && record.value.enabled.None?) || (kind.Verifying? && record.value.enabled.Some?))
  }

  ghost predicate CanStep(mac: Mac, s: State, step: Step) {
    match step
    case Save(_, _) => true
    case Pass(check) => CanPass(mac, s, check)
    case Write(check, now) => check in s.underway && now >= check.at
  }

  ghost function Next(s: State, step: Step): State {
    match step
    case Save(secret, until) => s.(record := SavedRecord(s.record, secret, until))
    case Pass(check) => s.(underway := s.underway + multiset{check}, passed := s.passed + {check})
    case Write(check, now) =>
      State(WrittenRecord(s.record, check.kind, now), s.underway - multiset{check}, s.passed,
            if Lands(s.record, check.kind) then Some(check) else s.stamp)
  }

  ghost predicate CanRun(mac: Mac, s: State, steps: seq<Step>)
    decreases |steps|
  {
    steps == [] || (CanStep(mac, s, steps[0]) && CanRun(mac, Next(s, steps[0]), steps[1..]))
  }

  ghost function Run(s: State, steps: seq<Step>): State
    decreases |steps|
  {
    if steps == [] then s else Run(Next(s, steps[0]), steps[1..])
  }

  /** adminMFAGrantValid: the window a code-less request relies on. */
  predicate GrantValid(ttl: int, record: Record, now: Time) {
    ttl > 0 && record.verified.Some? && now - record.verified.value < ttl
  }

  // ---- what always holds --------------------------------------------------

  /**
   An enabled record's verification time was written by a call that accepted a code of the
   record's present secret.
   */
  ghost predicate GrantsBacked(mac: Mac, s: State) {
    IsEnabled(s.record) ==>
      && s.stamp.Some? && s.stamp.value.secret == s.record.value.secret
      && Accepts(mac, s.record.value.secret, s.stamp.value.code, s.stamp.value.at)
  }

  ghost predicate ChecksPassed(mac: Mac, s: State) {
    forall check :: check in s.underway ==> Accepts(mac, check.secret, check.code, check.at)
  }

  /** A record that is not enabled carries no verification time, an enabled one carries the stamp's. */
  predicate Stamped(s: State) {
    s.record.Some? ==>
      if s.record.value.enabled.None? then s.record.value.verified.None?
      else s.stamp.Some? && s.record.value.verified.Some? && s.stamp.value.at <= s.record.value.verified.value
  }

  ghost predicate Inv(mac: Mac, s: State) {
    Stamped(s) && ChecksPassed(mac, s)
  }

  lemma StepKeepsChecks(mac: Mac, s: State, step: Step)
    requires ChecksPassed(mac, s) && CanStep(mac, s, step)
    ensures ChecksPassed(mac, Next(s, step))
  {
    forall check | check in Next(s, step).underway
      ensures Accepts(mac, check.secret, check.code, check.at)
    {
      if check !in s.underway {
        assert step.Pass? && step.check == check;
      }
    }
  }

  lemma StepKeepsStamped(s: State, step: Step)
    requires Stamped(s) && (step.Write? ==> step.check.at <= step.now)
    ensures Stamped(Next(s, step))
  {
  }

  lemma StepKeepsInv(mac: Mac, s: State, step: Step)
    requires Inv(mac, s) && CanStep(mac, s, step)
    ensures Inv(mac, Next(s, step))
  {
    StepKeepsChecks(mac, s, step);
    StepKeepsStamped(s, step);
  }

  lemma {:induction false} RunKeepsInv(mac: Mac, s: State, steps: seq<Step>)
    requires Inv(mac, s) && CanRun(mac, s, steps)
    ensures Inv(mac, Run(s, steps))
    decreases |steps|
  {
    if steps != [] {
      StepKeepsInv(mac, s, steps[0]);
      RunKeepsInv(mac, Next(s, steps[0]), steps[1..]);
    }
  }

  ghost predicate Disables(step: Step) {
    step.Write? && step.check.kind.Disabling?
  }

  lemma StepKeepsSecret(s: State, step: Step)
    requires IsEnabled(s.record)
    ensures if Disables(step) then Next(s, step).record.None?
      else IsEnabled(Next(s, step).record) && Next(s, step).record.value.secret == s.record.value.secret
  {
  }

  /** Whatever setups and codes come along, an enabled secret stays until a disabling write removes the record. */
  lemma {:induction false} EnabledSecretIsKept(s: State, steps: seq<Step>)
    requires IsEnabled(s.record) && forall step :: step in steps ==> !Disables(step)
    ensures IsEnabled(Run(s, steps).record) && Run(s, steps).record.value.secret == s.record.value.secret
    decreases |steps|
  {
    if steps != [] {
      assert steps[0] in steps;
      StepKeepsSecret(s, steps[0]);
      EnabledSecretIsKept(Next(s, steps[0]), steps[1..]);
    }
  }

  // ---- the grant window ---------------------------------------------------

  /**
   A landing write sets the time and the stamp and keeps the secret; every other step keeps an
   enabled record, if it stays.
   */
  lemma StepEffect(s: State, step: Step)
    ensures var s' := Next(s, step);
      if step.Write? && Lands(s.record, step.check.kind) then
        IsEnabled(s'.record) && s'.record.value.secret == s.record.value.secret
        && s'.record.value.verified == Some(step.now) && s'.stamp == Some(step.check)
      else IsEnabled(s'.record) ==> s'.record == s.record && s'.stamp == s.stamp
    ensures !(step.Write? && step.check.kind.Disabling?) && IsEnabled(s.record) ==> IsEnabled(Next(s, step).record)
  {
  }

  /** The write lands on a record whose secret is not the one its code was checked against. */
  predicate Misses(s: State, step: Step) {
    step.Write? && Lands(s.record, step.check.kind) && step.check.secret != s.record.value.secret
  }

  /**
   A step leaves grants backed exactly when it does not stamp a record whose
   secret changed since its code was checked.
   */
  lemma GrantsStayBackedUnlessMissed(mac: Mac, s: State, step: Step)
    requires Inv(mac, s) && GrantsBacked(mac, s) && CanStep(mac, s, step)
    ensures GrantsBacked(mac, Next(s, step)) <==> !Misses(s, step)
  {
    StepEffect(s, step);
    if step.Write? {
      assert Accepts(mac, step.check.secret, step.check.code, step.check.at);
    }
  }

  ghost predicate NoMiss(s: State, steps: seq<Step>)
    decreases |steps|
  {
    steps == [] || (!Misses(s, steps[0]) && NoMiss(Next(s, steps[0]), steps[1..]))
  }

  ghost predicate BackedThroughout(mac: Mac, s: State, steps: seq<Step>)
    decreases |steps|
  {
    GrantsBacked(mac, s) && (steps != [] ==> BackedThroughout(mac, Next(s, steps[0]), steps[1..]))
  }

  /** Over every run, grants are backed at every moment exactly when no write misses. */
  lemma {:induction false} BackedExactlyWhenNoMiss(mac: Mac, s: State, steps: seq<Step>)
    requires Inv(mac, s) && GrantsBacked(mac, s) && CanRun(mac, s, steps)
    ensures BackedThroughout(mac, s, steps) <==> NoMiss(s, steps)
    decreases |steps|
  {
    if steps != [] {
      var next := Next(s, steps[0]);
      StepKeepsInv(mac, s, steps[0]);
      GrantsStayBackedUnlessMissed(mac, s, steps[0]);
      if GrantsBacked(mac, next) {
        BackedExactlyWhenNoMiss(mac, next, steps[1..]);
      }
    }
  }

  lemma {:induction false} BackedAtTheEnd(mac: Mac, s: State, steps: seq<Step>)
    requires BackedThroughout(mac, s, steps)
    ensures GrantsBacked(mac, Run(s, steps))
    decreases |steps|
  {
    if steps != [] {
      BackedAtTheEnd(mac, Next(s, steps[0]), steps[1..]);
    }
  }

  /** No call takes longer than `delay` from its code check to the clock reading it writes. */
  predicate Prompt(steps: seq<Step>, delay: int) {
    forall step :: step in steps && step.Write? ==> step.now - step.check.at <= delay
  }

  predicate Lags(s: State, delay: int) {
    IsEnabled(s.record) && s.record.value.verified.Some? && s.stamp.Some? ==>
      s.record.value.verified.value - s.stamp.value.at <= delay
  }

  lemma StepStaysPrompt(s: State, step: Step, delay: int)
    requires Stamped(s) && Lags(s, delay) && (step.Write? ==> step.now - step.check.at <= delay)
    ensures Lags(Next(s, step), delay)
  {
  }

  lemma {:induction false} StampIsPrompt(mac: Mac, s: State, steps: seq<Step>, delay: int)
    requires Inv(mac, s) && CanRun(mac, s, steps) && Prompt(steps, delay) && Lags(s, delay)
    ensures Inv(mac, Run(s, steps)) && Lags(Run(s, steps), delay)
    decreases |steps|
  {
    if steps != [] {
      assert steps[0] in steps && forall step :: step in steps[1..] ==> step in steps;
      StepKeepsInv(mac, s, steps[0]);
      StepStaysPrompt(s, steps[0], delay);
      StampIsPrompt(mac, Next(s, steps[0]), steps[1..], delay);
    }
  }

  /**
   In every run without a missed write: when a code-less request passes on the
   grant, a code valid for the stored secret was accepted less than the grant
   TTL before, give or take the time its call took from the check to the clock
   reading it wrote.
   */
  lemma GrantComesFromACode(mac: Mac, steps: seq<Step>, ttl: int, now: Time, delay: int)
    requires CanRun(mac, FRESH, steps) && NoMiss(FRESH, steps) && Prompt(steps, delay)
    requires IsEnabled(Run(FRESH, steps).record) && GrantValid(ttl, Run(FRESH, steps).record.value, now)
    ensures var e := Run(FRESH, steps);
      && e.stamp.Some? && e.stamp.value.secret == e.record.value.secret
      && Accepts(mac, e.record.value.secret, e.stamp.value.code, e.stamp.value.at)
      && now - e.stamp.value.at < ttl + delay
  {
    BackedExactlyWhenNoMiss(mac, FRESH, steps);
    BackedAtTheEnd(mac, FRESH, steps);
    StampIsPrompt(mac, FRESH, steps, delay);
  }

  /** The bound is sharp: a call that takes `delay` stretches the window by as much. */
  lemma SlowCallStretchesGrant(mac: Mac, secret: Bytes, code: string, at: Time, until: Time, ttl: int, delay: nat)
    requires Accepts(mac, secret, code, at) && at < until && ttl > 0
    ensures var check := Check(Enabling, secret, code, at);
      var steps := [Save(secret, until), Pass(check), Write(check, at + delay)];
      CanRun(mac, FRESH, steps) && IsEnabled(Run(FRESH, steps).record)
      && GrantValid(ttl, Run(FRESH, steps).record.value, at + delay + ttl - 1)
  {
    var check := Check(Enabling, secret, code, at);
    var steps := [Save(secret, until), Pass(check), Write(check, at + delay)];
    assert steps[1..][1..][1..] == [];
    var s1 := Next(FRESH, steps[0]);
    assert CanRun(mac, Next(s1, steps[1]), steps[1..][1..]);
    assert CanRun(mac, s1, steps[1..]);
    assert Run(Next(s1, steps[1]), steps[1..][1..]) == Next(Next(s1, steps[1]), steps[2]);
    assert Run(s1, steps[1..]) == Next(Next(s1, steps[1]), steps[2]);
  }

  lemma FourSteps(mac: Mac, s: State, a: Step, b: Step, c: Step, d: Step)
    requires CanStep(mac, s, a)
    requires CanStep(mac, Next(s, a), b)
    requires CanStep(mac, Next(Next(s, a), b), c)
    requires CanStep(mac, Next(Next(Next(s, a), b), c), d)
    ensures CanRun(mac, s, [a, b, c, d]) && Run(s, [a, b, c, d]) == Next(Next(Next(Next(s, a), b), c), d)
  {
    var steps := [a, b, c, d];
    assert steps[1..] == [b, c, d] && [b, c, d][1..] == [c, d] && [c, d][1..] == [d] && [d][1..] == [];
    var s3 := Next(Next(Next(s, a), b), c);
    assert CanRun(mac, s3, [d]) && Run(s3, [d]) == Next(s3, d);
    assert CanRun(mac, Next(Next(s, a), b), [c, d]) && Run(Next(Next(s, a), b), [c, d]) == Next(s3, d);
  }

  // ---- any code of the present secret ----------------------------------------

  /** Some call's code of the secret passed no earlier than `since`. */
  ghost predicate Shown(s: State, secret: Bytes, since: Time) {
    exists check :: check in s.passed && check.secret == secret && check.at >= since
  }

  /**
   Whenever the record's grant would let a code-less request in, a code of its
   present secret was accepted less than the TTL and `delay` before, whichever
   call showed it.
   */
  ghost predicate Honest(s: State, ttl: int, delay: int) {
    IsEnabled(s.record) ==>
      forall now :: GrantValid(ttl, s.record.value, now) ==>
        exists check :: check in s.passed && check.secret == s.record.value.secret && now - check.at < ttl + delay
  }

  /** The latest moment of the grant decides. */
  lemma HonestExactlyWhenShown(s: State, ttl: int, delay: int)
    requires Stamped(s) && ttl > 0 && IsEnabled(s.record)
    ensures Honest(s, ttl, delay) <==> Shown(s, s.record.value.secret, s.record.value.verified.value - delay)
  {
    var r := s.record.value;
    if Honest(s, ttl, delay) {
      assert GrantValid(ttl, r, r.verified.value + ttl - 1);
      var check :| check in s.passed && check.secret == r.secret && r.verified.value + ttl - 1 - check.at < ttl + delay;
    }
  }

  /** The write stamps a record of whose present secret no code was shown in time. */
  ghost predicate StampsUnshown(s: State, step: Step, delay: int) {
    step.Write? && Lands(s.record, step.check.kind) && !Shown(s, s.record.value.secret, step.now - delay)
  }

  lemma ShownStays(s: State, step: Step, secret: Bytes, since: Time)
    requires Shown(s, secret, since)
    ensures Shown(Next(s, step), secret, since)
  {
    var check :| check in s.passed && check.secret == secret && check.at >= since;
    assert check in Next(s, step).passed;
  }

  lemma HonestUnlessUnshown(mac: Mac, s: State, step: Step, ttl: int, delay: int)
    requires Inv(mac, s) && CanStep(mac, s, step) && ttl > 0 && Honest(s, ttl, delay)
    ensures Honest(Next(s, step), ttl, delay) <==> !StampsUnshown(s, step, delay)
  {
    var s' := Next(s, step);
    StepKeepsStamped(s, step);
    StepEffect(s, step);
    if IsEnabled(s.record) {
      HonestExactlyWhenShown(s, ttl, delay);
      ShownStays(s, step, s.record.value.secret, s.record.value.verified.value - delay);
    }
    if IsEnabled(s'.record) {
      HonestExactlyWhenShown(s', ttl, delay);
    }
  }

  ghost predicate NoneUnshown(s: State, steps: seq<Step>, delay: int)
    decreases |steps|
  {
    steps == [] || (!StampsUnshown(s, steps[0], delay) && NoneUnshown(Next(s, steps[0]), steps[1..], delay))
  }

  ghost predicate HonestThroughout(s: State, steps: seq<Step>, ttl: int, delay: int)
    decreases |steps|
  {
    Honest(s, ttl, delay) && (steps != [] ==> HonestThroughout(Next(s, steps[0]), steps[1..], ttl, delay))
  }

  lemma {:induction false} HonestExactlyWhenNoneUnshown(mac: Mac, s: State, steps: seq<Step>, ttl: int, delay: int)
    requires Inv(mac, s) && CanRun(mac, s, steps) && ttl > 0 && Honest(s, ttl, delay)
    ensures HonestThroughout(s, steps, ttl, delay) <==> NoneUnshown(s, steps, delay)
    decreases |steps|
  {
    if steps != [] {
      StepKeepsInv(mac, s, steps[0]);
      HonestUnlessUnshown(mac, s, steps[0], ttl, delay);
      if Honest(Next(s, steps[0]), ttl, delay) {
        HonestExactlyWhenNoneUnshown(mac, Next(s, steps[0]), steps[1..], ttl, delay);
      }
    }
  }

  // ---- the same in terms of the schedule --------------------------------------

  /** The record after the saves and writes of a run. */
  function RecordAfter(record: Option<Record>, steps: seq<Step>): Option<Record>
    decreases |steps|
  {
    if steps == [] then record
    else
      var next := match steps[0]
        case Save(secret, until) => SavedRecord(record, secret, until)
        case Pass(_) => record
        case Write(check, now) => WrittenRecord(record, check.kind, now);
      RecordAfter(next, steps[1..])
  }

  /** A code of the secret is accepted among these steps, or was among `passed`, no earlier than `since`. */
  ghost predicate ShownBy(passed: set<Check>, steps: seq<Step>, secret: Bytes, since: Time) {
    exists check :: (check in passed || Pass(check) in steps) && check.secret == secret && check.at >= since
  }

  /**
   If step j writes a verification time, a code of the secret then stored is
   accepted before it, no more than `delay` before the time it writes.
   */
  ghost predicate WrittenInTime(record: Option<Record>, passed: set<Check>, steps: seq<Step>, j: nat, delay: int)
    requires j < |steps|
  {
    var present := RecordAfter(record, steps[..j]);
    steps[j].Write? && Lands(present, steps[j].check.kind) ==>
      ShownBy(passed, steps[..j], present.value.secret, steps[j].now - delay)
  }

  ghost predicate EachWrittenInTime(record: Option<Record>, passed: set<Check>, steps: seq<Step>, delay: int) {
    forall j :: 0 <= j < |steps| ==> WrittenInTime(record, passed, steps, j, delay)
  }

  lemma ShownAfterStep(s: State, steps: seq<Step>, secret: Bytes, since: Time)
    requires steps != []
    ensures ShownBy(s.passed, steps, secret, since)
      <==> ShownBy(Next(s, steps[0]).passed, steps[1..], secret, since)
  {
    var next := Next(s, steps[0]);
    assert forall check :: Pass(check) in steps <==> Pass(check) == steps[0] || Pass(check) in steps[1..];
    assert forall check :: check in next.passed <==> check in s.passed || Pass(check) == steps[0];
    if check :| (check in s.passed || Pass(check) in steps) && check.secret == secret && check.at >= since {
      assert check in next.passed || Pass(check) in steps[1..];
    }
    if check :| (check in next.passed || Pass(check) in steps[1..]) && check.secret == secret && check.at >= since {
      assert check in s.passed || Pass(check) in steps;
    }
  }

  lemma InTimeAfterStep(s: State, steps: seq<Step>, j: nat, delay: int)
    requires 0 < j < |steps|
    ensures WrittenInTime(s.record, s.passed, steps, j, delay)
      <==> WrittenInTime(Next(s, steps[0]).record, Next(s, steps[0]).passed, steps[1..], j - 1, delay)
  {
    var next := Next(s, steps[0]);
    assert steps[..j][1..] == steps[1..][..j - 1] && steps[..j][0] == steps[0];
    var present := RecordAfter(s.record, steps[..j]);
    assert present == RecordAfter(next.record, steps[1..][..j - 1]);
    if present.Some? && steps[j].Write? {
      ShownAfterStep(s, steps[..j], present.value.secret, steps[j].now - delay);
    }
  }

  lemma {:induction false} NoneUnshownBySchedule(s: State, steps: seq<Step>, delay: int)
    ensures NoneUnshown(s, steps, delay) <==> EachWrittenInTime(s.record, s.passed, steps, delay)
    decreases |steps|
  {
    if steps != [] {
      var next, rest := Next(s, steps[0]), steps[1..];
      NoneUnshownBySchedule(next, rest, delay);
      FirstInTime(s, steps, delay);
      if EachWrittenInTime(s.record, s.passed, steps, delay) {
        assert WrittenInTime(s.record, s.passed, steps, 0, delay);
        forall j | 0 <= j < |rest| ensures WrittenInTime(next.record, next.passed, rest, j, delay) {
          InTimeAfterStep(s, steps, j + 1, delay);
        }
      }
      if EachWrittenInTime(next.record, next.passed, rest, delay) && !StampsUnshown(s, steps[0], delay) {
        forall j | 0 <= j < |steps| ensures WrittenInTime(s.record, s.passed, steps, j, delay) {
          if j > 0 {
            InTimeAfterStep(s, steps, j, delay);
          }
        }
      }
    }
  }

  lemma FirstInTime(s: State, steps: seq<Step>, delay: int)
    requires steps != []
    ensures WrittenInTime(s.record, s.passed, steps, 0, delay) <==> !StampsUnshown(s, steps[0], delay)
  {
    assert steps[..0] == [];
    if steps[0].Write? && Lands(s.record, steps[0].check.kind) {
      var secret, since := s.record.value.secret, steps[0].now - delay;
      assert ShownBy(s.passed, [], secret, since) <==> Shown(s, secret, since);
    }
  }

  /**
   Over every run of setups, accepted codes and writes, the grant is honest at
   every moment exactly when each write that sets a verification time comes
   after an accepted code of the secret then stored, no more than `delay` before
   the time it writes. It need not be the code of its own call.
   */
  lemma HonestExactlyWhenInTime(mac: Mac, s: State, steps: seq<Step>, ttl: int, delay: int)
    requires Inv(mac, s) && CanRun(mac, s, steps) && ttl > 0 && Honest(s, ttl, delay)
    ensures HonestThroughout(s, steps, ttl, delay) <==> EachWrittenInTime(s.record, s.passed, steps, delay)
  {
    HonestExactlyWhenNoneUnshown(mac, s, steps, ttl, delay);
    NoneUnshownBySchedule(s, steps, delay);
  }

  // ---- what each step gives ---------------------------------------------------

  /** A setup that is let through can be enabled with a code of its secret until it runs out, and no other way. */
  lemma SetupLastsUntil(mac: Mac, s: State, secret: Bytes, until: Time, check: Check)
    requires !IsEnabled(s.record)
    ensures var s' := Next(s, Save(secret, until));
      !IsEnabled(s'.record)
      && (CanPass(mac, s', check) <==>
            check.kind == Enabling && check.secret == secret && check.at < until
            && Accepts(mac, secret, check.code, check.at))
  {
  }

  /** Once enabled, a code of the secret verifies or disables, whenever it is shown, and enables no more. */
  lemma EnabledTakesCodes(mac: Mac, s: State, check: Check)
    requires IsEnabled(s.record)
    ensures CanPass(mac, s, check) <==>
      check.kind != Enabling && check.secret == s.record.value.secret
      && Accepts(mac, check.secret, check.code, check.at)
  {
  }

  /** An enabling write opens a grant of the TTL from the time it writes, a verifying one renews it. */
  lemma WriteOpensGrant(s: State, check: Check, now: Time, ttl: int, later: Time)
    requires s.record.Some?
    requires if check.kind.Enabling? then !IsEnabled(s.record) else check.kind.Verifying? && IsEnabled(s.record)
    ensures var s' := Next(s, Write(check, now));
      IsEnabled(s'.record) && s'.record.value.secret == s.record.value.secret
      && (check.kind.Enabling? ==> s'.record.value.pendingUntil.None?)
      && (GrantValid(ttl, s'.record.value, later) <==> ttl > 0 && later < now + ttl)
  {
  }

  /** A disabling write leaves no record, and a verifying one changes none that is not enabled. */
  lemma OtherWrites(s: State, check: Check, now: Time)
    ensures check.kind.Disabling? ==> Next(s, Write(check, now)).record.None?
    ensures check.kind.Verifying? && !IsEnabled(s.record) ==> Next(s, Write(check, now)).record == s.record
    ensures check.kind.Enabling? && IsEnabled(s.record) ==> Next(s, Write(check, now)).record == s.record
  {
  }

  // ---- calls that do not overlap -------------------------------------------

  /** Each call's write follows its check at once. */
  ghost predicate Sequential(steps: seq<Step>)
    decreases |steps|
  {
    if steps == [] then true
    else if steps[0].Save? then Sequential(steps[1..])
    else |steps| >= 2 && steps[0].Pass? && steps[1].Write? && steps[1].check == steps[0].check && Sequential(steps[2..])
  }

  lemma {:induction false} SequentialCallsNeverMiss(mac: Mac, s: State, steps: seq<Step>)
    requires Sequential(steps) && CanRun(mac, s, steps)
    ensures NoMiss(s, steps)
    decreases |steps|
  {
    if steps != [] {
      if steps[0].Save? {
        SequentialCallsNeverMiss(mac, Next(s, steps[0]), steps[1..]);
      } else {
        var mid := Next(s, steps[0]);
        assert steps[1..][0] == steps[1] && steps[1..][1..] == steps[2..];
        assert !Misses(mid, steps[1]);
        SequentialCallsNeverMiss(mac, Next(mid, steps[1]), steps[2..]);
      }
    }
  }

  /**
   Two overlapping setups miss: a code of the first secret enables the second
   one, and code-less requests then pass on a secret no code was ever shown for.
   */
  lemma OverlappingSetupsMiss(mac: Mac, first: Bytes, second: Bytes, code: string, at: Time, until: Time, ttl: int)
    requires first != second && Accepts(mac, first, code, at) && at < until && ttl > 0
    ensures var check := Check(Enabling, first, code, at);
      var steps := [Save(first, until), Pass(check), Save(second, until), Write(check, at)];
      && CanRun(mac, FRESH, steps)
      && IsEnabled(Run(FRESH, steps).record) && Run(FRESH, steps).record.value.secret == second
      && GrantValid(ttl, Run(FRESH, steps).record.value, at)
      && forall step :: step in steps && step.Pass? ==> step.check.secret != second
  {
    var check := Check(Enabling, first, code, at);
    FourSteps(mac, FRESH, Save(first, until), Pass(check), Save(second, until), Write(check, at));
  }

  /**
   A setup that read the record before another call enabled it saves nothing,
   and answers its caller with a secret that is not the one in force.
   */
  lemma LateSetupIsLost(mac: Mac, first: Bytes, second: Bytes, code: string, at: Time, until: Time)
    requires first != second && Accepts(mac, first, code, at) && at < until
    ensures var check := Check(Enabling, first, code, at);
      var steps := [Save(first, until), Pass(check), Write(check, at), Save(second, until)];
      && !IsEnabled(Run(FRESH, steps[..2]).record)
      && CanRun(mac, FRESH, steps)
      && IsEnabled(Run(FRESH, steps).record) && Run(FRESH, steps).record.value.secret == first
  {
    var check := Check(Enabling, first, code, at);
    var steps := [Save(first, until), Pass(check), Write(check, at), Save(second, until)];
    FourSteps(mac, FRESH, Save(first, until), Pass(check), Write(check, at), Save(second, until));
    assert steps[..2][1..] == [Pass(check)] && [Pass(check)][1..] == [];
    assert Run(Next(FRESH, steps[0]), [Pass(check)]) == Next(Next(FRESH, steps[0]), Pass(check));
  }

  // ---- the service calls --------------------------------------------------

  datatype MfaError = AdminRequired | MfaRequired | MfaInvalid | MfaConflict | RateLimited

  /**
   One account's record and the calls on it. `limited` is the local failure
   limiter's answer before the code is looked at, `spent` the distributed one's
   after a wrong code; `ttl` is the configured grant.
   */
  class Service {
    var record: Option<Record>
    ghost var log: State

    ghost predicate Valid()
      reads this
    {
      log.record == record
    }

    constructor ()
      ensures Valid() && log == FRESH
    {
      record, log := None, FRESH;
    }

    method VerifyAdminTOTP(mac: Mac, secret: Bytes, code: string, now: Time, limited: bool, spent: bool)
      returns (err: Option<MfaError>)
      requires mac.Sha1()
      ensures err.None? <==> !limited && Accepts(mac, secret, code, now)
      ensures err.Some? ==> err.value == if limited || spent then RateLimited else MfaInvalid
    {
      if limited {
        return Some(RateLimited);
      }
      var _, ok := VerifyTOTP(mac, secret, code, now);
      if ok {
        return None;
      }
      return Some(if spent then RateLimited else MfaInvalid);
    }

    /** The read of BeginAdminMFA. */
    method CheckSetup(isAdmin: bool) returns (err: Option<MfaError>)
      ensures err == if !isAdmin then Some(AdminRequired) else if IsEnabled(record) then Some(MfaConflict) else None
    {
      if !isAdmin {
        return Some(AdminRequired);
      }
      if record.Some? && record.value.enabled.Some? {
        return Some(MfaConflict);
      }
      return None;
    }

    /** The guarded upsert; it reports no error when its guard leaves the record alone. */
    method SaveAdminMFASecret(secret: Bytes, until: Time)
      requires Valid()
      modifies this
      ensures Valid() && log == Next(old(log), Save(secret, until))
      ensures IsEnabled(old(record)) ==> record == old(record)
    {
      if record.None? || record.value.enabled.None? {
        var kept := if record.Some? then record.value.verified else None;
        record := Some(Record(secret, None, Some(until), kept));
      }
      log := Next(log, Save(secret, until));
    }

    /**
     The read and the save are two calls; `others` is what other calls did to
     the record between them. The answer tells nothing of whether the save was
     let through.
     */
    method BeginAdminMFA(mac: Mac, isAdmin: bool, secret: Bytes, until: Time, others: Option<Record>,
                         ghost steps: seq<Step>)
      returns (err: Option<MfaError>)
      requires Valid() && CanRun(mac, log, steps) && Run(log, steps).record == others
      modifies this
      ensures Valid() && (err.None? <==> isAdmin && !IsEnabled(old(record)))
      ensures log == if err.None? then Next(Run(old(log), steps), Save(secret, until)) else old(log)
      ensures err.None? ==> (record.Some? && record.value.secret == secret && record.value.enabled.None?)
                            || (IsEnabled(others) && record == others)
    {
      err := CheckSetup(isAdmin);
      if err.None? {
        record, log := others, Run(log, steps);
        SaveAdminMFASecret(secret, until);
      }
    }

    method EnableAdminMFA(mac: Mac, isAdmin: bool, code: string, now: Time, later: Time, limited: bool, spent: bool)
      returns (err: Option<MfaError>)
      requires Valid() && mac.Sha1() && now <= later
      modifies this
      ensures Valid()
      ensures err.None? <==> isAdmin && !limited && Admits(old(record), Enabling, now)
                             && Accepts(mac, old(record).value.secret, code, now)
      ensures !isAdmin ==> err == Some(AdminRequired)
      ensures isAdmin && !Admits(old(record), Enabling, now) ==>
        err == Some(if IsEnabled(old(record)) then MfaConflict else MfaRequired)
      ensures isAdmin && Admits(old(record), Enabling, now) && err.Some? ==>
        err.value == if limited || spent then RateLimited else MfaInvalid
      ensures err.None? ==> var check := Check(Enabling, old(record).value.secret, code, now);
        CanPass(mac, old(log), check) && log == Next(Next(old(log), Pass(check)), Write(check, later))
      ensures err.Some? ==> log == old(log)
    {
      if !isAdmin {
        return Some(AdminRequired);
      }
      if record.None? {
        return Some(MfaRequired);
      }
      var r := record.value;
      if r.enabled.Some? {
        return Some(MfaConflict);
      }
      if r.pendingUntil.None? || r.pendingUntil.value <= now {
        return Some(MfaRequired);
      }
      err := VerifyAdminTOTP(mac, r.secret, code, now, limited, spent);
      if err.None? {
        ghost var check := Check(Enabling, r.secret, code, now);
        record := Some(Record(r.secret, Some(later), None, Some(later)));
        log := Next(Next(log, Pass(check)), Write(check, later));
      }
    }

    /** Returns when the grant expires, which is at once when grants are off. */
    method VerifyAdminMFA(mac: Mac, isAdmin: bool, code: string, now: Time, later: Time, limited: bool, spent: bool,
                          ttl: int)
      returns (expires: Time, err: Option<MfaError>)
      requires Valid() && mac.Sha1() && now <= later
      modifies this
      ensures Valid()
      ensures err.None? <==> isAdmin && !limited && Admits(old(record), Verifying, now)
                             && Accepts(mac, old(record).value.secret, code, now)
      ensures !isAdmin ==> err == Some(AdminRequired)
      ensures isAdmin && !IsEnabled(old(record)) ==> err == Some(MfaRequired)
      ensures isAdmin && IsEnabled(old(record)) && err.Some? ==>
        err.value == if limited || spent then RateLimited else MfaInvalid
      ensures err.None? ==> var check := Check(Verifying, old(record).value.secret, code, now);
        CanPass(mac, old(log), check) && log == Next(Next(old(log), Pass(check)), Write(check, later))
      ensures err.None? ==> forall t :: later <= t ==> (t < expires <==> GrantValid(ttl, record.value, t))
      ensures err.Some? ==> log == old(log)
    {
      expires := 0;
      if !isAdmin {
        return expires, Some(AdminRequired);
      }
      if record.None? || record.value.enabled.None? {
        return expires, Some(MfaRequired);
      }
      var r := record.value;
      err := VerifyAdminTOTP(mac, r.secret, code, now, limited, spent);
      if err.None? {
        ghost var check := Check(Verifying, r.secret, code, now);
        record := Some(r.(verified := Some(later)));
        log := Next(Next(log, Pass(check)), Write(check, later));
        expires := if ttl <= 0 then later else later + ttl;
      }
    }

    method DisableAdminMFA(mac: Mac, isAdmin: bool, code: string, now: Time, later: Time, limited: bool, spent: bool)
      returns (err: Option<MfaError>)
      requires Valid() && mac.Sha1() && now <= later
      modifies this
      ensures Valid()
      ensures err.None? <==> isAdmin && !limited && Admits(old(record), Disabling, now)
                             && Accepts(mac, old(record).value.secret, code, now)
      ensures !isAdmin ==> err == Some(AdminRequired)
      ensures isAdmin && !IsEnabled(old(record)) ==> err == Some(MfaRequired)
      ensures isAdmin && IsEnabled(old(record)) && err.Some? ==>
        err.value == if limited || spent then RateLimited else MfaInvalid
      ensures err.None? ==> record.None? && var check := Check(Disabling, old(record).value.secret, code, now);
        CanPass(mac, old(log), check) && log == Next(Next(old(log), Pass(check)), Write(check, later))
      ensures err.Some? ==> log == old(log)
    {
      if !isAdmin {
        return Some(AdminRequired);
      }
      if record.None? || record.value.enabled.None? {
        return Some(MfaRequired);
      }
      var secret := record.value.secret;
      err := VerifyAdminTOTP(mac, secret, code, now, limited, spent);
      if err.None? {
        ghost var check := Check(Disabling, secret, code, now);
        record := None;
        log := Next(Next(log, Pass(check)), Write(check, later));
      }
    }

    /**
     A code-less request of an enabled account passes on the grant alone; one with a code needs
     it accepted and renews the grant.
     */
    method RequireAdminMFA(mac: Mac, isService: bool, required: bool, code: string, now: Time, later: Time,
                           limited: bool, spent: bool, ttl: int)
      returns (err: Option<MfaError>)
      requires Valid() && mac.Sha1() && now <= later
      modifies this
      ensures Valid()
      ensures isService ==> err.None? && log == old(log)
      ensures !isService && !IsEnabled(old(record)) ==> (err.None? <==> !required) && log == old(log)
      ensures !isService && IsEnabled(old(record)) && Trim(code) == "" ==>
        (err.None? <==> GrantValid(ttl, old(record).value, now)) && log == old(log)
      ensures !isService && IsEnabled(old(record)) && Trim(code) != "" ==>
        (err.None? <==> !limited && Accepts(mac, old(record).value.secret, code, now))
      ensures !isService && IsEnabled(old(record)) && Trim(code) != "" && err.None? && ttl > 0 ==>
        var check := Check(Verifying, old(record).value.secret, code, now);
        CanPass(mac, old(log), check) && log == Next(Next(old(log), Pass(check)), Write(check, later))
      ensures err.Some? ==>
        err.value == if !IsEnabled(old(record)) || Trim(code) == "" then MfaRequired
                     else if limited || spent then RateLimited else MfaInvalid
      ensures err.Some? || ttl <= 0 ==> log == old(log)
    {
      if isService {
        return None;
      }
      if record.None? || record.value.enabled.None? {
        return if required then Some(MfaRequired) else None;
      }
      var r := record.value;
      if Trim(code) == "" {
        return if GrantValid(ttl, r, now) then None else Some(MfaRequired);
      }
      err := VerifyAdminTOTP(mac, r.secret, code, now, limited, spent);
      if err.None? && ttl > 0 {
        ghost var check := Check(Verifying, r.secret, code, now);
        record := Some(r.(verified := Some(later)));
        log := Next(Next(log, Pass(check)), Write(check, later));
      }
    }
  }
}
