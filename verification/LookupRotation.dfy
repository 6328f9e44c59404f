/**
 `rotateEmailLookupHash` of `cmd/reencrypt`: recompute accounts.email_lookup_hash
 with the primary HMAC key, page by page, on a UNIQUE column that logins and
 password resets keep reading and address changes keep writing.
 */
module LookupRotation {
  import opened Wrappers
  import opened FieldCiphers
  import opened LiveLookup
  import opened LiveTable
  import opened Paging

  type Traffic = seq<Window<Row>>

  datatype Outcome = Done | Unreadable(id: nat) | Conflict(id: nat) | Interrupted(batch: nat)

  /** Rows up to `frontier` carry the primary key's hash; nothing else changed. */
  ghost predicate RehashedUpTo(env: Keys, before: Accounts, after: Accounts, frontier: int) {
    && after.Keys == before.Keys
    && (forall id :: id in before && id <= frontier ==>
          env.Opens(before[id]) && after[id] == before[id].(hash := env.PrimaryHash(before[id])))
    && (forall id :: id in before && id > frontier ==> after[id] == before[id])
  }

  // ---- one batch ----------------------------------------------------------

  /** `stale` lists the page's stale rows in order with their new hashes. */
  ghost predicate Computed(env: Keys, accounts: Accounts, page: seq<nat>, stale: seq<(nat, Bytes)>) {
    && (forall id :: id in page ==> id in accounts && env.Opens(accounts[id]))
    && (forall i, j :: 0 <= i < j < |stale| ==> stale[i].0 < stale[j].0)
    && (forall s :: s in stale ==>
      s.0 in page && s.0 in env.StaleHashes(accounts) && s.1 == env.PrimaryHash(accounts[s.0]))
    && (forall id :: id in page && id in env.StaleHashes(accounts) ==> exists s :: s in stale && s.0 == id)
  }

  /** `stale` after its row has been looked at. */
  function Extended(env: Keys, accounts: Accounts, stale: seq<(nat, Bytes)>, id: nat): seq<(nat, Bytes)>
    requires id in accounts && env.Opens(accounts[id])
  {
    if env.hasher.NeedsRotation(env.hmac, accounts[id].hash, env.Owner(accounts[id]))
    then stale + [(id, env.PrimaryHash(accounts[id]))] else stale
  }

  lemma ExtendedCovers(env: Keys, accounts: Accounts, page: seq<nat>, stale: seq<(nat, Bytes)>, id: nat, other: nat)
    requires Computed(env, accounts, page, stale) && id in accounts && env.Opens(accounts[id])
    requires other in page + [id] && other in env.StaleHashes(accounts)
    ensures exists s :: s in Extended(env, accounts, stale, id) && s.0 == other
  {
  }

  lemma ComputedExtends(env: Keys, accounts: Accounts, page: seq<nat>, stale: seq<(nat, Bytes)>, id: nat)
    requires Computed(env, accounts, page, stale) && id in accounts && env.Opens(accounts[id])
    requires forall other :: other in page ==> other < id
    ensures Computed(env, accounts, page + [id], Extended(env, accounts, stale, id))
  {
    assert forall s :: s in stale ==> s.0 in page;
    forall other | other in page + [id] && other in env.StaleHashes(accounts)
      ensures exists s :: s in Extended(env, accounts, stale, id) && s.0 == other
    {
      ExtendedCovers(env, accounts, page, stale, id, other);
    }
  }

  method ComputeHashes(env: Keys, accounts: Accounts, page: seq<nat>)
    returns (stale: seq<(nat, Bytes)>, bad: Option<nat>)
    requires Ascending(page) && forall id :: id in page ==> id in accounts
    ensures bad.None? ==> Computed(env, accounts, page, stale)
    ensures bad.Some? ==> bad.value in accounts && !env.Opens(accounts[bad.value])
  {
    stale, bad := [], None;
    for i := 0 to |page|
      invariant Computed(env, accounts, page[..i], stale)
    {
      var id := page[i];
      assert id in page && page[..i + 1] == page[..i] + [id];
      var plain := env.cipher.Open(env.aead, accounts[id].email);
      if plain.Err? {
        return stale, Some(id);
      }
      var normalized := env.normalize(plain.value);
      ComputedExtends(env, accounts, page[..i], stale, id);
      if env.hasher.NeedsRotation(env.hmac, accounts[id].hash, normalized) {
        stale := stale + [(id, env.hasher.Hash(env.hmac, normalized))];
      }
    }
    assert page[..|page|] == page;
  }

  /** The first n updates of a transaction have run, on the rows that are still there. */
  ghost predicate Written(accounts: Accounts, stale: seq<(nat, Bytes)>, n: nat, tx: Accounts)
    requires n <= |stale|
  {
    && tx.Keys == accounts.Keys
    && (forall k :: 0 <= k < n && stale[k].0 in accounts ==>
      tx[stale[k].0] == accounts[stale[k].0].(hash := stale[k].1))
    && (forall id :: id in accounts && (forall k :: 0 <= k < n ==> stale[k].0 != id) ==> tx[id] == accounts[id])
  }

  /** Update n of the transaction meets another row that holds its hash. */
  ghost predicate Meets(accounts: Accounts, stale: seq<(nat, Bytes)>, n: nat, tx: Accounts, other: nat) {
    && n < |stale| && Written(accounts, stale, n, tx) && stale[n].0 in tx
    && other in tx && other != stale[n].0 && tx[other].hash == stale[n].1
  }

  /** The transaction: one UPDATE per stale row, each refused if another row holds the new hash. */
  method WriteHashes(accounts: Accounts, stale: seq<(nat, Bytes)>)
    returns (tx: Accounts, conflict: Option<nat>, ghost n: nat, ghost other: nat)
    requires forall i, j :: 0 <= i < j < |stale| ==> stale[i].0 < stale[j].0
    ensures n <= |stale| && Written(accounts, stale, n, tx) && (UniqueHashes(accounts) ==> UniqueHashes(tx))
    ensures conflict.None? ==> n == |stale|
    ensures conflict.Some? ==> Meets(accounts, stale, n, tx, other) && stale[n].0 == conflict.value
  {
    tx, conflict, n, other := accounts, None, 0, 0;
    for i := 0 to |stale|
      invariant n == i && Written(accounts, stale, i, tx) && (UniqueHashes(accounts) ==> UniqueHashes(tx))
    {
      var s := stale[i];
      n := i + 1;
      if s.0 in tx {
        if holder :| holder in tx && holder != s.0 && tx[holder].hash == s.1 {
          return tx, Some(s.0), i, holder;
        }
        assert tx[s.0] == accounts[s.0];
        tx := tx[s.0 := tx[s.0].(hash := s.1)];
      }
    }
  }

  /** The hashes a transaction writes for a page. */
  ghost function PageHashes(env: Keys, accounts: Accounts, page: seq<nat>): map<nat, Bytes> {
    var owners := Picked(Rehash(env), accounts, set id | id in page);
    map id | id in owners :: env.hasher.Hash(env.hmac, owners[id])
  }

  lemma PageHashesAre(env: Keys, accounts: Accounts, page: seq<nat>, id: nat)
    ensures id in PageHashes(env, accounts, page) <==> id in page && id in env.StaleHashes(accounts)
    ensures id in PageHashes(env, accounts, page) ==>
      PageHashes(env, accounts, page)[id] == env.PrimaryHash(accounts[id])
  {
  }

  lemma RowIsCommitted(env: Keys, accounts: Accounts, page: seq<nat>, stale: seq<(nat, Bytes)>, live: Accounts,
                       tx: Accounts, id: nat)
    requires Computed(env, accounts, page, stale) && Written(live, stale, |stale|, tx) && id in live
    ensures id in page && id in env.StaleHashes(accounts) ==> tx[id] == live[id].(hash := env.PrimaryHash(accounts[id]))
    ensures !(id in page && id in env.StaleHashes(accounts)) ==> tx[id] == live[id]
  {
    if id in page && id in env.StaleHashes(accounts) {
      var s :| s in stale && s.0 == id;
      var k :| 0 <= k < |stale| && stale[k] == s;
    } else {
      assert forall k :: 0 <= k < |stale| ==> stale[k] in stale;
    }
  }

  /** A transaction that goes through is the machine's commit of the page it was computed from. */
  lemma WrittenIsCommitted(env: Keys, accounts: Accounts, page: seq<nat>, stale: seq<(nat, Bytes)>, live: Accounts,
                           tx: Accounts)
    requires Computed(env, accounts, page, stale) && Written(live, stale, |stale|, tx)
    ensures tx == Committed(Rehash(env), live, PageHashes(env, accounts, page))
  {
    forall id | id in live
      ensures tx[id] == Committed(Rehash(env), live, PageHashes(env, accounts, page))[id]
    {
      PageHashesAre(env, accounts, page, id);
      RowIsCommitted(env, accounts, page, stale, live, tx, id);
    }
  }

  lemma PageHashesFit(env: Keys, accounts: Accounts, page: seq<nat>)
    ensures Fits(Rehash(env), Picked(Rehash(env), accounts, set id | id in page), PageHashes(env, accounts, page))
  {
  }

  /** A readable row and another one that has its address or, if it cannot be read, its new hash. */
  ghost predicate Clash(env: Keys, before: Accounts, id: nat, other: nat) {
    && id in before && other in before && id != other && env.Opens(before[id])
    && if env.Opens(before[other]) then env.Owner(before[other]) == env.Owner(before[id])
       else before[other].hash == env.PrimaryHash(before[id])
  }

  ghost predicate SomeClash(env: Keys, before: Accounts) {
    exists id, other :: Clash(env, before, id, other)
  }

  /** A conflict is two accounts with one address, or an unreadable row that holds the new hash. */
  lemma ConflictMeansClash(env: Keys, before: Accounts, tx: Accounts, id: nat, other: nat)
    requires CollisionFree(env.hmac) && env.Configured(before)
    requires id in before && other in before && id != other && other in tx && env.Opens(before[id])
    requires tx[other] == before[other]
      || (env.Opens(before[other]) && tx[other] == before[other].(hash := env.PrimaryHash(before[other])))
    requires tx[other].hash == env.PrimaryHash(before[id])
    ensures Clash(env, before, id, other)
  {
    if env.Opens(before[other]) {
      PrimaryIsIndexed(env, before[other]);
      assert env.hasher.CandidateHashes(env.hmac, env.Owner(before[id]))[0] == env.PrimaryHash(before[id]);
      CandidateMatchesOwner(env.hmac, env.hasher, tx[other].hash, env.Owner(before[other]), env.Owner(before[id]));
    }
  }

  lemma WrittenRow(accounts: Accounts, stale: seq<(nat, Bytes)>, n: nat, tx: Accounts, id: nat)
    requires n <= |stale| && Written(accounts, stale, n, tx) && id in accounts
    ensures tx[id] == accounts[id] || exists s :: s in stale && s.0 == id && tx[id] == accounts[id].(hash := s.1)
  {
    if k :| 0 <= k < n && stale[k].0 == id {
      assert stale[k] in stale;
    }
  }

  lemma StopIsClash(env: Keys, before: Accounts, accounts: Accounts, after: int, page: seq<nat>, last: int,
                    stale: seq<(nat, Bytes)>, n: nat, tx: Accounts, other: nat)
    requires RehashedUpTo(env, before, accounts, after)
    requires CollisionFree(env.hmac) && env.Configured(before)
    requires forall id :: id in page <==> id in before && after < id <= last
    requires Computed(env, accounts, page, stale) && Meets(accounts, stale, n, tx, other)
    ensures SomeClash(env, before)
  {
    var id := stale[n].0;
    assert stale[n] in stale && id in page && accounts[id] == before[id];
    WrittenRow(accounts, stale, n, tx, other);
    if tx[other] != accounts[other] {
      var t :| t in stale && t.0 == other && tx[other] == accounts[other].(hash := t.1);
      assert other in page && accounts[other] == before[other];
    }
    ConflictMeansClash(env, before, tx, id, other);
  }

  lemma RehashAdvances(env: Keys, before: Accounts, accounts: Accounts, after: int, page: seq<nat>, last: int,
                       stale: seq<(nat, Bytes)>, tx: Accounts)
    requires RehashedUpTo(env, before, accounts, after) && after <= last
    requires forall id :: id in page <==> id in before && after < id <= last
    requires Computed(env, accounts, page, stale) && Written(accounts, stale, |stale|, tx)
    ensures RehashedUpTo(env, before, tx, last)
  {
    assert forall k :: 0 <= k < |stale| ==> stale[k] in stale && stale[k].0 in page;
    forall id | id in before && id <= last
      ensures env.Opens(before[id]) && tx[id] == before[id].(hash := env.PrimaryHash(before[id]))
    {
      if after < id {
        assert id in page && accounts[id] == before[id];
        if id in env.StaleHashes(accounts) {
          var s :| s in stale && s.0 == id;
          var k :| 0 <= k < |stale| && stale[k] == s;
        }
      }
    }
  }

  /** On a dry run the table never moves, yet the rows up to the frontier have all been opened. */
  ghost predicate Progress(env: Keys, before: Accounts, accounts: Accounts, apply: bool, after: int,
                           visits: seq<nat>, rewrites: seq<nat>)
  {
    && RehashedUpTo(env, before, accounts, if apply then after else -1)
    && Lists(visits, before.Keys, after)
    && Lists(rewrites, env.StaleHashes(before), after)
    && forall id :: id in before && id <= after ==> env.Opens(before[id])
  }

  lemma PageListsStale(env: Keys, before: Accounts, accounts: Accounts, after: int, page: seq<nat>, last: int,
                         stale: seq<(nat, Bytes)>)
    requires accounts.Keys == before.Keys && forall id :: id in before && id > after ==> accounts[id] == before[id]
    requires forall id :: id in page <==> id in before && after < id <= last
    requires Computed(env, accounts, page, stale)
    ensures Ascending(FirstOf(stale))
    ensures forall id :: id in FirstOf(stale) <==> id in env.StaleHashes(before) && after < id <= last
  {
  }

  lemma ProgressAdvances(env: Keys, before: Accounts, accounts: Accounts, apply: bool, after: int,
                         visits: seq<nat>, rewrites: seq<nat>, page: seq<nat>, last: int,
                         stale: seq<(nat, Bytes)>, tx: Accounts)
    requires Progress(env, before, accounts, apply, after, visits, rewrites) && -1 <= after <= last
    requires Ascending(page) && forall id :: id in page <==> id in before && after < id <= last
    requires Computed(env, accounts, page, stale)
    requires apply ==> RehashedUpTo(env, before, tx, last)
    requires !apply ==> tx == accounts
    ensures Progress(env, before, tx, apply, last, visits + page, rewrites + FirstOf(stale))
  {
    ListsNextPage(visits, before.Keys, after, page, last);
    PageListsStale(env, before, accounts, after, page, last, stale);
    ListsNextPage(rewrites, env.StaleHashes(before), after, FirstOf(stale), last);
  }

  /** What one turn leaves of the live table: the transaction's rows, or nothing on a dry run and on a conflict. */
  ghost predicate Finished(live: Accounts, stale: seq<(nat, Bytes)>, apply: bool, stop: Outcome, tx: Accounts) {
    && (stop.Done? && apply ==> Written(live, stale, |stale|, tx) && (UniqueHashes(live) ==> UniqueHashes(tx)))
    && (stop.Done? && !apply ==> tx == live)
    && (stop.Conflict? ==> tx == live && apply && exists n, t, other :: Meets(live, stale, n, t, other))
  }

  /** One turn: read a page, compute its hashes, and on apply write them, whatever the API did to the rows meanwhile. */
  method RunBatch(env: Keys, accounts: Accounts, apply: bool, after: int, batch: nat, window: Window<Row>)
    returns (tx: Accounts, read: nat, stale: seq<(nat, Bytes)>, last: int, stop: Outcome, ghost page: seq<nat>,
             ghost more: seq<LookupStep>)
    requires batch >= 1
    ensures IsPage(ApplyAll(accounts, window.before).Keys, after, batch, page, last) && read == |page|
    ensures LeadsTo(Rehash(env), accounts, more, tx)
      && WritesOf(more) == window.before + if stop.Unreadable? then [] else window.during
    ensures !stop.Interrupted?
    ensures stop.Unreadable? ==> tx == ApplyAll(accounts, window.before) && stop.id in tx && !env.Opens(tx[stop.id])
    ensures !stop.Unreadable? ==>
      var snapshot := ApplyAll(accounts, window.before);
      Computed(env, snapshot, page, stale) && Finished(ApplyAll(snapshot, window.during), stale, apply, stop, tx)
  {
    var snapshot := ApplyAll(accounts, window.before);
    var rows, bad;
    rows, last := SelectPage(snapshot.Keys, after, batch);
    page, read, stop := rows, |rows|, Done;
    stale, bad := ComputeHashes(env, snapshot, rows);
    if bad.Some? {
      tx, stop := snapshot, Unreadable(bad.value);
      more := StoppedRuns(Rehash(env), accounts, window.before);
      return;
    }
    var live := ApplyAll(snapshot, window.during);
    ghost var end: LookupStep := Abandon;
    tx := live;
    if apply {
      var written, conflict, n, other := WriteHashes(live, stale);
      if conflict.Some? {
        stop := Conflict(conflict.value);
      } else {
        tx := written;
        WrittenIsCommitted(env, snapshot, rows, stale, live, tx);
        PageHashesFit(env, snapshot, rows);
        end := Commit(PageHashes(env, snapshot, rows));
      }
    }
    more := BatchRuns(Rehash(env), accounts, window, (set id | id in rows), end, tx);
  }

  // ---- the loop -------------------------------------------------------------

  ghost predicate Sound(env: Keys, before: Accounts, accounts: Accounts, traffic: Traffic, k: nat, after: int,
                        steps: seq<LookupStep>)
  {
    after >= -1 && LeadsTo(Rehash(env), before, steps, accounts) && WritesOf(steps) == Sent(traffic, k)
  }

  /** What holds at the head of the loop: a run so far, and on a table nobody else writes to, counted. */
  ghost predicate AtHead(env: Keys, before: Accounts, accounts: Accounts, traffic: Traffic, k: nat, apply: bool,
                         after: int, scanned: nat, rewritten: nat, visits: seq<nat>, rewrites: seq<nat>,
                         steps: seq<LookupStep>)
  {
    && Sound(env, before, accounts, traffic, k, after, steps)
    && (traffic == [] ==>
          && UniqueHashes(accounts) && Progress(env, before, accounts, apply, after, visits, rewrites)
          && scanned == |visits| && rewritten == |rewrites|)
  }

  /** What a run that has ended says of the table, whoever else wrote to it. */
  ghost predicate Ended(env: Keys, before: Accounts, accounts: Accounts, traffic: Traffic, steps: seq<LookupStep>) {
    LeadsTo(Rehash(env), before, steps, accounts) && WritesOf(steps) <= Sent(traffic, |traffic|)
  }

  /** And what it says of a table nobody else wrote to. */
  ghost predicate EndedQuietly(env: Keys, before: Accounts, accounts: Accounts, apply: bool, scanned: nat,
                               rewritten: nat, outcome: Outcome, frontier: int)
  {
    && RehashedUpTo(env, before, accounts, if apply then frontier else -1) && UniqueHashes(accounts)
    && match outcome
       case Interrupted(_) => true
       case Unreadable(id) => id in before && !env.Opens(before[id])
       case Conflict(_) =>
         apply && (CollisionFree(env.hmac) && env.Configured(before) ==> SomeClash(env, before))
       case Done =>
         && (forall id :: id in before ==> id <= frontier && env.Opens(before[id]))
         && scanned == |before.Keys| && rewritten == |env.StaleHashes(before)|
  }

  lemma DoneQuietly(env: Keys, before: Accounts, accounts: Accounts, apply: bool, last: int, visits: seq<nat>,
                    rewrites: seq<nat>)
    requires UniqueHashes(accounts) && Progress(env, before, accounts, apply, last, visits, rewrites)
    requires forall id :: id in before ==> id <= last
    ensures EndedQuietly(env, before, accounts, apply, |visits|, |rewrites|, Done, last)
  {
    AllListed(visits, rewrites, before.Keys, env.StaleHashes(before), last);
  }

  ghost function Remaining(accounts: Accounts, after: int): set<nat> {
    set id | id in accounts && id > after
  }

  lemma RemainingShrinks(accounts: Accounts, tx: Accounts, after: int, batch: nat, page: seq<nat>, last: int)
    requires IsPage(accounts.Keys, after, batch, page, last) && page != [] && tx.Keys == accounts.Keys
    ensures Remaining(tx, last) < Remaining(accounts, after)
  {
    assert last in page;
    assert last in Remaining(accounts, after) && last !in Remaining(tx, last);
  }

  /** On a table nobody else writes to, a turn moves the frontier, or stops with the table as it was. */
  lemma TurnAdvances(env: Keys, before: Accounts, accounts: Accounts, apply: bool, after: int, batch: nat,
                     visits: seq<nat>, rewrites: seq<nat>, page: seq<nat>, last: int, stale: seq<(nat, Bytes)>,
                     stop: Outcome, tx: Accounts)
    requires Progress(env, before, accounts, apply, after, visits, rewrites) && after >= -1
    requires IsPage(accounts.Keys, after, batch, page, last) && Computed(env, accounts, page, stale)
    requires Finished(accounts, stale, apply, stop, tx)
    ensures stop.Done? ==> Progress(env, before, tx, apply, last, visits + page, rewrites + FirstOf(stale))
    ensures stop.Conflict? && CollisionFree(env.hmac) && env.Configured(before) ==> SomeClash(env, before)
  {
    if stop.Done? {
      if apply {
        RehashAdvances(env, before, accounts, after, page, last, stale, tx);
      }
      ProgressAdvances(env, before, accounts, apply, after, visits, rewrites, page, last, stale, tx);
    }
    if stop.Conflict? && CollisionFree(env.hmac) && env.Configured(before) {
      var n, t, other :| Meets(accounts, stale, n, t, other);
      StopIsClash(env, before, accounts, after, page, last, stale, n, t, other);
    }
  }

  /** One batch as part of the run so far. */
  method TakeBatch(env: Keys, accounts: Accounts, apply: bool, after: int, batch: nat, traffic: Traffic, k: nat,
                   ghost before: Accounts, ghost visits: seq<nat>, ghost rewrites: seq<nat>,
                   ghost steps: seq<LookupStep>)
    returns (tx: Accounts, read: nat, stale: seq<(nat, Bytes)>, last: int, stop: Outcome, ghost page: seq<nat>,
             ghost steps': seq<LookupStep>)
    requires batch >= 1 && Sound(env, before, accounts, traffic, k, after, steps)
    requires traffic == [] ==> UniqueHashes(accounts) && Progress(env, before, accounts, apply, after, visits, rewrites)
    ensures read == |page| && !stop.Interrupted? && Ended(env, before, tx, traffic, steps')
    ensures stop.Done? ==>
      && Sound(env, before, tx, traffic, k + 1, last, steps')
      && (traffic == [] ==>
            && UniqueHashes(tx)
            && Progress(env, before, tx, apply, last, visits + page, rewrites + FirstOf(stale)))
    ensures traffic == [] && !stop.Done? ==>
      forall scanned, rewritten :: EndedQuietly(env, before, tx, apply, scanned, rewritten, stop, after)
    ensures k >= |traffic| && page != [] ==> Remaining(tx, last) < Remaining(accounts, after)
    ensures traffic == [] && read < batch ==> forall id :: id in before ==> id <= last
  {
    ghost var more;
    tx, read, stale, last, stop, page, more := RunBatch(env, accounts, apply, after, batch, WindowAt(traffic, k));
    TurnRuns(Rehash(env), before, accounts, tx, steps, more, traffic, k, stop.Unreadable?);
    steps' := steps + more;
    if traffic == [] && !stop.Unreadable? {
      TurnAdvances(env, before, accounts, apply, after, batch, visits, rewrites, page, last, stale, stop, tx);
    }
    if k >= |traffic| && page != [] {
      RemainingShrinks(accounts, tx, after, batch, page, last);
    }
  }

  /** One turn of the loop: its next state, or how the run ends. */
  method Turn(env: Keys, accounts: Accounts, apply: bool, after: int, batch: nat, fault: bool, traffic: Traffic, k: nat,
              scanned: nat, rewritten: nat, ghost before: Accounts, ghost visits: seq<nat>, ghost rewrites: seq<nat>,
              ghost steps: seq<LookupStep>)
    returns (tx: Accounts, last: int, scanned': nat, rewritten': nat, outcome: Option<Outcome>,
             ghost visits': seq<nat>, ghost rewrites': seq<nat>, ghost steps': seq<LookupStep>)
    requires batch >= 1
    requires AtHead(env, before, accounts, traffic, k, apply, after, scanned, rewritten, visits, rewrites, steps)
    ensures outcome.None? ==>
      && AtHead(env, before, tx, traffic, k + 1, apply, last, scanned', rewritten', visits', rewrites', steps')
      && (k >= |traffic| ==> Remaining(tx, last) < Remaining(accounts, after))
    ensures outcome.Some? ==>
      && Ended(env, before, tx, traffic, steps')
      && (traffic == [] ==> EndedQuietly(env, before, tx, apply, scanned', rewritten', outcome.value, last))
    ensures outcome.Some? && outcome.value.Interrupted? ==> outcome.value.batch == k && fault
  {
    tx, last, scanned', rewritten', visits', rewrites', steps' :=
      accounts, after, scanned, rewritten, visits, rewrites, steps;
    if fault {
      SentIsAll(traffic, k);
      return tx, last, scanned', rewritten', Some(Interrupted(k)), visits', rewrites', steps';
    }
    var read, stale, reached, stop;
    ghost var page;
    tx, read, stale, reached, stop, page, steps' :=
      TakeBatch(env, accounts, apply, after, batch, traffic, k, before, visits, rewrites, steps);
    scanned' := scanned + if stop.Unreadable? then 0 else read;
    if !stop.Done? {
      return tx, last, scanned', rewritten', Some(stop), visits', rewrites', steps';
    }
    last, rewritten', visits', rewrites' := reached, rewritten + |stale|, visits + page, rewrites + FirstOf(stale);
    if read < batch {
      if traffic == [] {
        DoneQuietly(env, before, tx, apply, last, visits', rewrites');
      }
      return tx, last, scanned', rewritten', Some(Done), visits', rewrites', steps';
    }
    outcome := None;
  }

  class Table {
    var accounts: Accounts

    constructor (initial: Accounts)
      ensures accounts == initial
    {
      accounts := initial;
    }

    /**
     Walks the table in id order while the API writes to it. The whole is a run
     of the steps of LiveLookup, so an account stays findable by its address
     exactly when it is not overtaken.

     On a table nobody else writes to, rows up to `frontier` carry the primary
     key's hash and the rest is untouched, wherever the run stops.
     */
    method RotateEmailLookupHash(env: Keys, apply: bool, batch: nat, faults: nat -> bool, traffic: Traffic)
      returns (scanned: nat, rewritten: nat, outcome: Outcome, ghost frontier: int, ghost steps: seq<LookupStep>)
      requires batch >= 1 && UniqueHashes(accounts)
      modifies this
      ensures Ended(env, old(accounts), accounts, traffic, steps)
      ensures traffic == [] ==> EndedQuietly(env, old(accounts), accounts, apply, scanned, rewritten, outcome, frontier)
      ensures outcome.Interrupted? ==> faults(outcome.batch)
    {
      ghost var before := accounts;
      ghost var visits: seq<nat>, rewrites: seq<nat> := [], [];
      scanned, rewritten, frontier, steps := 0, 0, -1, [];
      var after: int, k: nat := -1, 0;
      while true
        invariant frontier == after
        invariant AtHead(env, before, accounts, traffic, k, apply, after, scanned, rewritten, visits, rewrites, steps)
        decreases if k < |traffic| then |traffic| - k else 0, Remaining(accounts, after)
      {
        var tx, stop;
        tx, after, scanned, rewritten, stop, visits, rewrites, steps :=
          Turn(env, accounts, apply, after, batch, faults(k), traffic, k, scanned, rewritten,
               before, visits, rewrites, steps);
        accounts, frontier := tx, after;
        if stop.Some? {
          outcome := stop.value;
          return;
        }
        k := k + 1;
      }
    }
  }

  /** An erased account is a row no ring opens, so no run over one completes. */
  lemma ErasedAccountNeverOpens(env: Keys, accounts: Accounts, id: nat)
    requires env.cipher.Valid() && id in accounts && accounts[id].email == TOMBSTONE
    ensures !env.Opens(accounts[id]) && !env.AllOpen(accounts)
  {
    TombstoneNeverOpens(env.aead, env.cipher);
  }

  // ---- what a run means for lookups ---------------------------------------

  /** What the API writes carries the primary hash of its own address. */
  ghost predicate TrafficIndexes(env: Keys, traffic: Traffic) {
    forall window, w :: window in traffic && (w in window.before || w in window.during) && w.Put? ==> env.Indexed(w.row)
  }

  /**
   A run over a table the API writes to: an account that was findable by its
   address still is exactly when it is not overtaken.
   */
  lemma LiveRehash(env: Keys, before: Accounts, after: Accounts, traffic: Traffic, steps: seq<LookupStep>, id: nat)
    requires CollisionFree(env.hmac) && Ended(env, before, after, traffic, steps) && TrafficIndexes(env, traffic)
    requires id in before ==> env.Indexed(before[id])
    ensures (id in after ==> env.Indexed(after[id])) <==> !Overtaken(env, State(before, map[]), steps, id)
  {
    forall step | step in steps && step.Api? && step.write.Put? ensures env.Indexed(step.write.row) {
      var i :| 0 <= i < |steps| && steps[i] == step;
      WritesOfHas(steps, i);
      SentIsTraffic(traffic, |traffic|, step.write);
    }
    AddressChangeSurvives(env, before, steps, id);
  }

  lemma HashStaysCandidate(env: Keys, before: Accounts, after: Accounts, frontier: int, id: nat)
    requires env.Configured(before) && RehashedUpTo(env, before, after, frontier) && id in before
      && env.Opens(before[id])
    ensures env.Opens(after[id]) && env.Owner(after[id]) == env.Owner(before[id]) && env.Indexed(after[id])
  {
    PrimaryIsIndexed(env, before[id]);
  }

  /**
   At every frontier, even one stopped at an erased account, looking an address
   up with all configured keys finds what it found before; and of the rows that
   can be read that is exactly the active accounts of the address.
   */
  lemma LookupsAgree(env: Keys, before: Accounts, after: Accounts, frontier: int, probe: string)
    requires CollisionFree(env.hmac) && env.Configured(before) && RehashedUpTo(env, before, after, frontier)
    ensures Matches(after, env.hasher.CandidateHashes(env.hmac, probe))
      == Matches(before, env.hasher.CandidateHashes(env.hmac, probe))
    ensures forall id :: id in before && before[id].active && env.Opens(before[id]) ==>
      (id in Matches(before, env.hasher.CandidateHashes(env.hmac, probe)) <==> env.Owner(before[id]) == probe)
  {
    forall id | id in before && before[id].active && env.Opens(before[id])
      ensures id in Matches(after, env.hasher.CandidateHashes(env.hmac, probe)) <==> env.Owner(before[id]) == probe
      ensures id in Matches(before, env.hasher.CandidateHashes(env.hmac, probe)) <==> env.Owner(before[id]) == probe
    {
      HashStaysCandidate(env, before, after, frontier, id);
      IndexedMeansFound(env, after, id, probe);
      IndexedMeansFound(env, before, id, probe);
    }
  }

  /** Up to the frontier a row's hash is the primary key's of its address as normalised; nothing else has moved. */
  lemma RehashedRow(env: Keys, before: Accounts, after: Accounts, frontier: int, id: nat)
    requires RehashedUpTo(env, before, after, frontier) && id in before
    ensures id in after && after[id].email == before[id].email && after[id].active == before[id].active
    ensures if id > frontier then after[id] == before[id]
      else var address := env.cipher.Open(env.aead, before[id].email);
        address.Ok? && after[id].hash == env.hmac(env.hasher.primary, env.normalize(address.value))
  {
  }

  /**
   An active account whose stored hash any configured key made of its address,
   the primary or a retired one, is found by that address before a run and at
   every frontier of one. `hashes` is what the loop of Candidates returns.
   */
  lemma ConfiguredHashIsFound(env: Keys, before: Accounts, after: Accounts, frontier: int, id: nat, key: Bytes,
                              text: string, hashes: seq<Bytes>)
    requires RehashedUpTo(env, before, after, frontier) && id in before && before[id].active
    requires env.cipher.Open(env.aead, before[id].email) == Ok(text)
    requires key == env.hasher.primary || key in env.hasher.secondary
    requires before[id].hash == env.hmac(key, env.normalize(text))
    requires |hashes| == 1 + |env.hasher.secondary| && hashes[0] == env.hmac(env.hasher.primary, env.normalize(text))
    requires forall i :: 0 <= i < |env.hasher.secondary| ==>
      hashes[1 + i] == env.hmac(env.hasher.secondary[i], env.normalize(text))
    ensures id in Matches(before, hashes) && id in Matches(after, hashes)
  {
    if i :| 0 <= i < |env.hasher.secondary| && env.hasher.secondary[i] == key {
      assert hashes[1 + i] == before[id].hash;
    }
    assert before[id].hash in hashes && hashes[0] in hashes;
  }

  /** The lookup of an address: the candidates, and the active accounts that have one of them. */
  method FindByEmail(env: Keys, accounts: Accounts, probe: string) returns (hashes: seq<Bytes>, found: set<nat>)
    ensures forall id :: id in found <==>
      id in accounts && accounts[id].active
      && exists key :: Configures(env.hasher, key) && accounts[id].hash == env.hmac(key, probe)
    ensures found == Matches(accounts, hashes)
  {
    hashes := Candidates(env.hmac, env.hasher, probe);
    found := set id | id in accounts && accounts[id].active && accounts[id].hash in hashes;
    forall id | id in accounts
      ensures accounts[id].hash in hashes
        <==> exists key :: Configures(env.hasher, key) && accounts[id].hash == env.hmac(key, probe)
    {
      CandidatesExactly(env.hmac, env.hasher, probe, accounts[id].hash);
    }
  }

  /** After a complete run the primary key alone answers every lookup as all keys did before. */
  lemma PrimaryKeySuffices(env: Keys, before: Accounts, after: Accounts, frontier: int, probe: string)
    requires CollisionFree(env.hmac) && env.Configured(before) && RehashedUpTo(env, before, after, frontier)
    requires forall id :: id in before ==> id <= frontier
    ensures Matches(after, [env.hasher.Hash(env.hmac, probe)])
      == Matches(before, env.hasher.CandidateHashes(env.hmac, probe))
  {
    LookupsAgree(env, before, after, frontier, probe);
    forall id | id in before
      ensures after[id].hash == env.hasher.Hash(env.hmac, probe) <==> env.Owner(before[id]) == probe
    {
      assert after[id].hash == env.PrimaryHash(before[id]);
      assert env.PrimaryHash(before[id]) == env.hmac(env.hasher.primary, env.Owner(before[id]));
    }
  }

  /**
   Nothing but the UNIQUE column checks addresses, and it compares hashes made
   by different keys. Left undisturbed, an applying run completes exactly when
   every address can be read and no two accounts share one.
   */
  method RotateUndisturbed(env: Keys, table: Table, batch: nat) returns (completed: bool)
    requires batch >= 1 && UniqueHashes(table.accounts)
    requires CollisionFree(env.hmac) && env.Configured(table.accounts)
    modifies table
    ensures completed <==> env.AllOpen(old(table.accounts)) && env.DistinctOwners(old(table.accounts))
    ensures completed ==> env.StaleHashes(table.accounts) == {}
  {
    ghost var before := table.accounts;
    var _, _, outcome, frontier, steps := table.RotateEmailLookupHash(env, true, batch, k => false, []);
    completed := outcome.Done?;
    if completed {
      forall i, j | i in before && j in before && i != j
        ensures env.Owner(before[i]) != env.Owner(before[j])
      {
        assert table.accounts[i].hash == env.PrimaryHash(before[i])
          && table.accounts[j].hash == env.PrimaryHash(before[j]);
      }
    }
  }
}
