/**
 accounts.email_lookup_hash while `cmd/reencrypt` recomputes it and the API goes
 on writing addresses: the steps of either, and which accounts stay findable by
 their address.
 */
module LiveLookup {
  import opened Wrappers
  import opened FieldCiphers
  import opened LiveTable

  datatype Row = Row(email: Bytes, hash: Bytes, active: bool)

  type Accounts = map<nat, Row>

  /** The configured keys; `normalize` stands for NormalizeEmail's trimming and lower-casing. */
  datatype Keys = Keys(aead: Aead, cipher: FieldCipher, hmac: Hmac, hasher: LookupHasher, normalize: string -> string) {

    predicate Opens(row: Row) {
      cipher.Open(aead, row.email).Ok?
    }

    function Owner(row: Row): string
      requires Opens(row)
    {
      normalize(cipher.Open(aead, row.email).value)
    }

    function PrimaryHash(row: Row): Bytes
      requires Opens(row)
    {
      hasher.Hash(hmac, Owner(row))
    }

    /** The row's hash, if its address can be read at all, was made of that address by a configured key. */
    ghost predicate Indexed(row: Row) {
      Opens(row) ==> exists key :: Configures(hasher, key) && row.hash == hmac(key, Owner(row))
    }

    ghost predicate Configured(accounts: Accounts) {
      forall id :: id in accounts ==> Indexed(accounts[id])
    }

    predicate AllOpen(accounts: Accounts) {
      forall id :: id in accounts ==> Opens(accounts[id])
    }

    ghost predicate DistinctOwners(accounts: Accounts) {
      forall i, j :: i in accounts && j in accounts && i != j && Opens(accounts[i]) && Opens(accounts[j]) ==>
        Owner(accounts[i]) != Owner(accounts[j])
    }

    ghost function StaleHashes(accounts: Accounts): set<nat> {
      set id | id in accounts && Opens(accounts[id])
        && hasher.NeedsRotation(hmac, accounts[id].hash, Owner(accounts[id]))
    }
  }

  /** The UNIQUE constraint on email_lookup_hash. */
  ghost predicate UniqueHashes(accounts: Accounts) {
    forall i, j :: i in accounts && j in accounts && accounts[i].hash == accounts[j].hash ==> i == j
  }

  /** LookupAccountIDByEmailHashes: the active rows whose hash is among the candidates. */
  ghost function Matches(accounts: Accounts, hashes: seq<Bytes>): set<nat> {
    set id | id in accounts && accounts[id].active && accounts[id].hash in hashes
  }

  /**
   Looking an address up finds an account that indexes its own address exactly
   when the address is the account's; an account that does not, its own address
   never finds.
   */
  lemma IndexedMeansFound(env: Keys, accounts: Accounts, id: nat, probe: string)
    requires CollisionFree(env.hmac) && id in accounts && accounts[id].active && env.Opens(accounts[id])
    ensures env.Indexed(accounts[id]) ==>
      (id in Matches(accounts, env.hasher.CandidateHashes(env.hmac, probe)) <==> env.Owner(accounts[id]) == probe)
    ensures id in Matches(accounts, env.hasher.CandidateHashes(env.hmac, env.Owner(accounts[id])))
      <==> env.Indexed(accounts[id])
  {
    CandidatesExactly(env.hmac, env.hasher, env.Owner(accounts[id]), accounts[id].hash);
    if env.Indexed(accounts[id]) {
      CandidateMatchesOwner(env.hmac, env.hasher, accounts[id].hash, env.Owner(accounts[id]), probe);
    }
  }

  lemma PrimaryIsIndexed(env: Keys, row: Row)
    requires env.Opens(row)
    ensures env.Indexed(row.(hash := env.PrimaryHash(row)))
    ensures row.hash == env.PrimaryHash(row) ==> env.Indexed(row)
  {
    assert Configures(env.hasher, env.hasher.primary);
  }

  // ---- the steps ----------------------------------------------------------------

  type LookupState = State<Row, string>

  type LookupStep = Step<Row, Bytes>

  type LookupWrite = Write<Row>

  /**
   Rows with another hash than the primary key's are read as their addresses, and a commit
   writes the primary hashes of those.
   */
  ghost function Rehash(env: Keys): Tool<Row, string, Bytes> {
    Tool((row: Row) => StaleOwner(env, row),
         (row: Row, hash: Bytes) => row.(hash := hash),
         (owner: string, hash: Bytes) => hash == env.hasher.Hash(env.hmac, owner))
  }

  function StaleOwner(env: Keys, row: Row): Option<string> {
    if env.Opens(row) && env.hasher.NeedsRotation(env.hmac, row.hash, env.Owner(row))
    then Some(env.Owner(row)) else None
  }

  // ---- when an account is lost from the index ---------------------------------------

  /** A later page with the row is read and committed, as a second run of the tool does. */
  predicate Reread(steps: seq<LookupStep>, id: nat)
    decreases |steps|
  {
    steps != [] && ((steps[0].ReadPage? && id in steps[0].page && CommitsNext(steps[1..])) || Reread(steps[1..], id))
  }

  /** The row gets another address while the batch under way holds the hash of its old one. */
  predicate CrossesBatch(env: Keys, s: LookupState, write: LookupWrite) {
    write.Put? && write.id in s.batch && env.Opens(write.row) && s.batch[write.id] != env.Owner(write.row)
  }

  /** The last write to the row crosses a batch that commits, and no later batch sees the row again. */
  ghost predicate Overtaken(env: Keys, s: LookupState, steps: seq<LookupStep>, id: nat)
    decreases |steps|
  {
    steps != [] &&
    if Writes(steps[0], id) && !WritesLater(steps[1..], id)
    then CrossesBatch(env, s, steps[0].write) && CommitsNext(steps[1..]) && !Reread(steps[1..], id)
    else Overtaken(env, Next(Rehash(env), s, steps[0]), steps[1..], id)
  }

  /** What the API writes carries the primary hash of its own address. */
  ghost predicate ApiIndexes(env: Keys, steps: seq<LookupStep>) {
    forall step :: step in steps && step.Api? && step.write.Put? ==> env.Indexed(step.write.row)
  }

  ghost predicate Readable(env: Keys, s: LookupState, id: nat) {
    id in s.table && env.Opens(s.table[id])
  }

  ghost predicate Findable(env: Keys, s: LookupState, id: nat) {
    id in s.table ==> env.Indexed(s.table[id])
  }

  ghost predicate Honest(env: Keys, s: LookupState, id: nat) {
    id in s.batch && Readable(env, s, id) ==> s.batch[id] == env.Owner(s.table[id])
  }

  /** No step but a write changes whether, and as what, a row's address reads. */
  lemma StepKeepsAddress(env: Keys, s: LookupState, step: LookupStep, id: nat)
    requires !Writes(step, id)
    ensures id in Next(Rehash(env), s, step).table <==> id in s.table
    ensures id in s.table ==> Next(Rehash(env), s, step).table[id].email == s.table[id].email
  {
  }

  lemma {:induction false} UnreadableStaysFindable(env: Keys, s: LookupState, steps: seq<LookupStep>, id: nat)
    requires CanRun(Rehash(env), s, steps)
    requires !WritesLater(steps, id) && !Readable(env, s, id)
    ensures Findable(env, Run(Rehash(env), s, steps), id)
    decreases |steps|
  {
    if steps != [] {
      LaterInTail(steps, id);
      StepKeepsAddress(env, s, steps[0], id);
      UnreadableStaysFindable(env, Next(Rehash(env), s, steps[0]), steps[1..], id);
    }
  }

  lemma StepRepairs(env: Keys, s: LookupState, step: LookupStep, id: nat)
    requires Enabled(Rehash(env), s, step)
    requires !Writes(step, id) && Readable(env, s, id) && Honest(env, s, id)
    ensures Honest(env, Next(Rehash(env), s, step), id)
    ensures Findable(env, Next(Rehash(env), s, step), id) <==> Findable(env, s, id) || (step.Commit? && id in s.batch)
    ensures step.ReadPage? && !Findable(env, s, id) ==> (id in Next(Rehash(env), s, step).batch <==> id in step.page)
  {
    PrimaryIsIndexed(env, s.table[id]);
  }

  /** A row nobody writes to is findable in the end exactly when it is already, or a batch that holds it commits. */
  lemma {:induction false} UnwrittenRow(env: Keys, s: LookupState, steps: seq<LookupStep>, id: nat)
    requires CanRun(Rehash(env), s, steps)
    requires !WritesLater(steps, id) && Readable(env, s, id) && Honest(env, s, id)
    ensures Findable(env, Run(Rehash(env), s, steps), id) <==>
      Findable(env, s, id) || (id in s.batch && CommitsNext(steps)) || Reread(steps, id)
    decreases |steps|
  {
    if steps != [] {
      LaterInTail(steps, id);
      StepKeepsAddress(env, s, steps[0], id);
      StepRepairs(env, s, steps[0], id);
      UnwrittenRow(env, Next(Rehash(env), s, steps[0]), steps[1..], id);
    }
  }

  lemma WrongHashIsNotIndexed(env: Keys, row: Row, owner: string)
    requires CollisionFree(env.hmac) && env.Opens(row) && owner != env.Owner(row)
    ensures !env.Indexed(row.(hash := env.hasher.Hash(env.hmac, owner)))
  {
    var hash := env.hasher.Hash(env.hmac, owner);
    assert env.hasher.CandidateHashes(env.hmac, owner)[0] == hash;
    CandidateMatchesOwner(env.hmac, env.hasher, hash, owner, env.Owner(row));
  }

  /**
   A findable row whose address the batch has wrong stays so unless that batch commits, and then
   until it is read again.
   */
  lemma {:induction false} WrongBatchDecides(env: Keys, s: LookupState, steps: seq<LookupStep>, id: nat)
    requires CanRun(Rehash(env), s, steps)
    requires CollisionFree(env.hmac) && !WritesLater(steps, id) && !Honest(env, s, id) && Findable(env, s, id)
    ensures Findable(env, Run(Rehash(env), s, steps), id) <==> !CommitsNext(steps) || Reread(steps, id)
    decreases |steps|
  {
    if steps != [] {
      LaterInTail(steps, id);
      var next := Next(Rehash(env), s, steps[0]);
      StepKeepsAddress(env, s, steps[0], id);
      if steps[0].Api? {
        WrongBatchDecides(env, next, steps[1..], id);
      } else {
        if steps[0].Commit? {
          WrongHashIsNotIndexed(env, s.table[id], s.batch[id]);
        }
        assert Honest(env, next, id);
        UnwrittenRow(env, next, steps[1..], id);
      }
    }
  }

  lemma LastWriteStands(env: Keys, s: LookupState, steps: seq<LookupStep>, id: nat)
    requires CanRun(Rehash(env), s, steps)
    requires CollisionFree(env.hmac) && ApiIndexes(env, steps)
    requires steps != [] && Writes(steps[0], id) && !WritesLater(steps[1..], id)
    ensures Findable(env, Run(Rehash(env), s, steps), id) <==>
      !(CrossesBatch(env, s, steps[0].write) && CommitsNext(steps[1..]) && !Reread(steps[1..], id))
  {
    assert steps[0] in steps;
    var next := Next(Rehash(env), s, steps[0]);
    if !Readable(env, next, id) {
      UnreadableStaysFindable(env, next, steps[1..], id);
    } else if Honest(env, next, id) {
      UnwrittenRow(env, next, steps[1..], id);
    } else {
      WrongBatchDecides(env, next, steps[1..], id);
    }
  }

  lemma {:induction false} UnwrittenIsNotOvertaken(env: Keys, s: LookupState, steps: seq<LookupStep>, id: nat)
    requires !WritesLater(steps, id)
    ensures !Overtaken(env, s, steps, id)
    decreases |steps|
  {
    if steps != [] {
      LaterInTail(steps, id);
      UnwrittenIsNotOvertaken(env, Next(Rehash(env), s, steps[0]), steps[1..], id);
    }
  }

  lemma {:induction false} WrittenRow(env: Keys, s: LookupState, steps: seq<LookupStep>, id: nat)
    requires CanRun(Rehash(env), s, steps)
    requires CollisionFree(env.hmac) && ApiIndexes(env, steps) && WritesLater(steps, id)
    ensures Findable(env, Run(Rehash(env), s, steps), id) <==> !Overtaken(env, s, steps, id)
    decreases |steps|
  {
    LaterInTail(steps, id);
    if WritesLater(steps[1..], id) {
      WrittenRow(env, Next(Rehash(env), s, steps[0]), steps[1..], id);
    } else {
      LastWriteStands(env, s, steps, id);
    }
  }

  /**
   Over every run of page reads, commits, abandoned batches and address
   changes, from a table in which the account indexes its address, it does so
   in the end exactly when its last change does not fall between the page read
   and the commit of a batch that holds its old address, or a later batch
   repairs it.
   */
  lemma AddressChangeSurvives(env: Keys, accounts: Accounts, steps: seq<LookupStep>, id: nat)
    requires CanRun(Rehash(env), State(accounts, map[]), steps)
    requires CollisionFree(env.hmac) && ApiIndexes(env, steps) && Findable(env, State(accounts, map[]), id)
    ensures Findable(env, Run(Rehash(env), State(accounts, map[]), steps), id)
      <==> !Overtaken(env, State(accounts, map[]), steps, id)
  {
    var s := State(accounts, map[]);
    if WritesLater(steps, id) {
      WrittenRow(env, s, steps, id);
    } else {
      UnwrittenIsNotOvertaken(env, s, steps, id);
      if Readable(env, s, id) {
        UnwrittenRow(env, s, steps, id);
      } else {
        UnreadableStaysFindable(env, s, steps, id);
      }
    }
  }

  /**
   A lost address: an account with a retired key's hash changes its address
   while the batch is under way. Its new address then finds nobody, and its old
   one still finds it.
   */
  lemma AddressLost(env: Keys, was: Row, now: Row)
    requires CollisionFree(env.hmac) && env.Opens(was) && env.Opens(now) && env.Owner(was) != env.Owner(now)
      && now.active
    requires was.hash != env.PrimaryHash(was) && now.hash == env.PrimaryHash(now)
    ensures var commit := Commit(map[0 := env.PrimaryHash(was)]);
      var steps := [ReadPage({0}), Api(Put(0, now)), commit];
      var s := State(map[0 := was], map[]);
      && CanRun(Rehash(env), s, steps)
      && Matches(Run(Rehash(env), s, steps).table, env.hasher.CandidateHashes(env.hmac, env.Owner(now))) == {}
      && Matches(Run(Rehash(env), s, steps).table, env.hasher.CandidateHashes(env.hmac, env.Owner(was))) == {0}
  {
    var tool, hash := Rehash(env), env.PrimaryHash(was);
    var s0 := State(map[0 := was], map[]);
    var s1 := Next(tool, s0, ReadPage({0}));
    assert s1.batch == map[0 := env.Owner(was)];
    var end := ThreeStepsRun(tool, s0, ReadPage({0}), Api(Put(0, now)), Commit(map[0 := hash]));
    assert end.table == map[0 := now.(hash := hash)];
    LostRowIsFoundByOldAddress(env, was, now);
  }

  lemma LostRowIsFoundByOldAddress(env: Keys, was: Row, now: Row)
    requires CollisionFree(env.hmac) && env.Opens(was) && env.Opens(now) && env.Owner(was) != env.Owner(now)
      && now.active
    ensures var end: Accounts := map[0 := now.(hash := env.PrimaryHash(was))];
      && Matches(end, env.hasher.CandidateHashes(env.hmac, env.Owner(now))) == {}
      && Matches(end, env.hasher.CandidateHashes(env.hmac, env.Owner(was))) == {0}
  {
    WrongHashIsNotIndexed(env, now, env.Owner(was));
    assert env.hasher.CandidateHashes(env.hmac, env.Owner(was))[0] == env.PrimaryHash(was);
  }
}
