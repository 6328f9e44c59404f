/**
 `cmd/reencrypt`: the keyset-paged loop that rewrites one ciphertext column
 under the primary key. Every page is one read, every non-empty batch one
 transaction, and the API writes to the column before and between the two. Ids
 are modelled as naturals in the order the database sorts them.
 */
module Reencrypt {
  import opened Wrappers
  import opened FieldCiphers
  import opened LiveColumn
  import opened LiveTable
  import opened Paging

  /** What stops a run at a given batch: the page query, the transaction, or the context afterwards. */
  datatype Fault = NoFault | QueryFails | CommitFails | ContextDone

  datatype Outcome = Done | Unreadable(id: nat) | Interrupted(batch: nat)

  type Traffic = seq<Window<Option<Bytes>>>

  // ---- one batch ----------------------------------------------------------

  /** `stale` lists, in page order, the page's rows that need rotation with what they open to. */
  ghost predicate Collected(aead: Aead, c: FieldCipher, cells: Cells, page: seq<nat>, stale: seq<(nat, string)>) {
    && (forall i, j :: 0 <= i < j < |stale| ==> stale[i].0 < stale[j].0)
    && (forall s :: s in stale ==> s.0 in page && s.0 in Stale(c, cells) && Reads(aead, c, cells, s.0) == Some(Ok(s.1)))
    && (forall id :: id in page && id in Stale(c, cells) ==> exists s :: s in stale && s.0 == id)
  }

  method CollectStale(aead: Aead, c: FieldCipher, cells: Cells, page: seq<nat>)
    returns (stale: seq<(nat, string)>, bad: Option<nat>)
    requires Ascending(page) && forall id :: id in page ==> id in NonNull(cells)
    ensures bad.None? ==> Collected(aead, c, cells, page, stale)
    ensures bad.Some? ==> bad.value in page && bad.value in Stale(c, cells) && c.Open(aead, cells[bad.value].value).Err?
  {
    stale, bad := [], None;
    for i := 0 to |page|
      invariant bad.None? && Collected(aead, c, cells, page[..i], stale)
    {
      var id := page[i];
      assert id in page && page[..i + 1] == page[..i] + [id];
      var blob := cells[id].value;
      if c.NeedsRotation(blob) {
        match c.Open(aead, blob) {
          case Err(_) => return stale, Some(id);
          case Ok(text) =>
            assert forall s :: s in stale ==> s.0 in page[..i] && s.0 < id;
            stale := stale + [(id, text)];
        }
      }
    }
    assert page[..|page|] == page;
  }

  /**
   After a run up to `frontier`: stale rows up to there hold the primary key's seal of the same
   text, the rest is untouched.
   */
  ghost predicate RotatedUpTo(aead: Aead, c: FieldCipher, before: Cells, after: Cells, frontier: int) {
    && after.Keys == before.Keys
    && forall id :: id in before ==>
         if id <= frontier && id in Stale(c, before)
         then after[id].Some? && c.Open(aead, before[id].value).Ok?
              && c.Carries(aead, after[id].value, c.Open(aead, before[id].value).value)
         else after[id] == before[id]
  }

  ghost function Ids(stale: seq<(nat, string)>): set<nat> {
    set s | s in stale :: s.0
  }

  lemma CommitOneMore(aead: Aead, c: FieldCipher, live: Cells, sealed: map<nat, Bytes>, id: nat, blob: Bytes)
    ensures Committed(Rotation(aead, c), live, sealed[id := blob]) ==
      if id in live then Committed(Rotation(aead, c), live, sealed)[id := Some(blob)]
      else Committed(Rotation(aead, c), live, sealed)
  {
  }

  /** Fresh seals of the texts read. */
  ghost predicate SealsTexts(aead: Aead, c: FieldCipher, stale: seq<(nat, string)>, sealed: map<nat, Bytes>) {
    && sealed.Keys == Ids(stale)
    && forall s :: s in stale ==> c.Carries(aead, sealed[s.0], s.1)
  }

  lemma SealOneMore(aead: Aead, c: FieldCipher, stale: seq<(nat, string)>, sealed: map<nat, Bytes>, s: (nat, string),
                    blob: Bytes)
    requires SealsTexts(aead, c, stale, sealed) && s.0 !in Ids(stale)
    requires c.Carries(aead, blob, s.1)
    ensures SealsTexts(aead, c, stale + [s], sealed[s.0 := blob])
  {
    assert forall t :: t in stale ==> t.0 in Ids(stale);
  }

  lemma NotYetSealed(stale: seq<(nat, string)>, i: nat)
    requires i < |stale| && forall a, b :: 0 <= a < b < |stale| ==> stale[a].0 < stale[b].0
    ensures stale[i].0 !in Ids(stale[..i]) && stale[..i + 1] == stale[..i] + [stale[i]]
  {
  }

  lemma CommittedRows(aead: Aead, c: FieldCipher, live: Cells, stale: seq<(nat, string)>, sealed: map<nat, Bytes>)
    requires SealsTexts(aead, c, stale, sealed)
    ensures var tx := Committed(Rotation(aead, c), live, sealed);
      && tx.Keys == live.Keys && (forall id :: id in live && id !in Ids(stale) ==> tx[id] == live[id])
      && forall s :: s in stale && s.0 in live ==> Reads(aead, c, tx, s.0) == Some(Ok(s.1)) && s.0 !in Stale(c, tx)
  {
  }

  /** The UPDATEs of one transaction on the live column, for the rows that are still there. */
  method RewriteBatch(aead: Aead, c: FieldCipher, live: Cells, stale: seq<(nat, string)>, nonces: nat -> Bytes)
    returns (tx: Cells, ghost sealed: map<nat, Bytes>)
    requires aead.Lawful() && c.Valid() && forall n :: |nonces(n)| == NONCE_BYTES
    requires forall i, j :: 0 <= i < j < |stale| ==> stale[i].0 < stale[j].0
    ensures tx == Committed(Rotation(aead, c), live, sealed) && SealsTexts(aead, c, stale, sealed)
    ensures tx.Keys == live.Keys && forall id :: id in live && id !in Ids(stale) ==> tx[id] == live[id]
    ensures forall s :: s in stale && s.0 in live ==> Reads(aead, c, tx, s.0) == Some(Ok(s.1)) && s.0 !in Stale(c, tx)
  {
    tx, sealed := live, map[];
    assert Committed(Rotation(aead, c), live, sealed) == live;
    for i := 0 to |stale|
      invariant tx == Committed(Rotation(aead, c), live, sealed) && SealsTexts(aead, c, stale[..i], sealed)
    {
      var blob := c.Seal(aead, nonces(i), stale[i].1);
      SealedOpens(aead, c, nonces(i), stale[i].1);
      CommitOneMore(aead, c, live, sealed, stale[i].0, blob.value);
      NotYetSealed(stale, i);
      SealOneMore(aead, c, stale[..i], sealed, stale[i], blob.value);
      sealed := sealed[stale[i].0 := blob.value];
      if stale[i].0 in tx {
        tx := tx[stale[i].0 := Some(blob.value)];
      }
    }
    assert stale[..|stale|] == stale;
    CommittedRows(aead, c, live, stale, sealed);
  }

  lemma CollectedIsPicked(aead: Aead, c: FieldCipher, cells: Cells, page: seq<nat>, stale: seq<(nat, string)>,
                          s: (nat, string))
    requires Collected(aead, c, cells, page, stale) && s in stale
    ensures var texts := Picked(Rotation(aead, c), cells, set id | id in page); s.0 in texts && texts[s.0] == s.1
  {
  }

  lemma PickedIsCollected(aead: Aead, c: FieldCipher, cells: Cells, page: seq<nat>, stale: seq<(nat, string)>, id: nat)
    requires Collected(aead, c, cells, page, stale)
    requires id in Picked(Rotation(aead, c), cells, set id | id in page)
    ensures id in Ids(stale)
  {
    StaleAreCollected(aead, c, cells, page, stale, id);
  }

  /** The seals of a collected page are those its batch calls for. */
  lemma SealsPage(aead: Aead, c: FieldCipher, cells: Cells, page: seq<nat>, stale: seq<(nat, string)>,
                  sealed: map<nat, Bytes>)
    requires Collected(aead, c, cells, page, stale) && SealsTexts(aead, c, stale, sealed)
    ensures Fits(Rotation(aead, c), Picked(Rotation(aead, c), cells, set id | id in page), sealed)
  {
    var texts := Picked(Rotation(aead, c), cells, set id | id in page);
    forall id | id in texts ensures id in sealed {
      PickedIsCollected(aead, c, cells, page, stale, id);
    }
    forall id | id in sealed
      ensures id in texts && c.Carries(aead, sealed[id], texts[id])
    {
      var s :| s in stale && s.0 == id;
      CollectedIsPicked(aead, c, cells, page, stale, s);
    }
  }

  /** What the end of a batch leaves of the live column. */
  ghost predicate Finished(aead: Aead, c: FieldCipher, live: Cells, stale: seq<(nat, string)>, commits: bool,
                           tx: Cells) {
    && tx.Keys == live.Keys && NonNull(live) <= NonNull(tx) <= NonNull(live) + Ids(stale)
    && (if commits then Stale(c, tx) == Stale(c, live) - Ids(stale) else tx == live)
    && (forall id :: id in live && id !in Ids(stale) ==> tx[id] == live[id])
    && (commits ==> forall s :: s in stale && s.0 in live ==>
          tx[s.0].Some? && c.Carries(aead, tx[s.0].value, s.1))
  }

  /**
   The end of a batch: its transaction, or nothing on a dry run, on an empty batch, and when the
   transaction fails.
   */
  method FinishBatch(aead: Aead, c: FieldCipher, ghost cells: Cells, ghost page: seq<nat>, live: Cells,
                     stale: seq<(nat, string)>, commits: bool, nonces: nat -> Bytes)
    returns (tx: Cells, ghost step: ColumnStep)
    requires aead.Lawful() && c.Valid() && forall n :: |nonces(n)| == NONCE_BYTES
    requires Collected(aead, c, cells, page, stale)
    ensures !step.Api? && var s := State(live, Picked(Rotation(aead, c), cells, set id | id in page));
      Enabled(Rotation(aead, c), s, step) && Next(Rotation(aead, c), s, step) == State(tx, map[])
    ensures Finished(aead, c, live, stale, commits, tx)
  {
    tx, step := live, Abandon;
    if commits && stale != [] {
      ghost var sealed;
      tx, sealed := RewriteBatch(aead, c, live, stale, nonces);
      SealsPage(aead, c, cells, page, stale, sealed);
      CommitClears(aead, c, live, sealed);
      step := Commit(sealed);
    }
  }

  /** Committing one collected page moves the frontier to its end. */
  lemma BatchAdvances(aead: Aead, c: FieldCipher, before: Cells, cells: Cells, after: int,
                      page: seq<nat>, last: int, stale: seq<(nat, string)>, tx: Cells)
    requires RotatedUpTo(aead, c, before, cells, after) && after <= last
    requires forall id :: id in page <==> id in NonNull(before) && after < id <= last
    requires Collected(aead, c, cells, page, stale)
    requires tx.Keys == cells.Keys && forall id :: id in cells && id !in Ids(stale) ==> tx[id] == cells[id]
    requires forall s :: s in stale ==>
      s.0 in tx && tx[s.0].Some? && c.Carries(aead, tx[s.0].value, s.1)
    ensures RotatedUpTo(aead, c, before, tx, last)
  {
    assert forall s :: s in stale ==> s.0 in page && s.0 in Stale(c, before);
    forall id | id in before
      ensures if id <= last && id in Stale(c, before)
        then tx[id].Some? && c.Open(aead, before[id].value).Ok?
             && c.Carries(aead, tx[id].value, c.Open(aead, before[id].value).value)
        else tx[id] == before[id]
    {
      if after < id <= last && id in Stale(c, before) {
        assert cells[id] == before[id] && id in page && id in Stale(c, cells);
      }
    }
  }

  /** What a page collects is exactly the stale rows of the original column in that stretch, all readable. */
  lemma PageStale(aead: Aead, c: FieldCipher, before: Cells, cells: Cells, after: int,
                  page: seq<nat>, last: int, stale: seq<(nat, string)>)
    requires cells.Keys == before.Keys && forall id :: id in before && id > after ==> cells[id] == before[id]
    requires forall id :: id in page <==> id in NonNull(before) && after < id <= last
    requires Collected(aead, c, cells, page, stale)
    ensures Ascending(FirstOf(stale))
    ensures forall id :: id in FirstOf(stale) <==> id in Stale(c, before) && after < id <= last
    ensures forall id :: id in Stale(c, before) && after < id <= last ==> c.Open(aead, before[id].value).Ok?
  {
    forall id | id in Stale(c, before) && after < id <= last
      ensures id in FirstOf(stale) && c.Open(aead, before[id].value).Ok?
    {
      assert id in page && id in Stale(c, cells);
      var s :| s in stale && s.0 == id;
      var i :| 0 <= i < |stale| && stale[i] == s;
      assert FirstOf(stale)[i] == id;
    }
    forall id | id in FirstOf(stale)
      ensures id in Stale(c, before) && after < id <= last
    {
      var i :| 0 <= i < |stale| && FirstOf(stale)[i] == id;
      assert stale[i] in stale;
    }
  }

  // ---- the run ------------------------------------------------------------

  /**
   The loop invariant: rows up to `after` are visited, the stale ones among them readable and,
   on apply, rewritten.
   */
  ghost predicate Progress(aead: Aead, c: FieldCipher, before: Cells, cells: Cells, apply: bool, after: int,
                           visits: seq<nat>, rewrites: seq<nat>)
  {
    && RotatedUpTo(aead, c, before, cells, if apply then after else -1)
    && Lists(visits, NonNull(before), after)
    && Lists(rewrites, Stale(c, before), after)
    && forall id :: id in Stale(c, before) && id <= after ==> c.Open(aead, before[id].value).Ok?
  }

  lemma ProgressAdvances(aead: Aead, c: FieldCipher, before: Cells, cells: Cells, apply: bool, after: int,
                         visits: seq<nat>, rewrites: seq<nat>, page: seq<nat>, last: int,
                         stale: seq<(nat, string)>, tx: Cells)
    requires Progress(aead, c, before, cells, apply, after, visits, rewrites) && -1 <= after <= last
    requires Ascending(page) && forall id :: id in page <==> id in NonNull(before) && after < id <= last
    requires Collected(aead, c, cells, page, stale)
    requires apply ==> RotatedUpTo(aead, c, before, tx, last)
    requires !apply ==> tx == cells
    ensures Progress(aead, c, before, tx, apply, last, visits + page, rewrites + FirstOf(stale))
  {
    ListsNextPage(visits, NonNull(before), after, page, last);
    PageStale(aead, c, before, cells, after, page, last, stale);
    ListsNextPage(rewrites, Stale(c, before), after, FirstOf(stale), last);
  }

  /**
   Under current traffic no stale row is left up to the end of a committed page, and none at all
   after a short one.
   */
  lemma PageLeavesNoStale(aead: Aead, c: FieldCipher, read: Cells, live: Cells, tx: Cells, after: int, batch: nat,
                          page: seq<nat>, last: int, stale: seq<(nat, string)>)
    requires IsPage(NonNull(read), after, batch, page, last) && Collected(aead, c, read, page, stale)
    requires Stale(c, live) <= Stale(c, read) && Finished(aead, c, live, stale, true, tx)
    requires forall id :: id in Stale(c, read) ==> id > after
    ensures forall id :: id in Stale(c, tx) ==> id > last
    ensures |page| < batch ==> Stale(c, tx) == {}
  {
    forall id | id in Stale(c, tx) ensures id > last && |page| >= batch {
      assert id in Stale(c, read) && id in NonNull(read);
      if id in page {
        StaleAreCollected(aead, c, read, page, stale, id);
      }
    }
  }

  lemma TurnLeavesNoStale(aead: Aead, c: FieldCipher, cells: Cells, traffic: Traffic, k: nat, tx: Cells, after: int,
                          batch: nat, page: seq<nat>, last: int, stale: seq<(nat, string)>)
    requires CurrentTraffic(c, traffic) && NoneStaleUpTo(c, cells, after)
    requires var read := ApplyAll(cells, WindowAt(traffic, k).before);
      && IsPage(NonNull(read), after, batch, page, last) && Collected(aead, c, read, page, stale)
      && Finished(aead, c, ApplyAll(read, WindowAt(traffic, k).during), stale, true, tx)
    ensures NoneStaleUpTo(c, tx, last) && (|page| < batch ==> Stale(c, tx) == {})
  {
    var window := WindowAt(traffic, k);
    assert window in traffic || window == Window([], []);
    var read := ApplyAll(cells, window.before);
    WritesAddNoStale(c, cells, window.before);
    WritesAddNoStale(c, read, window.during);
    PageLeavesNoStale(aead, c, read, ApplyAll(read, window.during), tx, after, batch, page, last, stale);
  }

  lemma StaleAreCollected(aead: Aead, c: FieldCipher, cells: Cells, page: seq<nat>, stale: seq<(nat, string)>, id: nat)
    requires Collected(aead, c, cells, page, stale) && id in page && id in Stale(c, cells)
    ensures id in Ids(stale)
  {
  }

  /** The batch has a transaction and it goes through, or it needs none. */
  predicate Commits(apply: bool, fault: Fault, stale: seq<(nat, string)>) {
    apply && !(fault.CommitFails? && stale != [])
  }

  /**
   One turn of the loop: read a page, collect its stale rows, and on apply
   rewrite them in one transaction, whatever the API did to them meanwhile.
   */
  method RunBatch(aead: Aead, c: FieldCipher, cells: Cells, apply: bool, after: int, batch: nat, fault: Fault,
                  window: Window<Option<Bytes>>, nonces: nat -> Bytes)
    returns (tx: Cells, read: nat, stale: seq<(nat, string)>, last: int, bad: Option<nat>, page: seq<nat>,
             ghost more: seq<ColumnStep>)
    requires aead.Lawful() && c.Valid() && batch >= 1 && forall n :: |nonces(n)| == NONCE_BYTES
    ensures IsPage(NonNull(ApplyAll(cells, window.before)), after, batch, page, last) && read == |page|
    ensures LeadsTo(Rotation(aead, c), cells, more, tx)
    ensures WritesOf(more) == window.before + if bad.Some? then [] else window.during
    ensures bad.Some? ==> tx == ApplyAll(cells, window.before) && bad.value in page && bad.value in Stale(c, tx)
                          && c.Open(aead, tx[bad.value].value).Err?
    ensures bad.None? ==>
      var snapshot := ApplyAll(cells, window.before);
      && Collected(aead, c, snapshot, page, stale)
      && Finished(aead, c, ApplyAll(snapshot, window.during), stale, Commits(apply, fault, stale), tx)
  {
    var snapshot := ApplyAll(cells, window.before);
    var ids := set id | id in snapshot && snapshot[id].Some?;
    assert ids == NonNull(snapshot);
    var rows;
    rows, last := SelectPage(ids, after, batch);
    page, read, tx := rows, |rows|, snapshot;
    stale, bad := CollectStale(aead, c, snapshot, rows);
    if bad.Some? {
      more := StoppedRuns(Rotation(aead, c), cells, window.before);
      return;
    }
    var live := ApplyAll(snapshot, window.during);
    ghost var end;
    tx, end := FinishBatch(aead, c, snapshot, rows, live, stale, Commits(apply, fault, stale), nonces);
    more := BatchRuns(Rotation(aead, c), cells, window, (set id | id in rows), end, tx);
  }

  // ---- the traffic of a run --------------------------------------------------

  ghost predicate CurrentTraffic(c: FieldCipher, traffic: Traffic) {
    forall window :: window in traffic ==> AllCurrent(c, window.before) && AllCurrent(c, window.during)
  }

  ghost function Remaining(cells: Cells, after: int): set<nat> {
    set id | id in cells && cells[id].Some? && id > after
  }

  /** Without further writes to the column, a full page leaves less to read. */
  lemma RemainingShrinks(cells: Cells, tx: Cells, after: int, batch: nat, page: seq<nat>, last: int)
    requires IsPage(NonNull(cells), after, batch, page, last) && page != []
    requires tx.Keys == cells.Keys && NonNull(tx) <= NonNull(cells)
    ensures Remaining(tx, last) < Remaining(cells, after)
  {
    assert last in page;
    forall id | id in Remaining(tx, last) ensures id in Remaining(cells, after) {
      assert id in NonNull(tx);
    }
    assert last in Remaining(cells, after) && last !in Remaining(tx, last);
  }

  ghost predicate NoneStaleUpTo(c: FieldCipher, cells: Cells, after: int) {
    forall id :: id in Stale(c, cells) ==> id > after
  }

  /** On a column nobody writes to, a turn moves the frontier, or stops with the column as it was. */
  lemma TurnAdvances(aead: Aead, c: FieldCipher, before: Cells, cells: Cells, apply: bool, after: int, batch: nat,
                     fault: Fault, visits: seq<nat>, rewrites: seq<nat>, page: seq<nat>, last: int,
                     stale: seq<(nat, string)>, tx: Cells)
    requires Progress(aead, c, before, cells, apply, after, visits, rewrites) && after >= -1
    requires IsPage(NonNull(cells), after, batch, page, last) && Collected(aead, c, cells, page, stale)
    requires Finished(aead, c, cells, stale, Commits(apply, fault, stale), tx)
    ensures Commits(apply, fault, stale) || !apply ==>
      Progress(aead, c, before, tx, apply, last, visits + page, rewrites + FirstOf(stale))
  {
    assert NonNull(cells) == NonNull(before) by {
      assert forall id :: id in before ==> (cells[id].Some? <==> before[id].Some?);
    }
    if Commits(apply, fault, stale) {
      assert forall s :: s in stale ==> s.0 in NonNull(cells);
      BatchAdvances(aead, c, before, cells, after, page, last, stale, tx);
    }
    if Commits(apply, fault, stale) || !apply {
      ProgressAdvances(aead, c, before, cells, apply, after, visits, rewrites, page, last, stale, tx);
    }
  }

  lemma ProgressKeepsRows(aead: Aead, c: FieldCipher, before: Cells, cells: Cells, apply: bool, after: int,
                          visits: seq<nat>, rewrites: seq<nat>)
    requires Progress(aead, c, before, cells, apply, after, visits, rewrites)
    ensures NonNull(cells) == NonNull(before)
    ensures forall id :: id in Stale(c, cells) && id > after ==> id in Stale(c, before) && cells[id] == before[id]
  {
    assert forall id :: id in before ==> (cells[id].Some? <==> before[id].Some?);
  }

  /** The loop invariant: a run so far, clean behind the cursor. */
  ghost predicate Sound(aead: Aead, c: FieldCipher, before: Cells, cells: Cells, traffic: Traffic, k: nat, apply: bool,
                        after: int, steps: seq<ColumnStep>)
  {
    && after >= -1 && LeadsTo(Rotation(aead, c), before, steps, cells) && WritesOf(steps) == Sent(traffic, k)
    && (apply && CurrentTraffic(c, traffic) ==> NoneStaleUpTo(c, cells, after))
  }

  /** What a run that has ended says of the column, whoever else wrote to it. */
  ghost predicate Ended(aead: Aead, c: FieldCipher, before: Cells, cells: Cells, traffic: Traffic, apply: bool,
                        outcome: Outcome, steps: seq<ColumnStep>)
  {
    && LeadsTo(Rotation(aead, c), before, steps, cells) && WritesOf(steps) <= Sent(traffic, |traffic|)
    && (outcome.Done? && apply && CurrentTraffic(c, traffic) ==> Stale(c, cells) == {})
  }

  /** And what it says of a column nobody else wrote to. */
  ghost predicate EndedQuietly(aead: Aead, c: FieldCipher, before: Cells, cells: Cells, apply: bool, scanned: nat,
                               rewritten: nat, outcome: Outcome, frontier: int, visits: seq<nat>)
  {
    && RotatedUpTo(aead, c, before, cells, if apply then frontier else -1)
    && match outcome
       case Interrupted(_) => true
       case Unreadable(id) => id in Stale(c, before) && c.Open(aead, before[id].value).Err?
       case Done =>
         && Lists(visits, NonNull(before), frontier) && scanned == |visits| == |NonNull(before)|
         && (forall id :: id in NonNull(before) ==> id <= frontier)
         && rewritten == |Stale(c, before)|
         && forall id :: id in Stale(c, before) ==> c.Open(aead, before[id].value).Ok?
  }

  lemma DoneQuietly(aead: Aead, c: FieldCipher, before: Cells, cells: Cells, apply: bool, last: int,
                    visits: seq<nat>, rewrites: seq<nat>)
    requires Progress(aead, c, before, cells, apply, last, visits, rewrites)
    requires forall id :: id in NonNull(before) ==> id <= last
    ensures EndedQuietly(aead, c, before, cells, apply, |visits|, |rewrites|, Done, last, visits)
  {
    AllListed(visits, rewrites, NonNull(before), Stale(c, before), last);
  }

  /** What holds at the head of the loop. */
  ghost predicate AtHead(aead: Aead, c: FieldCipher, before: Cells, cells: Cells, traffic: Traffic, k: nat, apply: bool,
                         after: int, scanned: nat, rewritten: nat, visits: seq<nat>, rewrites: seq<nat>,
                         steps: seq<ColumnStep>)
  {
    && Sound(aead, c, before, cells, traffic, k, apply, after, steps)
    && (traffic == [] ==>
          && Progress(aead, c, before, cells, apply, after, visits, rewrites)
          && scanned == |visits| && rewritten == |rewrites|)
  }

  /** The run can be interrupted there. */
  lemma StopsAtHead(aead: Aead, c: FieldCipher, before: Cells, cells: Cells, traffic: Traffic, k: nat, apply: bool,
                    after: int, scanned: nat, rewritten: nat, visits: seq<nat>, rewrites: seq<nat>,
                    steps: seq<ColumnStep>, n: nat)
    requires AtHead(aead, c, before, cells, traffic, k, apply, after, scanned, rewritten, visits, rewrites, steps)
    ensures Ended(aead, c, before, cells, traffic, apply, Interrupted(n), steps)
    ensures traffic == [] ==>
      EndedQuietly(aead, c, before, cells, apply, scanned, rewritten, Interrupted(n), after, visits)
  {
    SentIsAll(traffic, k);
  }

  /** And it is done there after a short page. */
  lemma DoneAtHead(aead: Aead, c: FieldCipher, before: Cells, cells: Cells, traffic: Traffic, k: nat, apply: bool,
                   after: int, scanned: nat, rewritten: nat, visits: seq<nat>, rewrites: seq<nat>,
                   steps: seq<ColumnStep>)
    requires AtHead(aead, c, before, cells, traffic, k, apply, after, scanned, rewritten, visits, rewrites, steps)
    requires apply && CurrentTraffic(c, traffic) ==> Stale(c, cells) == {}
    requires traffic == [] ==> forall id :: id in NonNull(before) ==> id <= after
    ensures Ended(aead, c, before, cells, traffic, apply, Done, steps)
    ensures traffic == [] ==> EndedQuietly(aead, c, before, cells, apply, scanned, rewritten, Done, after, visits)
  {
    SentIsAll(traffic, k);
    if traffic == [] {
      DoneQuietly(aead, c, before, cells, apply, after, visits, rewrites);
    }
  }

  /** One batch as part of the run so far. */
  method TakeBatch(aead: Aead, c: FieldCipher, cells: Cells, apply: bool, after: int, batch: nat, fault: Fault,
                   traffic: Traffic, k: nat, nonces: nat -> Bytes, ghost before: Cells, ghost visits: seq<nat>,
                   ghost rewrites: seq<nat>, ghost steps: seq<ColumnStep>)
    returns (tx: Cells, read: nat, stale: seq<(nat, string)>, last: int, bad: Option<nat>, ghost page: seq<nat>,
             ghost steps': seq<ColumnStep>)
    requires aead.Lawful() && c.Valid() && batch >= 1 && forall n :: |nonces(n)| == NONCE_BYTES
    requires Sound(aead, c, before, cells, traffic, k, apply, after, steps)
    requires traffic == [] ==> Progress(aead, c, before, cells, apply, after, visits, rewrites)
    ensures read == |page|
    ensures LeadsTo(Rotation(aead, c), before, steps', tx) && WritesOf(steps') <= Sent(traffic, |traffic|)
    ensures bad.None? && (Commits(apply, fault, stale) || !apply) ==>
      && Sound(aead, c, before, tx, traffic, k + 1, apply, last, steps')
      && (traffic == [] ==> Progress(aead, c, before, tx, apply, last, visits + page, rewrites + FirstOf(stale)))
    ensures bad.None? && Commits(apply, fault, stale) && CurrentTraffic(c, traffic) && read < batch ==>
      Stale(c, tx) == {}
    ensures traffic == [] && (bad.Some? || !Commits(apply, fault, stale)) ==> tx == cells
    ensures traffic == [] && bad.Some? ==> bad.value in Stale(c, before) && c.Open(aead, before[bad.value].value).Err?
    ensures k >= |traffic| && page != [] ==> Remaining(tx, last) < Remaining(cells, after)
    ensures traffic == [] && read < batch ==> forall id :: id in NonNull(before) ==> id <= last
  {
    ghost var more;
    tx, read, stale, last, bad, page, more :=
      RunBatch(aead, c, cells, apply, after, batch, fault, WindowAt(traffic, k), nonces);
    TurnRuns(Rotation(aead, c), before, cells, tx, steps, more, traffic, k, bad.Some?);
    steps' := steps + more;
    if traffic == [] {
      ProgressKeepsRows(aead, c, before, cells, apply, after, visits, rewrites);
      if bad.None? {
        TurnAdvances(aead, c, before, cells, apply, after, batch, fault, visits, rewrites, page, last, stale, tx);
      }
    }
    if bad.None? && Commits(apply, fault, stale) && CurrentTraffic(c, traffic) {
      TurnLeavesNoStale(aead, c, cells, traffic, k, tx, after, batch, page, last, stale);
    }
    if k >= |traffic| && page != [] {
      RemainingShrinks(cells, tx, after, batch, page, last);
    }
  }

  /** One turn of the loop: its next state, or how the run ends. */
  method Turn(aead: Aead, c: FieldCipher, cells: Cells, apply: bool, after: int, batch: nat, fault: Fault,
              traffic: Traffic, k: nat, nonces: nat -> Bytes, scanned: nat, rewritten: nat,
              ghost before: Cells, ghost visits: seq<nat>, ghost rewrites: seq<nat>, ghost steps: seq<ColumnStep>)
    returns (tx: Cells, last: int, scanned': nat, rewritten': nat, outcome: Option<Outcome>,
             ghost visits': seq<nat>, ghost rewrites': seq<nat>, ghost steps': seq<ColumnStep>)
    requires aead.Lawful() && c.Valid() && batch >= 1 && forall n :: |nonces(n)| == NONCE_BYTES
    requires AtHead(aead, c, before, cells, traffic, k, apply, after, scanned, rewritten, visits, rewrites, steps)
    ensures outcome.None? ==>
      && AtHead(aead, c, before, tx, traffic, k + 1, apply, last, scanned', rewritten', visits', rewrites', steps')
      && (k >= |traffic| ==> Remaining(tx, last) < Remaining(cells, after))
    ensures outcome.Some? ==>
      && Ended(aead, c, before, tx, traffic, apply, outcome.value, steps')
      && (traffic == [] ==>
            EndedQuietly(aead, c, before, tx, apply, scanned', rewritten', outcome.value, last, visits'))
    ensures outcome.Some? && outcome.value.Interrupted? ==> outcome.value.batch == k && !fault.NoFault?
  {
    tx, last, scanned', rewritten', visits', rewrites', steps' :=
      cells, after, scanned, rewritten, visits, rewrites, steps;
    if fault.QueryFails? {
      StopsAtHead(aead, c, before, cells, traffic, k, apply, after, scanned, rewritten, visits, rewrites, steps, k);
      return tx, last, scanned', rewritten', Some(Interrupted(k)), visits', rewrites', steps';
    }
    var read, stale, reached, bad;
    ghost var page;
    tx, read, stale, reached, bad, page, steps' :=
      TakeBatch(aead, c, cells, apply, after, batch, fault, traffic, k, nonces, before, visits, rewrites, steps);
    if bad.Some? {
      return tx, last, scanned', rewritten', Some(Unreadable(bad.value)), visits', rewrites', steps';
    }
    scanned' := scanned + read;
    if fault.CommitFails? && apply && stale != [] {
      return tx, last, scanned', rewritten', Some(Interrupted(k)), visits', rewrites', steps';
    }
    last, rewritten', visits', rewrites' := reached, rewritten + |stale|, visits + page, rewrites + FirstOf(stale);
    if read < batch {
      DoneAtHead(aead, c, before, tx, traffic, k + 1, apply, last, scanned', rewritten', visits', rewrites', steps');
      return tx, last, scanned', rewritten', Some(Done), visits', rewrites', steps';
    }
    if fault.ContextDone? {
      StopsAtHead(aead, c, before, tx, traffic, k + 1, apply, last, scanned', rewritten', visits', rewrites', steps',
                  k);
      return tx, last, scanned', rewritten', Some(Interrupted(k)), visits', rewrites', steps';
    }
    outcome := None;
  }

  class Column {
    var cells: Cells

    constructor (initial: Cells)
      ensures cells == initial
    {
      cells := initial;
    }

    /**
     Walks the column in id order while the API writes to it. The whole is a
     run of the steps of LiveColumn, so a row ends with the text the API alone
     would have left in it exactly when it is not overtaken; and a run that
     ends well leaves no stale row behind if the API seals with this ring.

     On a column nobody writes to, a run that ends well has visited every
     non-null row exactly once and, on apply, left no stale row; wherever it
     stops, the rows up to `frontier` are rotated and the others untouched.
     */
    method RotateColumn(aead: Aead, c: FieldCipher, apply: bool, batch: nat, faults: nat -> Fault, traffic: Traffic,
                        nonces: nat -> nat -> Bytes)
      returns (scanned: nat, rewritten: nat, outcome: Outcome, ghost frontier: int, ghost visits: seq<nat>,
               ghost steps: seq<ColumnStep>)
      requires aead.Lawful() && c.Valid() && batch >= 1
      requires forall k, n :: |nonces(k)(n)| == NONCE_BYTES
      modifies this
      ensures Ended(aead, c, old(cells), cells, traffic, apply, outcome, steps)
      ensures traffic == [] ==>
        EndedQuietly(aead, c, old(cells), cells, apply, scanned, rewritten, outcome, frontier, visits)
      ensures outcome.Interrupted? ==> !faults(outcome.batch).NoFault?
    {
      ghost var before := cells;
      ghost var rewrites: seq<nat> := [];
      scanned, rewritten, frontier, visits, steps := 0, 0, -1, [], [];
      var after: int, k: nat := -1, 0;
      while true
        invariant frontier == after
        invariant AtHead(aead, c, before, cells, traffic, k, apply, after, scanned, rewritten, visits, rewrites, steps)
        decreases if k < |traffic| then |traffic| - k else 0, Remaining(cells, after)
      {
        var tx, stop;
        tx, after, scanned, rewritten, stop, visits, rewrites, steps :=
          Turn(aead, c, cells, apply, after, batch, faults(k), traffic, k, nonces(k), scanned, rewritten,
               before, visits, rewrites, steps);
        cells, frontier := tx, after;
        if stop.Some? {
          outcome := stop.value;
          return;
        }
        k := k + 1;
      }
    }
  }

  // ---- what a run means for readers ---------------------------------------

  /** Wherever a run stops, every cell reads as it did before the run. */
  lemma RotationKeepsReads(aead: Aead, c: FieldCipher, before: Cells, after: Cells, frontier: int, id: nat)
    requires RotatedUpTo(aead, c, before, after, frontier)
    ensures Reads(aead, c, after, id) == Reads(aead, c, before, id)
  {
  }

  /** After a complete run the retired versions are not needed: primary and legacy alone read everything as before. */
  lemma RetiringIsSafe(aead: Aead, c: FieldCipher, before: Cells, after: Cells, frontier: int, id: nat)
    requires c.Valid() && RotatedUpTo(aead, c, before, after, frontier)
    requires forall i :: i in NonNull(before) ==> i <= frontier
    ensures Stale(c, after) == {}
    ensures Reads(aead, c.Retired(), after, id) == Reads(aead, c, before, id)
  {
    forall i | i in after && after[i].Some?
      ensures !c.NeedsRotation(after[i].value)
    {
      assert i in before && (i in NonNull(before) ==> i <= frontier);
    }
    RotationKeepsReads(aead, c, before, after, frontier, id);
    RetiredRingReads(aead, c, after, id);
  }

  /**
   The primary key alone, without the legacy key, reads a readable row as the
   whole ring did before a complete run exactly when the run rewrote the row or
   the primary key had sealed it: only a row that looks up to date and is not
   keeps the legacy key needed.
   */
  lemma OldKeysGoExactlyWhen(aead: Aead, c: FieldCipher, before: Cells, after: Cells, frontier: int, id: nat)
    requires c.Valid() && RotatedUpTo(aead, c, before, after, frontier)
    requires id in NonNull(before) && id <= frontier && c.Open(aead, before[id].value).Ok?
    ensures Reads(aead, c.Retired().WithoutLegacy(), after, id) == Reads(aead, c, before, id)
      <==> id in Stale(c, before) || GcmOpen(aead, c.keys[c.primary], before[id].value[1..]).Some?
  {
    if id in Stale(c, before) {
      CarriedOpens(aead, c, after[id].value, c.Open(aead, before[id].value).value);
    } else {
      LegacyKeyStillNeeded(aead, c, before[id].value);
    }
  }

  /**
   A run over a column the API writes to: each row ends with the text the API
   alone would have left in it exactly when it is not overtaken, and after a
   complete run primary and legacy alone read every row as the whole ring does.
   */
  lemma LiveRotation(aead: Aead, c: FieldCipher, before: Cells, after: Cells, traffic: Traffic, outcome: Outcome,
                     steps: seq<ColumnStep>, id: nat)
    requires c.Valid() && Ended(aead, c, before, after, traffic, true, outcome, steps)
    ensures Reads(aead, c, after, id) == Reads(aead, c, Written(before, steps), id)
      <==> !Overtaken(aead, c, State(before, map[]), steps, id)
    ensures outcome.Done? && CurrentTraffic(c, traffic) ==>
      Reads(aead, c.Retired(), after, id) == Reads(aead, c, after, id)
  {
    ConcurrentWriteSurvives(aead, c, before, steps, id);
    if outcome.Done? && CurrentTraffic(c, traffic) {
      RetiredRingReads(aead, c, after, id);
    }
  }

  /** One erased account keeps a stale row in the column that no ring can read. */
  lemma ErasedRowIsUnreadable(aead: Aead, c: FieldCipher, cells: Cells, id: nat)
    requires c.Valid() && id in cells && cells[id] == Some(TOMBSTONE)
    ensures id in Stale(c, cells) && c.Open(aead, cells[id].value).Err?
  {
  }

  lemma UndisturbedRun(aead: Aead, c: FieldCipher, before: Cells, after: Cells, scanned: nat, rewritten: nat,
                       outcome: Outcome, frontier: int, visits: seq<nat>)
    requires c.Valid() && !outcome.Interrupted?
    requires EndedQuietly(aead, c, before, after, true, scanned, rewritten, outcome, frontier, visits)
    ensures outcome.Done? <==> forall id :: id in Stale(c, before) ==> c.Open(aead, before[id].value).Ok?
    ensures outcome.Done? ==> Stale(c, after) == {}
    ensures (exists id :: id in before && before[id] == Some(TOMBSTONE)) ==> !outcome.Done?
    ensures forall id :: Reads(aead, c, after, id) == Reads(aead, c, before, id)
  {
    forall id: nat ensures Reads(aead, c, after, id) == Reads(aead, c, before, id) {
      RotationKeepsReads(aead, c, before, after, frontier, id);
    }
    if id :| id in before && before[id] == Some(TOMBSTONE) {
      ErasedRowIsUnreadable(aead, c, before, id);
    }
    if outcome.Done? {
      RetiringIsSafe(aead, c, before, after, frontier, 0);
    }
  }

  lemma CleanRunIsIdle(aead: Aead, c: FieldCipher, before: Cells, after: Cells, scanned: nat, rewritten: nat,
                       outcome: Outcome, frontier: int, visits: seq<nat>)
    requires Stale(c, before) == {} && !outcome.Interrupted?
    requires EndedQuietly(aead, c, before, after, true, scanned, rewritten, outcome, frontier, visits)
    ensures after == before && outcome.Done? && rewritten == 0
  {
  }

  /**
   Left undisturbed, an applying run completes exactly when every stale row
   opens; a second run then rewrites nothing. In particular it never completes
   on a column holding an erased account.
   */
  method RotateTwice(aead: Aead, c: FieldCipher, column: Column, batch: nat, nonces: nat -> nat -> Bytes)
    returns (completed: bool, again: nat)
    requires aead.Lawful() && c.Valid() && batch >= 1
    requires forall k, n :: |nonces(k)(n)| == NONCE_BYTES
    modifies column
    ensures completed <==> forall id :: id in Stale(c, old(column.cells)) ==>
      c.Open(aead, old(column.cells)[id].value).Ok?
    ensures completed ==> again == 0 && Stale(c, column.cells) == {}
    ensures (exists id :: id in old(column.cells) && old(column.cells)[id] == Some(TOMBSTONE)) ==> !completed
    ensures forall id :: Reads(aead, c, column.cells, id) == Reads(aead, c, old(column.cells), id)
  {
    ghost var before := column.cells;
    var scanned, rewritten, outcome, frontier, visits, steps :=
      column.RotateColumn(aead, c, true, batch, k => NoFault, [], nonces);
    UndisturbedRun(aead, c, before, column.cells, scanned, rewritten, outcome, frontier, visits);
    completed, again := outcome.Done?, 0;
    if completed {
      ghost var middle := column.cells;
      var rescanned, more, second, reach, revisits, _ :=
        column.RotateColumn(aead, c, true, batch, k => NoFault, [], nonces);
      CleanRunIsIdle(aead, c, middle, column.cells, rescanned, more, second, reach, revisits);
      again := more;
    }
  }

  // ---- a column from before there were versions ---------------------------------

  /** A row as it was sealed with the legacy key. */
  datatype LegacyRow = LegacyRow(nonce: Bytes, text: string)

  /** Every row is an unversioned blob, and none is shadowed by a version of the ring that opens it otherwise. */
  ghost predicate LegacyColumn(aead: Aead, c: FieldCipher, key: Bytes, rows: map<nat, LegacyRow>, cells: Cells) {
    && cells.Keys == rows.Keys
    && forall id :: id in rows ==>
         && |rows[id].nonce| == 12
         && cells[id] == Some(rows[id].nonce + aead.seal(key, rows[id].nonce, rows[id].text))
         && (rows[id].nonce[0] in c.keys ==>
               var other := GcmOpen(aead, c.keys[rows[id].nonce[0]], cells[id].value[1..]);
               other.None? || other == Some(rows[id].text))
  }

  lemma LegacyRowReads(aead: Aead, c: FieldCipher, key: Bytes, rows: map<nat, LegacyRow>, cells: Cells, id: nat)
    requires aead.Lawful() && c.Valid() && c.legacy == Some(key) && LegacyColumn(aead, c, key, rows, cells)
    requires id in rows
    ensures Reads(aead, c, cells, id) == Some(Ok(rows[id].text))
    ensures id in Stale(c, cells) <==> rows[id].nonce[0] != c.primary
  {
    var row := rows[id];
    assert cells[id].value[0] == row.nonce[0];
    if row.nonce[0] in c.keys {
      LegacyOpensExactlyWhen(aead, c, key, row.nonce, row.text);
    } else {
      assert |c.keys.Keys| != 0;
      LegacyOpens(aead, c, key, row.nonce, row.text);
    }
  }

  /**
   Left undisturbed, an applying run over such a column completes, rewrites
   every row whose nonce does not start with the primary version, and leaves
   every row reading as its text; the rewritten ones need the legacy key no more.
   */
  method RotateLegacyColumn(aead: Aead, c: FieldCipher, column: Column, batch: nat, nonces: nat -> nat -> Bytes,
                            ghost key: Bytes, ghost rows: map<nat, LegacyRow>)
    returns (completed: bool, rewritten: nat)
    requires aead.Lawful() && c.Valid() && c.legacy == Some(key) && batch >= 1
    requires LegacyColumn(aead, c, key, rows, column.cells)
    requires forall k, n :: |nonces(k)(n)| == NONCE_BYTES
    modifies column
    ensures completed && rewritten == |set id | id in rows && rows[id].nonce[0] != c.primary|
    ensures forall id :: id in rows ==>
      && Reads(aead, c, column.cells, id) == Some(Ok(rows[id].text))
      && (rows[id].nonce[0] != c.primary ==>
            Reads(aead, c.Retired().WithoutLegacy(), column.cells, id) == Some(Ok(rows[id].text)))
  {
    ghost var before := column.cells;
    var scanned, count, outcome, frontier, visits, steps :=
      column.RotateColumn(aead, c, true, batch, k => NoFault, [], nonces);
    UndisturbedRun(aead, c, before, column.cells, scanned, count, outcome, frontier, visits);
    forall id | id in rows
      ensures Reads(aead, c, before, id) == Some(Ok(rows[id].text))
      ensures id in Stale(c, before) <==> rows[id].nonce[0] != c.primary
    {
      LegacyRowReads(aead, c, key, rows, before, id);
    }
    assert Stale(c, before) == set id | id in rows && rows[id].nonce[0] != c.primary;
    forall id | id in rows && rows[id].nonce[0] != c.primary
      ensures Reads(aead, c.Retired().WithoutLegacy(), column.cells, id) == Some(Ok(rows[id].text))
    {
      OldKeysGoExactlyWhen(aead, c, before, column.cells, frontier, id);
    }
    completed, rewritten := outcome.Done?, count;
  }
}
