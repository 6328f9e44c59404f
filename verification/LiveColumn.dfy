/**
 A ciphertext column that `cmd/reencrypt` rotates while the API goes on writing
 to it: the steps of either, and which written texts survive.
 */
module LiveColumn {
  import opened Wrappers
  import opened FieldCiphers
  import opened LiveTable

  type Cells = map<nat, Option<Bytes>>

  ghost function NonNull(cells: Cells): set<nat> {
    set id | id in cells && cells[id].Some?
  }

  ghost function Stale(c: FieldCipher, cells: Cells): set<nat> {
    set id | id in cells && cells[id].Some? && c.NeedsRotation(cells[id].value)
  }

  type Reading = Option<Result<string, CipherError>>

  ghost function ReadCell(aead: Aead, c: FieldCipher, cell: Option<Bytes>): Reading {
    if cell.Some? then Some(c.Open(aead, cell.value)) else None
  }

  /** Reading a cell, as the API does at any moment before, during or after a run. */
  ghost function Reads(aead: Aead, c: FieldCipher, cells: Cells, id: nat): Reading {
    if id in cells then ReadCell(aead, c, cells[id]) else None
  }

  // ---- the steps ------------------------------------------------------------

  type ColumnState = State<Option<Bytes>, string>

  type ColumnStep = Step<Option<Bytes>, Bytes>

  type ColumnWrite = Write<Option<Bytes>>

  /** Stale cells are read as their texts, and a commit writes fresh seals of them. */
  ghost function Rotation(aead: Aead, c: FieldCipher): Tool<Option<Bytes>, string, Bytes> {
    Tool((cell: Option<Bytes>) => StaleText(aead, c, cell),
         (cell: Option<Bytes>, blob: Bytes) => Some(blob),
         (text: string, blob: Bytes) => c.Carries(aead, blob, text))
  }

  function StaleText(aead: Aead, c: FieldCipher, cell: Option<Bytes>): Option<string> {
    if cell.Some? && c.NeedsRotation(cell.value) && c.Open(aead, cell.value).Ok?
    then Some(c.Open(aead, cell.value).value) else None
  }

  /** What the API alone would have made of the column. */
  ghost function Written(cells: Cells, steps: seq<ColumnStep>): Cells
    decreases |steps|
  {
    if steps == [] then cells
    else Written(if steps[0].Api? then Apply(cells, steps[0].write) else cells, steps[1..])
  }

  // ---- when a written text is lost --------------------------------------------

  /** The row is written while the batch under way holds another text of it. */
  ghost predicate CrossesBatch(aead: Aead, c: FieldCipher, s: ColumnState, write: ColumnWrite) {
    write.Put? && write.id in s.batch && ReadCell(aead, c, write.row) != Some(Ok(s.batch[write.id]))
  }

  /**
   The last write to the row falls between a page read and the commit of that page, and changes
   the text that was read.
   */
  ghost predicate Overtaken(aead: Aead, c: FieldCipher, s: ColumnState, steps: seq<ColumnStep>, id: nat)
    decreases |steps|
  {
    steps != [] &&
    if Writes(steps[0], id) && !WritesLater(steps[1..], id)
    then CrossesBatch(aead, c, s, steps[0].write) && CommitsNext(steps[1..])
    else Overtaken(aead, c, Next(Rotation(aead, c), s, steps[0]), steps[1..], id)
  }

  /** What the batch holds of the row is the row's text. */
  ghost predicate Honest(aead: Aead, c: FieldCipher, s: ColumnState, id: nat) {
    id in s.batch && id in s.table ==> Reads(aead, c, s.table, id) == Some(Ok(s.batch[id]))
  }

  lemma StepKeepsUnwritten(aead: Aead, c: FieldCipher, s: ColumnState, step: ColumnStep, id: nat)
    requires Enabled(Rotation(aead, c), s, step) && !Writes(step, id) && Honest(aead, c, s, id)
    ensures Reads(aead, c, Next(Rotation(aead, c), s, step).table, id) == Reads(aead, c, s.table, id)
    ensures Honest(aead, c, Next(Rotation(aead, c), s, step), id)
  {
  }

  /** A row nobody writes to keeps its text, through any number of batches. */
  lemma {:induction false} UnwrittenKeepsText(aead: Aead, c: FieldCipher, s: ColumnState, steps: seq<ColumnStep>,
                                              id: nat)
    requires CanRun(Rotation(aead, c), s, steps) && !WritesLater(steps, id) && Honest(aead, c, s, id)
    ensures Reads(aead, c, Run(Rotation(aead, c), s, steps).table, id) == Reads(aead, c, s.table, id)
    decreases |steps|
  {
    if steps != [] {
      LaterInTail(steps, id);
      StepKeepsUnwritten(aead, c, s, steps[0], id);
      UnwrittenKeepsText(aead, c, Next(Rotation(aead, c), s, steps[0]), steps[1..], id);
    }
  }

  /** A row whose text the batch has wrong loses it exactly when that batch commits. */
  lemma {:induction false} WrongBatchDecides(aead: Aead, c: FieldCipher, s: ColumnState, steps: seq<ColumnStep>,
                                             id: nat)
    requires CanRun(Rotation(aead, c), s, steps) && !WritesLater(steps, id) && !Honest(aead, c, s, id)
    ensures Reads(aead, c, Run(Rotation(aead, c), s, steps).table, id) == Reads(aead, c, s.table, id)
      <==> !CommitsNext(steps)
    decreases |steps|
  {
    if steps != [] {
      LaterInTail(steps, id);
      var next := Next(Rotation(aead, c), s, steps[0]);
      if steps[0].Api? {
        WrongBatchDecides(aead, c, next, steps[1..], id);
      } else {
        assert Honest(aead, c, next, id);
        UnwrittenKeepsText(aead, c, next, steps[1..], id);
      }
    }
  }

  lemma {:induction false} UnwrittenIsAsBefore(cells: Cells, steps: seq<ColumnStep>, id: nat)
    requires !WritesLater(steps, id)
    ensures id in Written(cells, steps) <==> id in cells
    ensures id in cells ==> Written(cells, steps)[id] == cells[id]
    decreases |steps|
  {
    if steps != [] {
      LaterInTail(steps, id);
      UnwrittenIsAsBefore(if steps[0].Api? then Apply(cells, steps[0].write) else cells, steps[1..], id);
    }
  }

  lemma {:induction false} UnwrittenIsNotOvertaken(aead: Aead, c: FieldCipher, s: ColumnState, steps: seq<ColumnStep>,
                                                   id: nat)
    requires !WritesLater(steps, id)
    ensures !Overtaken(aead, c, s, steps, id)
    decreases |steps|
  {
    if steps != [] {
      LaterInTail(steps, id);
      UnwrittenIsNotOvertaken(aead, c, Next(Rotation(aead, c), s, steps[0]), steps[1..], id);
    }
  }

  /** The last write to a row stands exactly when it does not cross a batch that commits. */
  lemma LastWriteStands(aead: Aead, c: FieldCipher, s: ColumnState, steps: seq<ColumnStep>, id: nat)
    requires CanRun(Rotation(aead, c), s, steps) && steps != [] && Writes(steps[0], id) && !WritesLater(steps[1..], id)
    ensures Reads(aead, c, Run(Rotation(aead, c), s, steps).table, id)
      == Reads(aead, c, Next(Rotation(aead, c), s, steps[0]).table, id)
      <==> !(CrossesBatch(aead, c, s, steps[0].write) && CommitsNext(steps[1..]))
  {
    var next := Next(Rotation(aead, c), s, steps[0]);
    if CrossesBatch(aead, c, s, steps[0].write) {
      WrongBatchDecides(aead, c, next, steps[1..], id);
    } else {
      UnwrittenKeepsText(aead, c, next, steps[1..], id);
    }
  }

  /** For any row that is written: it ends with the text last written exactly when it is not overtaken. */
  lemma {:induction false} WrittenTextSurvives(aead: Aead, c: FieldCipher, s: ColumnState, other: Cells,
                                               steps: seq<ColumnStep>, id: nat)
    requires CanRun(Rotation(aead, c), s, steps) && WritesLater(steps, id)
    ensures Reads(aead, c, Run(Rotation(aead, c), s, steps).table, id) == Reads(aead, c, Written(other, steps), id)
      <==> !Overtaken(aead, c, s, steps, id)
    decreases |steps|
  {
    var next := Next(Rotation(aead, c), s, steps[0]);
    var other' := if steps[0].Api? then Apply(other, steps[0].write) else other;
    LaterInTail(steps, id);
    if WritesLater(steps[1..], id) {
      WrittenTextSurvives(aead, c, next, other', steps[1..], id);
    } else {
      LastWriteStands(aead, c, s, steps, id);
      UnwrittenIsAsBefore(other', steps[1..], id);
    }
  }

  /**
   The batch's UPDATE names only the id. Over every run of page reads, commits,
   abandoned batches and API writes, from a moment with no batch under way, a
   row ends with the text the API alone would have left in it exactly when its
   last write does not fall between the page read and the commit of a batch
   that holds another text of it.
   */
  lemma ConcurrentWriteSurvives(aead: Aead, c: FieldCipher, cells: Cells, steps: seq<ColumnStep>, id: nat)
    requires CanRun(Rotation(aead, c), State(cells, map[]), steps)
    ensures Reads(aead, c, Run(Rotation(aead, c), State(cells, map[]), steps).table, id)
      == Reads(aead, c, Written(cells, steps), id)
      <==> !Overtaken(aead, c, State(cells, map[]), steps, id)
  {
    var s := State(cells, map[]);
    if WritesLater(steps, id) {
      WrittenTextSurvives(aead, c, s, cells, steps, id);
    } else {
      UnwrittenKeepsText(aead, c, s, steps, id);
      UnwrittenIsAsBefore(cells, steps, id);
      UnwrittenIsNotOvertaken(aead, c, s, steps, id);
    }
  }

  /** Writes that keep clear of the batches under way are never lost. */
  ghost predicate KeepsClear(aead: Aead, c: FieldCipher, s: ColumnState, steps: seq<ColumnStep>)
    decreases |steps|
  {
    steps == []
    || ((steps[0].Api? ==> steps[0].write.id !in s.batch)
      && KeepsClear(aead, c, Next(Rotation(aead, c), s, steps[0]), steps[1..]))
  }

  lemma {:induction false} ClearWritesSurvive(aead: Aead, c: FieldCipher, s: ColumnState, steps: seq<ColumnStep>,
                                              id: nat)
    requires KeepsClear(aead, c, s, steps)
    ensures !Overtaken(aead, c, s, steps, id)
    decreases |steps|
  {
    if steps != [] {
      ClearWritesSurvive(aead, c, Next(Rotation(aead, c), s, steps[0]), steps[1..], id);
    }
  }

  /** A row read as "old", written "new" and committed back as "old". */
  lemma CrossedRowEndsOld(aead: Aead, c: FieldCipher, was: Bytes, now: Bytes, back: Bytes)
    requires StaleText(aead, c, Some(was)) == Some("old") && c.Open(aead, now) == Ok("new")
    requires c.Carries(aead, back, "old")
    ensures var cells: Cells := map[0 := Some(was)];
      var steps := [ReadPage({0}), Api(Put(0, Some(now))), Commit(map[0 := back])];
      && CanRun(Rotation(aead, c), State(cells, map[]), steps)
      && Reads(aead, c, Written(cells, steps), 0) == Some(Ok("new"))
      && Reads(aead, c, Run(Rotation(aead, c), State(cells, map[]), steps).table, 0) == Some(Ok("old"))
  {
    var cells: Cells := map[0 := Some(was)];
    var tool, s := Rotation(aead, c), State(cells, map[]);
    var s1 := Next(tool, s, ReadPage({0}));
    assert s1.batch == map[0 := "old"];
    var end := ThreeStepsRun(tool, s, ReadPage({0}), Api(Put(0, Some(now))), Commit(map[0 := back]));
    CrossingIsWritten(cells, Put(0, Some(now)), Commit(map[0 := back]));
  }

  lemma CrossingIsWritten(cells: Cells, write: ColumnWrite, commit: ColumnStep)
    requires commit.Commit?
    ensures Written(cells, [ReadPage({0}), Api(write), commit]) == Apply(cells, write)
  {
    var steps: seq<ColumnStep> := [ReadPage({0}), Api(write), commit];
    assert steps[1..] == [Api(write), commit] && steps[1..][1..] == [commit] && [commit][1..] == [];
    assert Written(Apply(cells, write), [commit]) == Apply(cells, write);
    assert Written(cells, steps[1..]) == Apply(cells, write);
  }

  /**
   A lost write, under every ring that still reads a retired version: the API
   stores "new" while the batch holds "old", and the commit puts "old" back.
   */
  lemma WriteLost(aead: Aead, c: FieldCipher, version: Byte, nonce: Bytes)
    requires aead.Lawful() && c.Valid() && version in c.keys && version != c.primary && |nonce| == NONCE_BYTES
    ensures var cells: Cells := map[0 := Some([version] + nonce + aead.seal(c.keys[version], nonce, "old"))];
      var write := Put(0, Some([c.primary] + nonce + aead.seal(c.keys[c.primary], nonce, "new")));
      var commit := Commit(map[0 := [c.primary] + nonce + aead.seal(c.keys[c.primary], nonce, "old")]);
      var steps := [ReadPage({0}), Api(write), commit];
      && CanRun(Rotation(aead, c), State(cells, map[]), steps)
      && Reads(aead, c, Written(cells, steps), 0) == Some(Ok("new"))
      && Reads(aead, c, Run(Rotation(aead, c), State(cells, map[]), steps).table, 0) == Some(Ok("old"))
  {
    var was := [version] + nonce + aead.seal(c.keys[version], nonce, "old");
    var now := [c.primary] + nonce + aead.seal(c.keys[c.primary], nonce, "new");
    var back := [c.primary] + nonce + aead.seal(c.keys[c.primary], nonce, "old");
    VersionOpens(aead, c, version, nonce, "old");
    VersionOpens(aead, c, c.primary, nonce, "old");
    VersionOpens(aead, c, c.primary, nonce, "new");
    CarriedAt(aead, c, nonce, "old");
    assert was[0] == version && back[0] == c.primary;
    CrossedRowEndsOld(aead, c, was, now, back);
  }

  // ---- staleness ----------------------------------------------------------------

  /** The API seals with the ring's primary version. */
  predicate Current(c: FieldCipher, write: ColumnWrite) {
    write.Put? && write.row.Some? ==> !c.NeedsRotation(write.row.value)
  }

  ghost predicate AllCurrent(c: FieldCipher, writes: seq<ColumnWrite>) {
    forall w :: w in writes ==> Current(c, w)
  }

  lemma {:induction false} WritesAddNoStale(c: FieldCipher, cells: Cells, writes: seq<ColumnWrite>)
    requires AllCurrent(c, writes)
    ensures Stale(c, ApplyAll(cells, writes)) <= Stale(c, cells)
    decreases |writes|
  {
    if writes != [] {
      assert writes[0] in writes && forall w :: w in writes[1..] ==> w in writes;
      WritesAddNoStale(c, Apply(cells, writes[0]), writes[1..]);
    }
  }

  lemma CommitClears(aead: Aead, c: FieldCipher, cells: Cells, sealed: map<nat, Bytes>)
    requires forall id :: id in sealed ==> !c.NeedsRotation(sealed[id])
    ensures Stale(c, Committed(Rotation(aead, c), cells, sealed)) == Stale(c, cells) - sealed.Keys
  {
  }

  /** Where nothing is stale, primary and legacy alone read everything as the whole ring does. */
  lemma RetiredRingReads(aead: Aead, c: FieldCipher, cells: Cells, id: nat)
    requires c.Valid() && Stale(c, cells) == {}
    ensures Reads(aead, c.Retired(), cells, id) == Reads(aead, c, cells, id)
  {
    if id in cells && cells[id].Some? {
      assert id !in Stale(c, cells);
      RetiredRingAgrees(aead, c, cells[id].value);
    }
  }
}
