/**
 A table that a maintenance tool rewrites in batches while the API goes on
 writing to it: the steps of either, whatever the rows are. A batch is one page
 read and, later, the commit of what was computed from it, or its abandonment.
 */
module LiveTable {
  import opened Wrappers

  /** What the API does to a row: insert or update it, or delete it. */
  datatype Write<R> = Put(id: nat, row: R) | Drop(id: nat)

  function Apply<R>(table: map<nat, R>, w: Write<R>): map<nat, R> {
    match w
    case Put(id, row) => table[id := row]
    case Drop(id) => table - {id}
  }

  function ApplyAll<R>(table: map<nat, R>, writes: seq<Write<R>>): map<nat, R>
    decreases |writes|
  {
    if writes == [] then table else ApplyAll(Apply(table, writes[0]), writes[1..])
  }

  /** What a table holds after a write of the row, or after none. */
  lemma {:induction false} LastWriteDecides<R>(table: map<nat, R>, writes: seq<Write<R>>, id: nat)
    ensures (forall w :: w in writes ==> w.id != id) ==>
      (id in ApplyAll(table, writes) <==> id in table)
      && (id in table ==> ApplyAll(table, writes)[id] == table[id])
    ensures forall k :: 0 <= k < |writes| && writes[k].id == id
                        && (forall n :: k < n < |writes| ==> writes[n].id != id) ==>
      if writes[k].Put? then id in ApplyAll(table, writes) && ApplyAll(table, writes)[id] == writes[k].row
      else id !in ApplyAll(table, writes)
    decreases |writes|
  {
    if writes != [] {
      var rest := writes[1..];
      LastWriteDecides(Apply(table, writes[0]), rest, id);
      forall k | 0 <= k < |writes| && writes[k].id == id
                 && (forall n :: k < n < |writes| ==> writes[n].id != id)
        ensures if writes[k].Put? then id in ApplyAll(table, writes) && ApplyAll(table, writes)[id] == writes[k].row
                else id !in ApplyAll(table, writes)
      {
        if k > 0 {
          assert rest[k - 1] == writes[k];
          assert forall n :: k - 1 < n < |rest| ==> rest[n] == writes[n + 1];
        } else {
          assert forall w :: w in rest ==> exists n :: 0 <= n < |rest| && rest[n] == w && writes[n + 1] == w;
        }
      }
    }
  }

  datatype Step<R, C> = Api(write: Write<R>) | ReadPage(page: set<nat>) | Commit(commit: map<nat, C>) | Abandon

  predicate Writes<R, C>(step: Step<R, C>, id: nat) {
    step.Api? && step.write.id == id
  }

  ghost predicate WritesLater<R, C>(steps: seq<Step<R, C>>, id: nat) {
    exists step :: step in steps && Writes(step, id)
  }

  lemma LaterInTail<R, C>(steps: seq<Step<R, C>>, id: nat)
    requires steps != []
    ensures WritesLater(steps, id) <==> Writes(steps[0], id) || WritesLater(steps[1..], id)
  {
    assert forall step :: step in steps <==> step == steps[0] || step in steps[1..];
  }

  /** The batch under way is committed, and not given up for another page. */
  predicate CommitsNext<R, C>(steps: seq<Step<R, C>>)
    decreases |steps|
  {
    steps != [] && (steps[0].Commit? || (steps[0].Api? && CommitsNext(steps[1..])))
  }

  function ApiSteps<R, C>(writes: seq<Write<R>>): (steps: seq<Step<R, C>>)
    ensures |steps| == |writes|
  {
    seq(|writes|, i requires 0 <= i < |writes| => Api(writes[i]))
  }

  /** The API's share of a run. */
  ghost function WritesOf<R, C>(steps: seq<Step<R, C>>): seq<Write<R>>
    decreases |steps|
  {
    if steps == [] then []
    else
      var n := |steps| - 1;
      WritesOf(steps[..n]) + if steps[n].Api? then [steps[n].write] else []
  }

  lemma {:induction false} WritesOfExtends<R, C>(steps: seq<Step<R, C>>, more: seq<Step<R, C>>)
    ensures WritesOf(steps + more) == WritesOf(steps) + WritesOf(more)
    decreases |more|
  {
    if more == [] {
      assert steps + more == steps;
    } else {
      var n := |more| - 1;
      assert (steps + more)[..|steps| + n] == steps + more[..n];
      WritesOfExtends(steps, more[..n]);
    }
  }

  lemma {:induction false} WritesOfApi<R, C>(writes: seq<Write<R>>)
    ensures WritesOf(ApiSteps<R, C>(writes)) == writes
    decreases |writes|
  {
    if writes != [] {
      var n := |writes| - 1;
      assert ApiSteps<R, C>(writes)[..n] == ApiSteps<R, C>(writes[..n]);
      WritesOfApi<R, C>(writes[..n]);
      assert writes == writes[..n] + [writes[n]];
    }
  }

  lemma NoWritesOf<R, C>(step: Step<R, C>)
    requires !step.Api?
    ensures WritesOf([step]) == []
  {
    assert [step][..0] == [];
  }

  lemma {:induction false} WritesOfHas<R, C>(steps: seq<Step<R, C>>, i: nat)
    requires i < |steps| && steps[i].Api?
    ensures steps[i].write in WritesOf(steps)
    decreases |steps|
  {
    if i < |steps| - 1 {
      WritesOfHas(steps[..|steps| - 1], i);
    }
  }

  // ---- the traffic of a run --------------------------------------------------

  /** What the API writes before a page is read, and between that and the end of its batch. */
  datatype Window<R> = Window(before: seq<Write<R>>, during: seq<Write<R>>)

  function WindowAt<R>(traffic: seq<Window<R>>, k: nat): Window<R> {
    if k < |traffic| then traffic[k] else Window([], [])
  }

  /** What the API wrote up to the end of batch k. */
  function Sent<R>(traffic: seq<Window<R>>, k: nat): seq<Write<R>> {
    if k == 0 then [] else Sent(traffic, k - 1) + (WindowAt(traffic, k - 1).before + WindowAt(traffic, k - 1).during)
  }

  lemma {:induction false} SentIsPrefix<R>(traffic: seq<Window<R>>, k: nat, n: nat)
    requires k <= n
    ensures Sent(traffic, k) <= Sent(traffic, n)
    decreases n
  {
    if k < n {
      SentIsPrefix(traffic, k, n - 1);
    }
  }

  lemma {:induction false} SentIsAll<R>(traffic: seq<Window<R>>, k: nat)
    ensures Sent(traffic, k) <= Sent(traffic, |traffic|)
    decreases k
  {
    if k <= |traffic| {
      SentIsPrefix(traffic, k, |traffic|);
    } else {
      SentIsAll(traffic, k - 1);
    }
  }

  lemma {:induction false} SentIsTraffic<R>(traffic: seq<Window<R>>, k: nat, w: Write<R>)
    requires w in Sent(traffic, k)
    ensures exists window :: window in traffic && (w in window.before || w in window.during)
    decreases k
  {
    if w in Sent(traffic, k - 1) {
      SentIsTraffic(traffic, k - 1, w);
    } else {
      assert WindowAt(traffic, k - 1) in traffic;
    }
  }

  // ---- the machine ------------------------------------------------------------

  /**
   The tool: what a row, if it needs work, is read as; what a commit makes of a
   row; and which values a commit may write for what was read.
   */
  datatype Tool<!R, !V, !C> = Tool(pick: R -> Option<V>, put: (R, C) -> R, fits: (V, C) -> bool)

  /** `batch` holds the rows the tool has read and not yet committed. */
  datatype State<R, V> = State(table: map<nat, R>, batch: map<nat, V>)

  /** What the tool reads of a page. */
  ghost function Picked<R, V, C>(tool: Tool<R, V, C>, table: map<nat, R>, page: set<nat>): map<nat, V> {
    map id | id in page && id in table && tool.pick(table[id]).Some? :: tool.pick(table[id]).value
  }

  /**
   UPDATE ... WHERE id, for every row of the batch: rows deleted meanwhile are passed over,
   nothing else is looked at.
   */
  function Committed<R, V, C>(tool: Tool<R, V, C>, table: map<nat, R>, commit: map<nat, C>): map<nat, R> {
    map id | id in table :: if id in commit then tool.put(table[id], commit[id]) else table[id]
  }

  ghost predicate Fits<R, V, C>(tool: Tool<R, V, C>, batch: map<nat, V>, commit: map<nat, C>) {
    commit.Keys == batch.Keys && forall id :: id in commit ==> tool.fits(batch[id], commit[id])
  }

  ghost predicate Enabled<R, V, C>(tool: Tool<R, V, C>, s: State<R, V>, step: Step<R, C>) {
    step.Commit? ==> Fits(tool, s.batch, step.commit)
  }

  ghost function Next<R, V, C>(tool: Tool<R, V, C>, s: State<R, V>, step: Step<R, C>): State<R, V> {
    match step
    case Api(write) => s.(table := Apply(s.table, write))
    case ReadPage(page) => s.(batch := Picked(tool, s.table, page))
    case Commit(commit) => State(Committed(tool, s.table, commit), map[])
    case Abandon => s.(batch := map[])
  }

  ghost predicate CanRun<R, V, C>(tool: Tool<R, V, C>, s: State<R, V>, steps: seq<Step<R, C>>)
    decreases |steps|
  {
    steps == [] || (Enabled(tool, s, steps[0]) && CanRun(tool, Next(tool, s, steps[0]), steps[1..]))
  }

  ghost function Run<R, V, C>(tool: Tool<R, V, C>, s: State<R, V>, steps: seq<Step<R, C>>): State<R, V>
    decreases |steps|
  {
    if steps == [] then s else Run(tool, Next(tool, s, steps[0]), steps[1..])
  }

  /** The steps are a run from the one state to the other. */
  ghost predicate Reaches<R, V, C>(tool: Tool<R, V, C>, s: State<R, V>, steps: seq<Step<R, C>>, end: State<R, V>) {
    CanRun(tool, s, steps) && Run(tool, s, steps) == end
  }

  /** They are one between tables, with no batch under way at either end. */
  ghost predicate LeadsTo<R, V, C>(tool: Tool<R, V, C>, before: map<nat, R>, steps: seq<Step<R, C>>,
                                   after: map<nat, R>)
  {
    Reaches(tool, State(before, map[]), steps, State(after, map[]))
  }

  lemma {:induction false} RunExtends<R, V, C>(tool: Tool<R, V, C>, s: State<R, V>, steps: seq<Step<R, C>>,
                                               middle: State<R, V>, more: seq<Step<R, C>>, end: State<R, V>)
    requires Reaches(tool, s, steps, middle) && Reaches(tool, middle, more, end)
    ensures Reaches(tool, s, steps + more, end)
    decreases |steps|
  {
    if steps == [] {
      assert [] + more == more;
    } else {
      assert (steps + more)[0] == steps[0] && (steps + more)[1..] == steps[1..] + more;
      RunExtends(tool, Next(tool, s, steps[0]), steps[1..], middle, more, end);
    }
  }

  lemma {:induction false} ApiStepsRun<R, V, C>(tool: Tool<R, V, C>, s: State<R, V>, writes: seq<Write<R>>)
    ensures Reaches(tool, s, ApiSteps(writes), s.(table := ApplyAll(s.table, writes)))
    decreases |writes|
  {
    if writes != [] {
      var steps: seq<Step<R, C>> := ApiSteps(writes);
      assert steps[0] == Api(writes[0]) && steps[1..] == ApiSteps(writes[1..]);
      ApiStepsRun(tool, Next(tool, s, Api(writes[0])), writes[1..]);
    }
  }

  lemma StepRuns<R, V, C>(tool: Tool<R, V, C>, s: State<R, V>, step: Step<R, C>)
    requires Enabled(tool, s, step)
    ensures Reaches(tool, s, [step], Next(tool, s, step))
  {
    assert [step][1..] == [];
    assert Run(tool, Next(tool, s, step), [step][1..]) == Next(tool, s, step);
  }

  lemma ThreeStepsRun<R, V, C>(tool: Tool<R, V, C>, s: State<R, V>, first: Step<R, C>, second: Step<R, C>,
                               third: Step<R, C>)
    returns (end: State<R, V>)
    requires Enabled(tool, s, first) && Enabled(tool, Next(tool, s, first), second)
    requires Enabled(tool, Next(tool, Next(tool, s, first), second), third)
    ensures end == Next(tool, Next(tool, Next(tool, s, first), second), third)
    ensures Reaches(tool, s, [first, second, third], end)
  {
    var s1 := Next(tool, s, first);
    var s2 := Next(tool, s1, second);
    end := Next(tool, s2, third);
    StepRuns(tool, s, first);
    StepRuns(tool, s1, second);
    StepRuns(tool, s2, third);
    RunExtends(tool, s, [first], s1, [second], s2);
    RunExtends(tool, s, [first] + [second], s2, [third], end);
    assert [first] + [second] + [third] == [first, second, third];
  }

  lemma ApiThenStep<R, V, C>(tool: Tool<R, V, C>, s: State<R, V>, writes: seq<Write<R>>, step: Step<R, C>,
                             end: State<R, V>)
    requires var s' := s.(table := ApplyAll(s.table, writes)); Enabled(tool, s', step) && Next(tool, s', step) == end
    requires !step.Api?
    ensures Reaches(tool, s, ApiSteps(writes) + [step], end)
    ensures WritesOf(ApiSteps(writes) + [step]) == writes
  {
    var s' := s.(table := ApplyAll(s.table, writes));
    ApiStepsRun(tool, s, writes);
    StepRuns(tool, s', step);
    RunExtends(tool, s, ApiSteps(writes), s', [step], end);
    WritesOfExtends(ApiSteps(writes), [step]);
    WritesOfApi<R, C>(writes);
    NoWritesOf(step);
  }

  /** A page read, the API's writes up to its end, and that end make up a run that leaves no batch under way. */
  lemma BatchRuns<R, V, C>(tool: Tool<R, V, C>, table: map<nat, R>, window: Window<R>, page: set<nat>, end: Step<R, C>,
                           after: map<nat, R>)
    returns (more: seq<Step<R, C>>)
    requires !end.Api?
    requires var read := ApplyAll(table, window.before);
      var s := State(ApplyAll(read, window.during), Picked(tool, read, page));
      Enabled(tool, s, end) && Next(tool, s, end) == State(after, map[])
    ensures LeadsTo(tool, table, more, after) && WritesOf(more) == window.before + window.during
  {
    var read := ApplyAll(table, window.before);
    var middle := State(read, Picked(tool, read, page));
    ApiThenStep(tool, State(table, map[]), window.before, ReadPage(page), middle);
    ApiThenStep(tool, middle, window.during, end, State(after, map[]));
    var first, second: seq<Step<R, C>> := ApiSteps(window.before) + [ReadPage(page)], ApiSteps(window.during) + [end];
    RunExtends(tool, State(table, map[]), first, middle, second, State(after, map[]));
    WritesOfExtends(first, second);
    more := first + second;
  }

  /** A turn that stops at its page read has only the writes before it. */
  lemma StoppedRuns<R, V, C>(tool: Tool<R, V, C>, table: map<nat, R>, writes: seq<Write<R>>)
    returns (more: seq<Step<R, C>>)
    ensures LeadsTo(tool, table, more, ApplyAll(table, writes)) && WritesOf(more) == writes
  {
    ApiStepsRun(tool, State(table, map[]), writes);
    WritesOfApi<R, C>(writes);
    more := ApiSteps(writes);
  }

  /** The run so far and one more turn, which sends its window, or the first half of it if it stops at the page read. */
  lemma TurnRuns<R, V, C>(tool: Tool<R, V, C>, before: map<nat, R>, table: map<nat, R>, after: map<nat, R>,
                          steps: seq<Step<R, C>>, more: seq<Step<R, C>>, traffic: seq<Window<R>>, k: nat, stopped: bool)
    requires LeadsTo(tool, before, steps, table) && LeadsTo(tool, table, more, after)
    requires WritesOf(steps) == Sent(traffic, k)
    requires WritesOf(more) == WindowAt(traffic, k).before + if stopped then [] else WindowAt(traffic, k).during
    ensures LeadsTo(tool, before, steps + more, after) && WritesOf(steps + more) <= Sent(traffic, |traffic|)
    ensures !stopped ==> WritesOf(steps + more) == Sent(traffic, k + 1)
  {
    RunExtends(tool, State(before, map[]), steps, State(table, map[]), more, State(after, map[]));
    WritesOfExtends(steps, more);
    var w := WindowAt(traffic, k);
    assert Sent(traffic, k) + (w.before + w.during) == (Sent(traffic, k) + w.before) + w.during;
    assert WritesOf(steps + more) <= Sent(traffic, k + 1);
    SentIsAll(traffic, k + 1);
  }
}
