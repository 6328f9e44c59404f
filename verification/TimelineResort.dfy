/**
 resortTimeline of `cmd/admissions-tool`: number every program's events 1..n by
 date, time and stage, in one UPDATE raised by the offset and a second that
 lowers again. The database takes the rows of an UPDATE in an order of its own
 and checks the column and UNIQUE (program, sort_order) at every row.
 */
module TimelineResort {
  import opened Wrappers
  import opened Text
  import opened TimelineOrder
  import Paging

  /** The CASE of the ORDER BY clause. */
  function StageRank(name: string): nat {
    if Contains(name, "簡章") then 10
    else if Contains(name, "報名") then 20
    else if Contains(name, "繳費") then 25
    else if Contains(name, "上傳") && !Contains(name, "證明") then 26
    else if Contains(name, "繳件") || Contains(name, "證明") || Contains(name, "推薦函") then 28
    else if Contains(name, "面試") || Contains(name, "筆試") || Contains(name, "甄試")
         || Contains(name, "二階") || Contains(name, "初試") then 30
    else if Contains(name, "放榜") || Contains(name, "錄取") then 40
    else if Contains(name, "複查") || Contains(name, "成績審查") then 50
    else if Contains(name, "正取") then 60
    else if Contains(name, "備取") || Contains(name, "遞補") then 70
    else if Contains(name, "放棄") then 80
    else 90
  }

  /** The sort key without the old order: NULL dates last, then dates, "-" times last, then times, then stages. */
  function SortKey(e: Event): seq<int> {
    [if e.start.None? then 1 else 0, if e.start.Some? then e.start.value else 0,
     if e.time.None? then 1 else 0, if e.time.Some? then e.time.value else 0, StageRank(e.name)]
  }

  predicate LexLess(a: seq<int>, b: seq<int>)
    requires |a| == |b|
  {
    a != [] && (a[0] < b[0] || (a[0] == b[0] && LexLess(a[1..], b[1..])))
  }

  predicate Precedes(a: Event, b: Event) {
    LexLess(SortKey(a), SortKey(b)) || (SortKey(a) == SortKey(b) && a.order < b.order)
  }

  lemma {:induction false} LexTrichotomy(a: seq<int>, b: seq<int>)
    requires |a| == |b|
    ensures LexLess(a, b) || LexLess(b, a) || a == b
    ensures !(LexLess(a, b) && (LexLess(b, a) || a == b))
    decreases |a|
  {
    if a != [] {
      LexTrichotomy(a[1..], b[1..]);
      assert a == [a[0]] + a[1..] && b == [b[0]] + b[1..];
    }
  }

  lemma {:induction false} LexTransitive(a: seq<int>, b: seq<int>, c: seq<int>)
    requires |a| == |b| == |c| && LexLess(a, b) && LexLess(b, c)
    ensures LexLess(a, c)
    decreases |a|
  {
    if a[0] == b[0] == c[0] {
      LexTransitive(a[1..], b[1..], c[1..]);
    }
  }

  lemma PrecedesOrders(a: Event, b: Event)
    ensures Precedes(a, b) ==> !Precedes(b, a)
    ensures a.order != b.order ==> Precedes(a, b) || Precedes(b, a)
  {
    LexTrichotomy(SortKey(a), SortKey(b));
  }

  lemma PrecedesTransitive(a: Event, b: Event, c: Event)
    requires Precedes(a, b) && Precedes(b, c)
    ensures Precedes(a, c)
  {
    if LexLess(SortKey(a), SortKey(b)) && LexLess(SortKey(b), SortKey(c)) {
      LexTransitive(SortKey(a), SortKey(b), SortKey(c));
    }
  }

  // ---- ROW_NUMBER --------------------------------------------------------------

  function Rows(t: Table, program: int): set<EventId> {
    set i | i in t && t[i].program == program
  }

  function Ahead(t: Table, id: EventId): set<EventId>
    requires id in t
  {
    set i | i in t && t[i].program == t[id].program && Precedes(t[i], t[id])
  }

  /** ROW_NUMBER() OVER (PARTITION BY program ORDER BY ...). */
  function RowNumber(t: Table, id: EventId): nat
    requires id in t
  {
    |Ahead(t, id)| + 1
  }

  function Resorted(t: Table): Table {
    map id | id in t :: t[id].(order := RowNumber(t, id))
  }

  /** The rows the scan counts. */
  function Misplaced(t: Table): set<EventId> {
    set id | id in t && t[id].order != RowNumber(t, id)
  }

  lemma RowNumberGrows(t: Table, i: EventId, j: EventId)
    requires i in t && j in t && t[i].program == t[j].program && Precedes(t[i], t[j])
    ensures RowNumber(t, i) < RowNumber(t, j)
  {
    forall k | k in Ahead(t, i) ensures k in Ahead(t, j) {
      PrecedesTransitive(t[k], t[i], t[j]);
    }
    PrecedesOrders(t[i], t[i]);
    Paging.SubsetSize(Ahead(t, i) + {i}, Ahead(t, j));
  }

  /** Within a program, the numbers order the rows exactly as the clause does, ties by their old orders. */
  lemma RowNumbersFollowClause(t: Table, i: EventId, j: EventId)
    requires UniqueOrders(t) && i in t && j in t && t[i].program == t[j].program
    ensures RowNumber(t, i) < RowNumber(t, j) <==> Precedes(t[i], t[j])
    ensures RowNumber(t, i) == RowNumber(t, j) ==> i == j
  {
    PrecedesOrders(t[i], t[j]);
    if Precedes(t[i], t[j]) {
      RowNumberGrows(t, i, j);
    } else if i != j {
      RowNumberGrows(t, j, i);
    }
  }

  // ---- what comes first ----------------------------------------------------------

  /** The words that name a stage, in the order in which the stages are to stand. */
  const STAGES: seq<seq<string>> := [
    ["簡章"], ["報名"], ["繳費"], ["上傳"], ["繳件", "證明", "推薦函"],
    ["面試", "筆試", "甄試", "二階", "初試"], ["放榜", "錄取"], ["複查", "成績審查"], ["正取"],
    ["備取", "遞補"], ["放棄"]]

  /** The name holds a word of the stage; an upload of certificates is not an upload stage. */
  predicate NamesStage(name: string, stage: nat)
    requires stage < |STAGES|
  {
    (exists word :: word in STAGES[stage] && Contains(name, word)) && (stage == 3 ==> !Contains(name, "證明"))
  }

  /** The stage is the first one the name holds a word of; past the last one, it holds none. */
  predicate IsStage(name: string, stage: nat)
    requires stage <= |STAGES|
  {
    && (stage < |STAGES| ==> NamesStage(name, stage))
    && forall k :: 0 <= k < stage ==> !NamesStage(name, k)
  }

  const RANKS: seq<nat> := [10, 20, 25, 26, 28, 30, 40, 50, 60, 70, 80, 90]

  lemma OneWord(name: string, stage: nat)
    requires stage in {0, 1, 2, 3, 8, 10}
    ensures NamesStage(name, stage)
      <==> Contains(name, STAGES[stage][0]) && (stage == 3 ==> !Contains(name, "證明"))
  {
  }

  lemma TwoWords(name: string, stage: nat)
    requires stage in {6, 7, 9}
    ensures NamesStage(name, stage) <==> Contains(name, STAGES[stage][0]) || Contains(name, STAGES[stage][1])
  {
  }

  lemma MoreWords(name: string)
    ensures NamesStage(name, 4) <==> Contains(name, "繳件") || Contains(name, "證明") || Contains(name, "推薦函")
    ensures NamesStage(name, 5) <==>
      Contains(name, "面試") || Contains(name, "筆試") || Contains(name, "甄試")
      || Contains(name, "二階") || Contains(name, "初試")
  {
  }

  lemma StageRanks(name: string, stage: nat)
    requires stage <= |STAGES| && IsStage(name, stage)
    ensures StageRank(name) == RANKS[stage]
  {
    OneWord(name, 0);
    OneWord(name, 1);
    OneWord(name, 2);
    OneWord(name, 3);
    MoreWords(name);
    TwoWords(name, 6);
    TwoWords(name, 7);
    OneWord(name, 8);
    TwoWords(name, 9);
    OneWord(name, 10);
  }

  /** Where a date, or a time of day, that may be missing stands: ascending, the missing ones last. */
  predicate Earlier(a: Option<int>, b: Option<int>) {
    a.Some? && (b.None? || a.value < b.value)
  }

  /** The one name holds a word of a stage, and the other none of that stage or of any before it. */
  predicate EarlierStage(a: string, b: string) {
    exists k :: 0 <= k < |STAGES| && NamesStage(a, k) && forall n :: 0 <= n <= k ==> !NamesStage(b, n)
  }

  /**
   By date, undated events after all others; on one date by time, "-" after all
   others; at one time by stage.
   */
  predicate ComesFirst(a: Event, b: Event) {
    Earlier(a.start, b.start)
    || (a.start == b.start && (Earlier(a.time, b.time) || (a.time == b.time && EarlierStage(a.name, b.name))))
  }

  /** Every name has a stage, if only the one past the last. */
  lemma {:induction false} SomeStage(name: string, from: nat) returns (stage: nat)
    requires from <= |STAGES| && forall k :: 0 <= k < from ==> !NamesStage(name, k)
    ensures stage <= |STAGES| && IsStage(name, stage)
    decreases |STAGES| - from
  {
    if from == |STAGES| || NamesStage(name, from) {
      stage := from;
    } else {
      stage := SomeStage(name, from + 1);
    }
  }

  lemma StagesCompare(x: string, y: string, a: nat, b: nat)
    requires a <= |STAGES| && IsStage(x, a) && b <= |STAGES| && IsStage(y, b)
    ensures EarlierStage(x, y) <==> a < b
  {
    if k :| 0 <= k < |STAGES| && NamesStage(x, k) && forall n :: 0 <= n <= k ==> !NamesStage(y, n) {
      assert a <= k < b;
    }
  }

  lemma RanksAscend(a: nat, b: nat)
    requires a < |RANKS| && b < |RANKS|
    ensures RANKS[a] < RANKS[b] <==> a < b
  {
  }

  lemma StagesByRank(x: string, y: string)
    ensures EarlierStage(x, y) <==> StageRank(x) < StageRank(y)
  {
    var a := SomeStage(x, 0);
    var b := SomeStage(y, 0);
    StageRanks(x, a);
    StageRanks(y, b);
    StagesCompare(x, y, a, b);
    RanksAscend(a, b);
  }

  lemma LexFive(x: seq<int>, y: seq<int>)
    requires |x| == |y| == 5
    ensures LexLess(x, y) <==>
      x[0] < y[0] || (x[0] == y[0] && (x[1] < y[1] || (x[1] == y[1] && (x[2] < y[2] || (x[2] == y[2] &&
      (x[3] < y[3] || (x[3] == y[3] && x[4] < y[4])))))))
  {
    assert x[1..][1..][1..][1..][1..] == [] && y[1..][1..][1..][1..][1..] == [];
    assert LexLess(x[1..][1..][1..][1..], y[1..][1..][1..][1..]) <==> x[4] < y[4];
    assert LexLess(x[1..][1..][1..], y[1..][1..][1..])
      <==> x[3] < y[3] || (x[3] == y[3] && LexLess(x[1..][1..][1..][1..], y[1..][1..][1..][1..]));
    assert LexLess(x[1..][1..], y[1..][1..])
      <==> x[2] < y[2] || (x[2] == y[2] && LexLess(x[1..][1..][1..], y[1..][1..][1..]));
  }

  /** The sort keys compare just so. */
  lemma ComesFirstByKey(a: Event, b: Event)
    ensures ComesFirst(a, b) <==> LexLess(SortKey(a), SortKey(b))
  {
    LexFive(SortKey(a), SortKey(b));
    StagesByRank(a.name, b.name);
  }

  /**
   Of two events of a program the one that comes first by date, time and stage
   has the smaller number, and of two that are alike in these the one that
   stood first already.
   */
  lemma NumberedByDateTimeAndStage(t: Table, i: EventId, j: EventId)
    requires UniqueOrders(t) && i in t && j in t && t[i].program == t[j].program
    ensures RowNumber(t, i) < RowNumber(t, j)
      <==> ComesFirst(t[i], t[j]) || (!ComesFirst(t[j], t[i]) && t[i].order < t[j].order)
  {
    ComesFirstByKey(t[i], t[j]);
    ComesFirstByKey(t[j], t[i]);
    LexTrichotomy(SortKey(t[i]), SortKey(t[j]));
    RowNumbersFollowClause(t, i, j);
  }

  lemma RowNumberInRange(t: Table, id: EventId)
    requires id in t
    ensures 1 <= RowNumber(t, id) <= |Rows(t, t[id].program)|
  {
    PrecedesOrders(t[id], t[id]);
    Paging.SubsetSize(Ahead(t, id) + {id}, Rows(t, t[id].program));
  }

  /** Distinct numbers from 1 to m can go to at most m rows. */
  lemma {:induction false} Pigeonhole(ids: set<EventId>, number: map<EventId, int>, m: nat)
    requires forall i :: i in ids ==> i in number && 1 <= number[i] <= m
    requires forall i, j :: i in ids && j in ids && number[i] == number[j] ==> i == j
    ensures |ids| <= m
    decreases m
  {
    if top :| top in ids && number[top] == m {
      Pigeonhole(ids - {top}, number, m - 1);
    } else if m > 0 {
      Pigeonhole(ids, number, m - 1);
    } else {
      assert forall i :: i !in ids;
      assert ids == {};
    }
  }

  /** If they go to exactly m rows, every number is used. */
  lemma EveryLabelUsed(ids: set<EventId>, number: map<EventId, int>, m: nat, r: int)
    requires forall i :: i in ids ==> i in number && 1 <= number[i] <= m
    requires forall i, j :: i in ids && j in ids && number[i] == number[j] ==> i == j
    requires |ids| == m && 1 <= r <= m
    ensures exists i :: i in ids && number[i] == r
  {
    if forall i :: i in ids ==> number[i] != r {
      var shifted := map i | i in ids :: if number[i] == m then r else number[i];
      Pigeonhole(ids, shifted, m - 1);
    }
  }

  /** Each program's new orders are exactly 1..n. */
  lemma ResortedIsOneToN(t: Table, program: int, r: int)
    requires UniqueOrders(t)
    ensures (exists id :: id in Rows(t, program) && Resorted(t)[id].order == r) <==> 1 <= r <= |Rows(t, program)|
  {
    var ids := Rows(t, program);
    var number := map id | id in t :: RowNumber(t, id) as int;
    forall id | id in ids ensures 1 <= number[id] <= |ids| {
      RowNumberInRange(t, id);
    }
    forall i, j | i in ids && j in ids && number[i] == number[j] ensures i == j {
      RowNumbersFollowClause(t, i, j);
    }
    if 1 <= r <= |ids| {
      EveryLabelUsed(ids, number, |ids|, r);
      var id :| id in ids && number[id] == r;
      assert Resorted(t)[id].order == r;
    }
  }

  lemma RescanFindsNothing(t: Table, id: EventId)
    requires UniqueOrders(t) && id in t
    ensures RowNumber(Resorted(t), id) == Resorted(t)[id].order
  {
    var s := Resorted(t);
    forall i | i in t && t[i].program == t[id].program
      ensures Precedes(s[i], s[id]) <==> Precedes(t[i], t[id])
    {
      RowNumbersFollowClause(t, i, id);
      LexTrichotomy(SortKey(t[i]), SortKey(t[id]));
      assert SortKey(s[i]) == SortKey(t[i]) && SortKey(s[id]) == SortKey(t[id]);
    }
    assert Ahead(s, id) == Ahead(t, id);
  }

  /** A rescan of the resorted table finds every row where it belongs. */
  lemma NothingMisplaced(t: Table)
    requires UniqueOrders(t)
    ensures Misplaced(Resorted(t)) == {}
  {
    forall id | id in t ensures RowNumber(Resorted(t), id) == Resorted(t)[id].order {
      RescanFindsNothing(t, id);
    }
  }

  // ---- one UPDATE of the whole column -----------------------------------------------

  type Numbers = map<EventId, int>

  ghost predicate NoRepeats(walk: seq<EventId>) {
    forall a, b :: 0 <= a < b < |walk| ==> walk[a] != walk[b]
  }

  /** An order in which a statement can take the rows. */
  ghost predicate IsWalk(walk: seq<EventId>, t: Table) {
    NoRepeats(walk) && forall i :: i in walk <==> i in t
  }

  /** The statement row by row; None when a row is refused. */
  function Pass(t: Table, numbers: Numbers, walk: seq<EventId>): (r: Option<Table>)
    requires forall i :: i in walk ==> i in t && i in numbers
    ensures r.Some? ==> r.value.Keys == t.Keys
    decreases |walk|
  {
    if walk == [] then Some(t)
    else if Refused(t, walk[0], numbers[walk[0]]) then None
    else Pass(SetOrder(t, walk[0], numbers[walk[0]]), numbers, walk[1..])
  }

  function Renumbered(t: Table, numbers: Numbers): Table
    requires t.Keys == numbers.Keys
  {
    map id | id in t :: t[id].(order := numbers[id])
  }

  ghost predicate Distinct(t: Table, numbers: Numbers)
    requires t.Keys == numbers.Keys
  {
    forall i, j :: i in t && j in t && t[i].program == t[j].program && numbers[i] == numbers[j] ==> i == j
  }

  /** Row j is given the order that row i has before the statement. */
  predicate Clashes(t: Table, numbers: Numbers, i: EventId, j: EventId)
    requires i in t && j in t && j in numbers
  {
    i != j && t[i].program == t[j].program && t[i].order == numbers[j]
  }

  /** Every new order fits the column, and no row is taken before one that still has its new order. */
  ghost predicate PassesInTurn(t: Table, numbers: Numbers, walk: seq<EventId>)
    requires forall i :: i in walk ==> i in t && i in numbers
  {
    && (forall a :: 0 <= a < |walk| ==> 1 <= numbers[walk[a]] <= MAX_ORDER)
    && forall a, b :: 0 <= a < b < |walk| ==> !Clashes(t, numbers, walk[b], walk[a])
  }

  /** Rows outside the walk have been updated. */
  ghost predicate Underway(t: Table, numbers: Numbers, walk: seq<EventId>) {
    && Schema(t) && t.Keys == numbers.Keys && Distinct(t, numbers) && NoRepeats(walk)
      && (forall i :: i in walk ==> i in t)
    && forall i :: i in t && i !in walk ==> t[i].order == numbers[i]
  }

  lemma FirstRowRefused(t: Table, numbers: Numbers, walk: seq<EventId>)
    requires Underway(t, numbers, walk) && walk != []
    ensures Refused(t, walk[0], numbers[walk[0]]) <==>
      !(1 <= numbers[walk[0]] <= MAX_ORDER) || exists b :: 0 < b < |walk| && Clashes(t, numbers, walk[b], walk[0])
  {
    if i :| i in t && i != walk[0] && t[i].program == t[walk[0]].program && t[i].order == numbers[walk[0]] {
      assert i in walk;
      var b :| 0 <= b < |walk| && walk[b] == i;
      assert Clashes(t, numbers, walk[b], walk[0]);
    }
  }

  lemma FirstRowTaken(t: Table, numbers: Numbers, walk: seq<EventId>)
    requires Underway(t, numbers, walk) && walk != [] && !Refused(t, walk[0], numbers[walk[0]])
    ensures Underway(SetOrder(t, walk[0], numbers[walk[0]]), numbers, walk[1..])
  {
    SetOrderFits(t, walk[0], numbers[walk[0]]);
    assert forall i :: i in walk <==> i == walk[0] || i in walk[1..];
  }

  /** What is left to pass after the first row. */
  lemma ClashesLater(t: Table, numbers: Numbers, walk: seq<EventId>, a: nat, b: nat)
    requires Underway(t, numbers, walk) && 0 < a < b < |walk|
    ensures Clashes(SetOrder(t, walk[0], numbers[walk[0]]), numbers, walk[b], walk[a])
      <==> Clashes(t, numbers, walk[b], walk[a])
  {
  }

  lemma RestStaysInTurn(t: Table, numbers: Numbers, walk: seq<EventId>)
    requires Underway(t, numbers, walk) && walk != [] && PassesInTurn(t, numbers, walk)
    ensures PassesInTurn(SetOrder(t, walk[0], numbers[walk[0]]), numbers, walk[1..])
  {
    var next, rest := SetOrder(t, walk[0], numbers[walk[0]]), walk[1..];
    forall a, b | 0 <= a < b < |rest| ensures !Clashes(next, numbers, rest[b], rest[a]) {
      ClashesLater(t, numbers, walk, a + 1, b + 1);
    }
  }

  lemma WholeStaysInTurn(t: Table, numbers: Numbers, walk: seq<EventId>)
    requires Underway(t, numbers, walk) && walk != [] && !Refused(t, walk[0], numbers[walk[0]])
    requires PassesInTurn(SetOrder(t, walk[0], numbers[walk[0]]), numbers, walk[1..])
    ensures PassesInTurn(t, numbers, walk)
  {
    var next, rest := SetOrder(t, walk[0], numbers[walk[0]]), walk[1..];
    FirstRowRefused(t, numbers, walk);
    forall a | 0 <= a < |walk| ensures 1 <= numbers[walk[a]] <= MAX_ORDER {
      assert a > 0 ==> walk[a] == rest[a - 1];
    }
    forall a, b | 0 <= a < b < |walk| ensures !Clashes(t, numbers, walk[b], walk[a]) {
      if a > 0 {
        ClashesLater(t, numbers, walk, a, b);
        assert walk[a] == rest[a - 1] && walk[b] == rest[b - 1];
      }
    }
  }

  lemma RenumberedOnward(t: Table, numbers: Numbers, id: EventId)
    requires t.Keys == numbers.Keys && id in t
    ensures Renumbered(SetOrder(t, id, numbers[id]), numbers) == Renumbered(t, numbers)
  {
  }

  /**
   For any one order of the rows, the statement commits exactly when the rows pass in turn, and
   then has renumbered all of them.
   */
  lemma {:induction false} PassExactlyWhen(t: Table, numbers: Numbers, walk: seq<EventId>)
    requires Underway(t, numbers, walk)
    ensures Pass(t, numbers, walk).Some? <==> PassesInTurn(t, numbers, walk)
    ensures Pass(t, numbers, walk).Some? ==>
      Pass(t, numbers, walk).value == Renumbered(t, numbers) && Schema(Renumbered(t, numbers))
    decreases |walk|
  {
    if walk == [] {
      assert Renumbered(t, numbers) == t;
    } else {
      FirstRowRefused(t, numbers, walk);
      if !Refused(t, walk[0], numbers[walk[0]]) {
        FirstRowTaken(t, numbers, walk);
        var next := SetOrder(t, walk[0], numbers[walk[0]]);
        PassExactlyWhen(next, numbers, walk[1..]);
        RenumberedOnward(t, numbers, walk[0]);
        if PassesInTurn(t, numbers, walk) {
          RestStaysInTurn(t, numbers, walk);
        } else if PassesInTurn(next, numbers, walk[1..]) {
          WholeStaysInTurn(t, numbers, walk);
        }
      }
    }
  }

  method UpdateAll(t: Table, numbers: Numbers, walk: seq<EventId>) returns (r: Option<Table>)
    requires forall i :: i in walk ==> i in t && i in numbers
    ensures r == Pass(t, numbers, walk)
  {
    var tx := t;
    for k := 0 to |walk|
      invariant tx.Keys == t.Keys && Pass(tx, numbers, walk[k..]) == Pass(t, numbers, walk)
    {
      assert walk[k..][0] == walk[k] && walk[k..][1..] == walk[k + 1..];
      if Refused(tx, walk[k], numbers[walk[k]]) {
        return None;
      }
      tx := SetOrder(tx, walk[k], numbers[walk[k]]);
    }
    return Some(tx);
  }

  // ---- the two statements -----------------------------------------------------------

  /** RowNumber + 1000, and then sort_order - 1000. */
  function LiftedNumbers(t: Table): (n: Numbers)
    ensures n.Keys == t.Keys
  {
    map id | id in t :: RowNumber(t, id) + OFFSET
  }

  function LoweredNumbers(lifted: Table): (n: Numbers)
    ensures n.Keys == lifted.Keys
  {
    map id | id in lifted :: lifted[id].order - OFFSET
  }

  function Lifted(t: Table): Table {
    Renumbered(t, LiftedNumbers(t))
  }

  function Resort(t: Table, first: seq<EventId>, second: seq<EventId>): Option<Table>
    requires forall i :: i in first || i in second ==> i in t
  {
    match Pass(t, LiftedNumbers(t), first)
    case None => None
    case Some(lifted) => Pass(lifted, LoweredNumbers(lifted), second)
  }

  /** Row i has the order that row j is raised to. */
  predicate MeetsRaised(t: Table, i: EventId, j: EventId)
    requires i in t && j in t
  {
    i != j && t[i].program == t[j].program && t[i].order == RowNumber(t, j) + 1000
  }

  /** No row's raised order is one another row of its program has, and no program has more rows than the offset. */
  predicate ResortSafe(t: Table) {
    && (forall i, j :: i in t && j in t ==> !MeetsRaised(t, i, j))
    && forall id :: id in t ==> |Rows(t, t[id].program)| <= 1000
  }

  lemma FirstIsUnderway(t: Table, first: seq<EventId>)
    requires Schema(t) && IsWalk(first, t)
    ensures Underway(t, LiftedNumbers(t), first)
  {
    forall i, j | i in t && j in t && t[i].program == t[j].program && RowNumber(t, i) == RowNumber(t, j)
      ensures i == j
    {
      RowNumbersFollowClause(t, i, j);
    }
  }

  lemma LoweredIsResorted(t: Table)
    ensures Renumbered(Lifted(t), LoweredNumbers(Lifted(t))) == Resorted(t)
    ensures forall id :: id in t ==> LoweredNumbers(Lifted(t))[id] == RowNumber(t, id)
  {
  }

  lemma SecondIsUnderway(t: Table, second: seq<EventId>)
    requires UniqueOrders(t) && Schema(Lifted(t)) && IsWalk(second, t)
    ensures Underway(Lifted(t), LoweredNumbers(Lifted(t)), second)
  {
    LoweredIsResorted(t);
    var lifted := Lifted(t);
    forall i, j | i in t && j in t && lifted[i].program == lifted[j].program && RowNumber(t, i) == RowNumber(t, j)
      ensures i == j
    {
      RowNumbersFollowClause(t, i, j);
    }
  }

  /**
   For any two row orders, the resort commits exactly when each statement's
   rows pass in turn, and then leaves nothing but the resorted table.
   */
  lemma ResortExactlyWhen(t: Table, first: seq<EventId>, second: seq<EventId>)
    requires Schema(t) && IsWalk(first, t) && IsWalk(second, t)
    ensures Resort(t, first, second).Some? <==>
      PassesInTurn(t, LiftedNumbers(t), first) && PassesInTurn(Lifted(t), LoweredNumbers(Lifted(t)), second)
    ensures Resort(t, first, second).Some? ==> Resort(t, first, second).value == Resorted(t) && Schema(Resorted(t))
  {
    FirstIsUnderway(t, first);
    PassExactlyWhen(t, LiftedNumbers(t), first);
    if PassesInTurn(t, LiftedNumbers(t), first) {
      SecondIsUnderway(t, second);
      LoweredIsResorted(t);
      PassExactlyWhen(Lifted(t), LoweredNumbers(Lifted(t)), second);
    }
  }

  lemma ApartPasses(t: Table, numbers: Numbers, walk: seq<EventId>)
    requires t.Keys == numbers.Keys && IsWalk(walk, t)
    requires forall i :: i in t ==> 1 <= numbers[i] <= MAX_ORDER
    requires forall i, j :: i in t && j in t ==> !Clashes(t, numbers, i, j)
    ensures PassesInTurn(t, numbers, walk)
  {
  }

  lemma MeetingIsClashing(t: Table, i: EventId, j: EventId)
    requires i in t && j in t
    ensures MeetsRaised(t, i, j) <==> Clashes(t, LiftedNumbers(t), i, j)
  {
  }

  lemma SafeLifts(t: Table, first: seq<EventId>)
    requires ResortSafe(t) && IsWalk(first, t)
    ensures PassesInTurn(t, LiftedNumbers(t), first)
  {
    var lifted := LiftedNumbers(t);
    forall id | id in t ensures 1 <= lifted[id] <= MAX_ORDER {
      RowNumberInRange(t, id);
    }
    forall i, j | i in t && j in t ensures !Clashes(t, lifted, i, j) {
      MeetingIsClashing(t, i, j);
    }
    ApartPasses(t, lifted, first);
  }

  lemma SafeLowers(t: Table, second: seq<EventId>)
    requires ResortSafe(t) && IsWalk(second, t)
    ensures PassesInTurn(Lifted(t), LoweredNumbers(Lifted(t)), second)
  {
    var lifted := Lifted(t);
    var lowered := LoweredNumbers(lifted);
    forall id | id in t ensures 1 <= lowered[id] <= OFFSET < lifted[id].order {
      RowNumberInRange(t, id);
    }
    ApartPasses(lifted, lowered, second);
  }

  lemma SafeResortCommits(t: Table, first: seq<EventId>, second: seq<EventId>)
    requires Schema(t) && ResortSafe(t) && IsWalk(first, t) && IsWalk(second, t)
    ensures Resort(t, first, second).Some?
  {
    SafeLifts(t, first);
    SafeLowers(t, second);
    ResortExactlyWhen(t, first, second);
  }

  lemma {:induction false} Enumerate(ids: set<EventId>) returns (walk: seq<EventId>)
    ensures NoRepeats(walk) && forall i :: i in walk <==> i in ids
    decreases |ids|
  {
    walk := [];
    if id :| id in ids {
      var rest := Enumerate(ids - {id});
      walk := [id] + rest;
    }
  }

  lemma WalkFrom(t: Table, id: EventId) returns (walk: seq<EventId>)
    requires id in t
    ensures IsWalk(walk, t) && walk != [] && walk[0] == id
  {
    var rest := Enumerate(t.Keys - {id});
    walk := [id] + rest;
  }

  /** A row taken first is refused when another still has its new order. */
  lemma ClashStops(t: Table, numbers: Numbers, i: EventId, j: EventId, walk: seq<EventId>)
    requires t.Keys == numbers.Keys && IsWalk(walk, t) && walk != [] && walk[0] == j
    requires i in t && j in t && Clashes(t, numbers, i, j)
    ensures !PassesInTurn(t, numbers, walk)
  {
    var b :| 0 <= b < |walk| && walk[b] == i;
    assert Clashes(t, numbers, walk[b], walk[0]);
  }

  /** In a program with more rows than the offset, row 1001's final order is the one row 1 is raised to. */
  lemma LongProgramClashes(t: Table, id: EventId) returns (low: EventId, high: EventId)
    requires UniqueOrders(t) && id in t && |Rows(t, t[id].program)| > OFFSET
    ensures low in t && high in t && Clashes(Lifted(t), LoweredNumbers(Lifted(t)), low, high)
  {
    var program := t[id].program;
    ResortedIsOneToN(t, program, 1);
    ResortedIsOneToN(t, program, OFFSET + 1);
    low :| low in Rows(t, program) && Resorted(t)[low].order == 1;
    high :| high in Rows(t, program) && Resorted(t)[high].order == OFFSET + 1;
  }

  lemma UnsafeResortCanStop(t: Table) returns (first: seq<EventId>, second: seq<EventId>)
    requires Schema(t) && !ResortSafe(t)
    ensures IsWalk(first, t) && IsWalk(second, t) && Resort(t, first, second).None?
  {
    if i, j :| i in t && j in t && MeetsRaised(t, i, j) {
      MeetingIsClashing(t, i, j);
      first := WalkFrom(t, j);
      second := first;
      ClashStops(t, LiftedNumbers(t), i, j, first);
    } else {
      var id :| id in t && |Rows(t, t[id].program)| > OFFSET;
      var low, high := LongProgramClashes(t, id);
      first := WalkFrom(t, id);
      second := WalkFrom(t, high);
      assert IsWalk(second, Lifted(t));
      ClashStops(Lifted(t), LoweredNumbers(Lifted(t)), low, high, second);
    }
    ResortExactlyWhen(t, first, second);
  }

  /**
   The resort commits whatever orders the database takes the rows in exactly
   when no row's raised order is taken and no program has more than 1000 rows.
   */
  lemma ResortNeverRefusedExactlyWhen(t: Table)
    requires Schema(t)
    ensures (forall first, second :: IsWalk(first, t) && IsWalk(second, t) ==>
      Resort(t, first, second) == Some(Resorted(t)))
      <==> ResortSafe(t)
  {
    if ResortSafe(t) {
      forall first, second | IsWalk(first, t) && IsWalk(second, t)
        ensures Resort(t, first, second) == Some(Resorted(t))
      {
        SafeResortCommits(t, first, second);
        ResortExactlyWhen(t, first, second);
      }
    } else {
      var first, second := UnsafeResortCanStop(t);
    }
  }

  /** While orders stay within the offset, the resort is safe. */
  lemma SmallOrdersAreSafe(t: Table)
    requires UniqueOrders(t) && forall id :: id in t ==> 1 <= t[id].order <= 1000
    ensures ResortSafe(t)
  {
    var number := map id | id in t :: t[id].order;
    forall id | id in t ensures |Rows(t, t[id].program)| <= OFFSET {
      Pigeonhole(Rows(t, t[id].program), number, OFFSET);
    }
    forall i, j | i in t && j in t ensures !Clashes(t, LiftedNumbers(t), i, j) {
      RowNumberInRange(t, j);
    }
  }

  /** Two like events of one program with orders 1 and 1001. */
  function TwoLikeRows(e: Event): Table {
    map[0 := e.(order := 1), 1 := e.(order := 1001)]
  }

  lemma TwoLikeNumbers(e: Event)
    ensures RowNumber(TwoLikeRows(e), 0) == 1 && RowNumber(TwoLikeRows(e), 1) == 2
  {
    var t := TwoLikeRows(e);
    LexTrichotomy(SortKey(e), SortKey(e));
    assert SortKey(t[0]) == SortKey(e) && SortKey(t[1]) == SortKey(e);
    assert Ahead(t, 0) == {} && Ahead(t, 1) == {0};
  }

  lemma TwoLikeRowsLift(e: Event)
    ensures var t := TwoLikeRows(e); PassesInTurn(t, LiftedNumbers(t), [1, 0])
  {
    TwoLikeNumbers(e);
  }

  lemma TwoLikeRowsLower(e: Event)
    ensures var t := TwoLikeRows(e); PassesInTurn(Lifted(t), LoweredNumbers(Lifted(t)), [0, 1])
  {
    var t := TwoLikeRows(e);
    TwoLikeNumbers(e);
    LoweredIsResorted(t);
    assert Lifted(t)[1].order == 2 + OFFSET;
  }

  /** Taken in the order of their numbers the two rows abort the resort, taken the other way they commit it. */
  lemma OffsetApartAborts(e: Event)
    ensures var t := TwoLikeRows(e);
      Schema(t) && Resort(t, [0, 1], [0, 1]).None? && Resort(t, [1, 0], [0, 1]) == Some(Resorted(t))
  {
    var t := TwoLikeRows(e);
    assert Schema(t) && IsWalk([0, 1], t) && IsWalk([1, 0], t);
    TwoLikeNumbers(e);
    ClashStops(t, LiftedNumbers(t), 1, 0, [0, 1]);
    TwoLikeRowsLift(e);
    TwoLikeRowsLower(e);
    ResortExactlyWhen(t, [0, 1], [0, 1]);
    ResortExactlyWhen(t, [1, 0], [0, 1]);
  }

  lemma NoBadRows(t: Table)
    requires forall id :: id in t ==> t[id].order == RowNumber(t, id)
    ensures Resorted(t) == t
  {
  }

  /** Each program's rows stand by date, time and stage, ties as they stood before, and nothing else has changed. */
  ghost predicate StandsInOrder(was: Table, t: Table) {
    && t.Keys == was.Keys && (forall i :: i in was ==> t[i] == was[i].(order := t[i].order))
    && forall i, j :: i in was && j in was && was[i].program == was[j].program ==>
         (t[i].order < t[j].order
          <==> ComesFirst(was[i], was[j]) || (!ComesFirst(was[j], was[i]) && was[i].order < was[j].order))
  }

  lemma ResortedStandsInOrder(t: Table)
    requires UniqueOrders(t)
    ensures StandsInOrder(t, Resorted(t))
  {
    forall i, j | i in t && j in t && t[i].program == t[j].program
      ensures RowNumber(t, i) < RowNumber(t, j)
        <==> ComesFirst(t[i], t[j]) || (!ComesFirst(t[j], t[i]) && t[i].order < t[j].order)
    {
      NumberedByDateTimeAndStage(t, i, j);
    }
  }

  /**
   Counts the misplaced rows and, confirmed, resorts in one transaction.
   `first` and `second` are the row orders of the two statements; a refused row
   rolls everything back.
   */
  method ResortTimeline(timeline: Timeline, confirm: bool, first: seq<EventId>, second: seq<EventId>)
    returns (badRows: nat, committed: bool)
    requires Schema(timeline.events) && IsWalk(first, timeline.events) && IsWalk(second, timeline.events)
    modifies timeline
    ensures badRows == |Misplaced(old(timeline.events))|
    ensures timeline.events == if committed then Resorted(old(timeline.events)) else old(timeline.events)
    ensures committed <==> confirm && (badRows == 0 || Resort(old(timeline.events), first, second).Some?)
    ensures confirm && ResortSafe(old(timeline.events)) ==> committed
    ensures committed ==> StandsInOrder(old(timeline.events), timeline.events)
  {
    var t := timeline.events;
    var bad := Misplaced(t);
    badRows := |bad|;
    ResortedStandsInOrder(t);
    if !confirm {
      return badRows, false;
    }
    if badRows == 0 {
      assert bad == {};
      forall id | id in t ensures t[id].order == RowNumber(t, id) {
        assert id !in bad;
      }
      NoBadRows(t);
      return badRows, true;
    }
    ResortExactlyWhen(t, first, second);
    if ResortSafe(t) {
      SafeResortCommits(t, first, second);
    }
    var tx := UpdateAll(t, LiftedNumbers(t), first);
    if tx.Some? {
      tx := UpdateAll(tx.value, LoweredNumbers(tx.value), second);
    }
    if tx.None? {
      return badRows, false;
    }
    timeline.events := tx.value;
    return badRows, true;
  }
}
