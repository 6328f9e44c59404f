/**
 The pair swaps of `cmd/admissions-tool` on program_timeline_events, whose
 sort_order is a positive SMALLINT, UNIQUE within a program. The database
 checks each row as it is updated, and one statement may take its rows in
 whatever order.
 */
module TimelineOrder {
  import opened Wrappers

  type EventId = nat

  /** `start` and `time` are None for a NULL date and for "-". */
  datatype Event = Event(program: nat, name: string, start: Option<int>, time: Option<int>, order: int)

  type Table = map<EventId, Event>

  const OFFSET := 1000
  const MAX_ORDER := 32767

  ghost predicate UniqueOrders(t: Table) {
    forall i, j :: i in t && j in t && t[i].program == t[j].program && t[i].order == t[j].order ==> i == j
  }

  /** What the columns of the table admit. */
  ghost predicate Schema(t: Table) {
    UniqueOrders(t) && forall i :: i in t ==> 1 <= t[i].order <= MAX_ORDER
  }

  /** Another row of the program already has the order. */
  predicate Collides(t: Table, id: EventId, order: int)
    requires id in t
  {
    exists i :: i in t && i != id && t[i].program == t[id].program && t[i].order == order
  }

  /** One row update violates the column or the constraint. */
  predicate Refused(t: Table, id: EventId, order: int)
    requires id in t
  {
    order < 1 || order > MAX_ORDER || Collides(t, id, order)
  }

  function SetOrder(t: Table, id: EventId, order: int): Table
    requires id in t
  {
    t[id := t[id].(order := order)]
  }

  lemma SetOrderFits(t: Table, id: EventId, order: int)
    requires Schema(t) && id in t
    ensures Schema(SetOrder(t, id, order)) <==> !Refused(t, id, order)
  {
    assert SetOrder(t, id, order)[id].order == order;
    if i :| i in t && i != id && t[i].program == t[id].program && t[i].order == order {
      assert SetOrder(t, id, order)[i].order == SetOrder(t, id, order)[id].order;
    }
  }

  // ---- pair swaps -------------------------------------------------------------

  /** A row of the pair query: ids and orders as they were when the query ran. */
  datatype Pair = Pair(first: EventId, firstOrder: int, second: EventId, secondOrder: int)

  /** What every pair query returns: two rows of one program, the one that should come first ordered later. */
  ghost predicate Snapshot(t: Table, p: Pair) {
    && p.first in t && p.second in t && t[p.first].program == t[p.second].program
    && p.firstOrder == t[p.first].order && p.secondOrder == t[p.second].order && p.firstOrder > p.secondOrder
  }

  predicate Touches(p: Pair, id: EventId) {
    id == p.first || id == p.second
  }

  ghost predicate Disjoint(p: Pair, q: Pair) {
    !Touches(q, p.first) && !Touches(q, p.second)
  }

  ghost predicate PairwiseDisjoint(pairs: seq<Pair>) {
    forall a, b :: 0 <= a < b < |pairs| ==> Disjoint(pairs[a], pairs[b])
  }

  /** The query's rows are distinct pairs of ids, whichever way round. */
  ghost predicate DistinctPairs(pairs: seq<Pair>) {
    forall a, b :: 0 <= a < b < |pairs| ==> !(Touches(pairs[b], pairs[a].first) && Touches(pairs[b], pairs[a].second))
  }

  /** The first n pairs have exchanged their orders and nothing else has changed. */
  ghost predicate Swapped(was: Table, t: Table, pairs: seq<Pair>, n: nat)
    requires n <= |pairs|
  {
    && t.Keys == was.Keys
    && (forall k :: 0 <= k < n && pairs[k].first in was && pairs[k].second in was ==>
          t[pairs[k].first] == was[pairs[k].first].(order := pairs[k].secondOrder)
          && t[pairs[k].second] == was[pairs[k].second].(order := pairs[k].firstOrder))
    && (forall i :: i in was && (forall k :: 0 <= k < n ==> !Touches(pairs[k], i)) ==> t[i] == was[i])
  }

  /** Both rows raised by the offset. */
  function Offsets(t: Table, p: Pair): Table
    requires p.first in t && p.second in t
  {
    var moved := SetOrder(t, p.first, t[p.first].order + OFFSET);
    if p.first == p.second then moved else SetOrder(moved, p.second, moved[p.second].order + OFFSET)
  }

  /** The UPDATE that raises both rows passes, taking them in this order. */
  predicate RaisesPass(t: Table, a: EventId, b: EventId)
    requires a in t && b in t
  {
    && !Refused(t, a, t[a].order + OFFSET)
    && !Refused(SetOrder(t, a, t[a].order + OFFSET), b, t[b].order + OFFSET)
  }

  /** All updates of the pair pass; `flip` says that the second row is raised first. */
  predicate Fits(t: Table, p: Pair, flip: bool)
    requires p.first in t && p.second in t
  {
    && (if flip then RaisesPass(t, p.second, p.first) else RaisesPass(t, p.first, p.second))
    && !Refused(Offsets(t, p), p.first, p.secondOrder)
    && !Refused(SetOrder(Offsets(t, p), p.first, p.secondOrder), p.second, p.firstOrder)
  }

  /**
   Neither raised order overflows or meets a third row of the program, and
   when the second row is raised first it does not meet the first row either.
   */
  predicate Raisable(t: Table, p: Pair, flip: bool) {
    && p.first in t && p.second in t && t[p.first].order + 1000 <= 32767
    && (forall i :: i in t && !Touches(p, i) && t[i].program == t[p.first].program ==>
          t[i].order != t[p.first].order + 1000 && t[i].order != t[p.second].order + 1000)
    && (flip ==> t[p.first].order != t[p.second].order + 1000)
  }

  /** One row update, refused when it violates the column or the constraint. */
  method UpdateOrder(t: Table, id: EventId, order: int) returns (r: Option<Table>)
    requires Schema(t) && id in t
    ensures r.None? <==> Refused(t, id, order)
    ensures r.Some? ==> r.value == SetOrder(t, id, order) && Schema(r.value)
  {
    SetOrderFits(t, id, order);
    return if Refused(t, id, order) then None else Some(SetOrder(t, id, order));
  }

  function Exchanged(t: Table, p: Pair): Table
    requires p.first in t && p.second in t
  {
    SetOrder(SetOrder(Offsets(t, p), p.first, p.secondOrder), p.second, p.firstOrder)
  }

  lemma ExchangedRows(t: Table, p: Pair)
    requires p.first in t && p.second in t && p.first != p.second
    ensures Exchanged(t, p).Keys == t.Keys && forall i :: i in t && !Touches(p, i) ==> Exchanged(t, p)[i] == t[i]
    ensures Exchanged(t, p)[p.first] == t[p.first].(order := p.secondOrder)
    ensures Exchanged(t, p)[p.second] == t[p.second].(order := p.firstOrder)
  {
  }

  method RaiseBoth(t: Table, a: EventId, b: EventId) returns (r: Option<Table>)
    requires Schema(t) && a in t && b in t && a != b
    ensures r.Some? <==> RaisesPass(t, a, b)
    ensures r.Some? ==> Schema(r.value)
    ensures r.Some? ==>
      r.value == t[a := t[a].(order := t[a].order + OFFSET)][b := t[b].(order := t[b].order + OFFSET)]
  {
    r := UpdateOrder(t, a, t[a].order + OFFSET);
    if r.Some? {
      r := UpdateOrder(r.value, b, t[b].order + OFFSET);
    }
  }

  /** One pair's updates; None when one of them is refused. */
  method SwapOne(t: Table, p: Pair, flip: bool) returns (r: Option<Table>)
    requires Schema(t) && p.first in t && p.second in t && p.first != p.second
    ensures r.Some? <==> Fits(t, p, flip)
    ensures r.Some? ==> r.value == Exchanged(t, p) && Schema(r.value)
  {
    if flip {
      r := RaiseBoth(t, p.second, p.first);
    } else {
      r := RaiseBoth(t, p.first, p.second);
    }
    if r.Some? {
      assert r.value == Offsets(t, p);
      r := UpdateOrder(r.value, p.first, p.secondOrder);
    }
    if r.Some? {
      r := UpdateOrder(r.value, p.second, p.firstOrder);
    }
  }

  // ---- one pair against the table it finds --------------------------------------

  /** Raising a and then b passes exactly when neither overflows, meets a third row, or, for a, meets b. */
  lemma RaisesMeet(t: Table, a: EventId, b: EventId)
    requires Schema(t) && a in t && b in t && a != b && t[a].program == t[b].program
    ensures RaisesPass(t, a, b) <==>
      && t[a].order + OFFSET <= MAX_ORDER && t[b].order + OFFSET <= MAX_ORDER
      && t[b].order != t[a].order + OFFSET
      && forall i :: i in t && i != a && i != b && t[i].program == t[a].program ==>
           t[i].order != t[a].order + OFFSET && t[i].order != t[b].order + OFFSET
  {
    var moved := SetOrder(t, a, t[a].order + OFFSET);
    assert forall i :: i in t && i != a ==> moved[i] == t[i];
    forall i | i in t && i != a && i != b && t[i].program == t[a].program && RaisesPass(t, a, b)
      ensures t[i].order != t[a].order + OFFSET && t[i].order != t[b].order + OFFSET
    {
      assert moved[i] == t[i];
    }
  }

  lemma RaisesPassExactlyWhen(t: Table, p: Pair, flip: bool)
    requires Schema(t) && Snapshot(t, p)
    ensures (if flip then RaisesPass(t, p.second, p.first) else RaisesPass(t, p.first, p.second))
      <==> Raisable(t, p, flip)
  {
    if flip {
      RaisesMeet(t, p.second, p.first);
    } else {
      RaisesMeet(t, p.first, p.second);
    }
  }

  lemma PlacementsPass(t: Table, p: Pair)
    requires Schema(t) && Snapshot(t, p)
    ensures !Refused(Offsets(t, p), p.first, p.secondOrder)
    ensures !Refused(SetOrder(Offsets(t, p), p.first, p.secondOrder), p.second, p.firstOrder)
  {
    assert forall i :: i in t && !Touches(p, i) ==> Offsets(t, p)[i] == t[i];
  }

  /** A pair that finds its orders as the query saw them fits exactly when it can be raised. */
  lemma SeenPairFits(t: Table, p: Pair, flip: bool)
    requires Schema(t) && Snapshot(t, p)
    ensures Fits(t, p, flip) <==> Raisable(t, p, flip)
  {
    RaisesPassExactlyWhen(t, p, flip);
    PlacementsPass(t, p);
  }

  // ---- the pairs one after the other ---------------------------------------------

  /** The state before pair n, seen from that pair. */
  ghost predicate Before(was: Table, t: Table, pairs: seq<Pair>, n: nat)
    requires n < |pairs|
  {
    && Schema(was) && Schema(t) && Swapped(was, t, pairs, n)
    && (forall k :: 0 <= k < |pairs| ==> Snapshot(was, pairs[k]))
    && DistinctPairs(pairs)
    && PairwiseDisjoint(pairs[..n])
  }

  lemma SwappedKeepsProgram(was: Table, t: Table, pairs: seq<Pair>, n: nat, i: EventId)
    requires n < |pairs| && Before(was, t, pairs, n) && i in t
    ensures t[i].program == was[i].program
  {
    if k :| 0 <= k < n && Touches(pairs[k], i) {
      assert Snapshot(was, pairs[k]);
    }
  }

  /**
   Whatever pair n could meet in the table it finds, it could meet in the table the query saw,
   and the other way round.
   */
  lemma SameOrdersAround(was: Table, t: Table, pairs: seq<Pair>, n: nat, i: EventId) returns (j: EventId)
    requires n < |pairs| && Before(was, t, pairs, n) && i in was && !Touches(pairs[n], i)
    requires forall k :: 0 <= k < n ==> Disjoint(pairs[k], pairs[n])
    ensures j in was && !Touches(pairs[n], j)
    ensures was[j].program == t[i].program && was[j].order == t[i].order
    ensures t[j].program == was[i].program && t[j].order == was[i].order
  {
    j := i;
    if k :| 0 <= k < n && Touches(pairs[k], i) {
      assert Snapshot(was, pairs[k]) && Disjoint(pairs[k], pairs[n]);
      j := if i == pairs[k].first then pairs[k].second else pairs[k].first;
    }
  }

  lemma RaisableIsStable(was: Table, t: Table, pairs: seq<Pair>, n: nat, flip: bool)
    requires n < |pairs| && Before(was, t, pairs, n)
    requires forall k :: 0 <= k < n ==> Disjoint(pairs[k], pairs[n])
    ensures Snapshot(t, pairs[n]) && (Raisable(t, pairs[n], flip) <==> Raisable(was, pairs[n], flip))
  {
    var p := pairs[n];
    assert Snapshot(was, p);
    assert t[p.first] == was[p.first] && t[p.second] == was[p.second];
    forall i | i in was && !Touches(p, i) && was[i].program == was[p.first].program && Raisable(t, p, flip)
      ensures was[i].order != was[p.first].order + OFFSET && was[i].order != was[p.second].order + OFFSET
    {
      var j := SameOrdersAround(was, t, pairs, n, i);
    }
    forall i | i in t && !Touches(p, i) && t[i].program == t[p.first].program && Raisable(was, p, flip)
      ensures t[i].order != t[p.first].order + OFFSET && t[i].order != t[p.second].order + OFFSET
    {
      var j := SameOrdersAround(was, t, pairs, n, i);
    }
  }

  /** A pair that shares a row with an earlier one collides with that one's other row. */
  lemma SharedRowCollides(was: Table, t: Table, pairs: seq<Pair>, n: nat, k: nat, flip: bool)
    requires n < |pairs| && Before(was, t, pairs, n) && k < n && !Disjoint(pairs[k], pairs[n])
    ensures pairs[n].first in t && pairs[n].second in t && !Fits(t, pairs[n], flip)
  {
    var p, q := pairs[n], pairs[k];
    assert Snapshot(was, p) && Snapshot(was, q);
    var shared := if Touches(p, q.first) then q.first else q.second;
    var other := if shared == q.first then q.second else q.first;
    assert !Touches(p, other);
    assert t[other].order == was[shared].order && t[other].program == was[shared].program;
    SwappedKeepsProgram(was, t, pairs, n, p.first);
    SwappedKeepsProgram(was, t, pairs, n, p.second);
    PlacementMeets(t, p, other, shared);
  }

  lemma PlacementMeets(t: Table, p: Pair, other: EventId, shared: EventId)
    requires p.first in t && p.second in t && p.first != p.second && other in t && !Touches(p, other)
      && Touches(p, shared)
    requires t[other].program == t[p.first].program == t[p.second].program
    requires t[other].order == if shared == p.first then p.firstOrder else p.secondOrder
    ensures Collides(Offsets(t, p), p.first, p.secondOrder)
      || Collides(SetOrder(Offsets(t, p), p.first, p.secondOrder), p.second, p.firstOrder)
  {
    assert Offsets(t, p)[other] == t[other];
    assert SetOrder(Offsets(t, p), p.first, p.secondOrder)[other] == t[other];
  }

  lemma DisjointPrefix(pairs: seq<Pair>, n: nat)
    requires n < |pairs| && PairwiseDisjoint(pairs[..n])
    ensures PairwiseDisjoint(pairs[..n + 1]) <==> forall k :: 0 <= k < n ==> Disjoint(pairs[k], pairs[n])
    ensures PairwiseDisjoint(pairs) ==> PairwiseDisjoint(pairs[..n + 1])
  {
  }

  /**
   A pair's updates fit exactly when it shares no row with an earlier pair and could be raised
   in the table the query saw.
   */
  lemma FitsIffDisjoint(was: Table, t: Table, pairs: seq<Pair>, n: nat, flip: bool)
    requires n < |pairs| && Before(was, t, pairs, n)
    ensures pairs[n].first in t && pairs[n].second in t
    ensures Fits(t, pairs[n], flip) <==>
      (forall k :: 0 <= k < n ==> Disjoint(pairs[k], pairs[n])) && Raisable(was, pairs[n], flip)
  {
    assert Snapshot(was, pairs[n]);
    if k :| 0 <= k < n && !Disjoint(pairs[k], pairs[n]) {
      SharedRowCollides(was, t, pairs, n, k, flip);
    } else {
      RaisableIsStable(was, t, pairs, n, flip);
      SeenPairFits(t, pairs[n], flip);
    }
  }

  lemma SwapExtends(was: Table, t: Table, pairs: seq<Pair>, n: nat, next: Table)
    requires n < |pairs| && Before(was, t, pairs, n)
    requires forall k :: 0 <= k < n ==> Disjoint(pairs[k], pairs[n])
    requires next.Keys == t.Keys && (forall i :: i in t && !Touches(pairs[n], i) ==> next[i] == t[i])
    requires pairs[n].first in t && next[pairs[n].first] == t[pairs[n].first].(order := pairs[n].secondOrder)
    requires pairs[n].second in t && next[pairs[n].second] == t[pairs[n].second].(order := pairs[n].firstOrder)
    ensures Swapped(was, next, pairs, n + 1)
  {
    var p := pairs[n];
    assert t[p.first] == was[p.first] && t[p.second] == was[p.second];
    forall k | 0 <= k < n + 1
      ensures next[pairs[k].first] == was[pairs[k].first].(order := pairs[k].secondOrder)
           && next[pairs[k].second] == was[pairs[k].second].(order := pairs[k].firstOrder)
    {
      assert Snapshot(was, pairs[k]);
    }
    forall i | i in was && forall k :: 0 <= k < n + 1 ==> !Touches(pairs[k], i)
      ensures next[i] == was[i]
    {
      assert !Touches(pairs[n], i);
    }
  }

  class Timeline {
    var events: Table

    constructor (initial: Table)
      ensures events == initial
    {
      events := initial;
    }

    /**
     Swaps every pair in one transaction. It commits exactly when no two pairs
     share a row and every pair can be raised; then each pair is in the right
     order and no other row moved. `flips` is the order in which the database
     takes the two rows of a raising statement.
     */
    method SwapTimelinePairs(pairs: seq<Pair>, flips: nat -> bool, confirm: bool) returns (committed: bool)
      requires Schema(events)
      requires DistinctPairs(pairs) && forall k :: 0 <= k < |pairs| ==> Snapshot(events, pairs[k])
      modifies this
      ensures Schema(events)
      ensures committed <==>
        confirm && PairwiseDisjoint(pairs) && forall k :: 0 <= k < |pairs| ==> Raisable(old(events), pairs[k], flips(k))
      ensures !committed ==> events == old(events)
      ensures committed ==> Swapped(old(events), events, pairs, |pairs|)
    {
      if !confirm {
        return false;
      }
      var tx := events;
      for n := 0 to |pairs|
        invariant Schema(tx) && Swapped(events, tx, pairs, n) && PairwiseDisjoint(pairs[..n])
        invariant forall k :: 0 <= k < n ==> Raisable(events, pairs[k], flips(k))
        invariant events == old(events)
      {
        assert Snapshot(events, pairs[n]) && Before(events, tx, pairs, n);
        FitsIffDisjoint(events, tx, pairs, n, flips(n));
        DisjointPrefix(pairs, n);
        var next := SwapOne(tx, pairs[n], flips(n));
        if next.None? {
          return false;
        }
        ExchangedRows(tx, pairs[n]);
        SwapExtends(events, tx, pairs, n, next.value);
        tx := next.value;
      }
      assert pairs[..|pairs|] == pairs;
      events := tx;
      return true;
    }
  }

  /** While orders stay within the offset, every pair can be raised, in whatever order its rows are taken. */
  lemma SmallOrdersRaise(t: Table, p: Pair, flip: bool)
    requires Snapshot(t, p) && forall i :: i in t ==> 1 <= t[i].order <= 1000
    ensures Raisable(t, p, flip)
  {
  }

  /** Two rows exactly an offset apart can be swapped only if the later one is raised first. */
  lemma OffsetApart()
    ensures var e := Event(0, "", None, None, 1);
      var t: Table := map[0 := e.(order := 1001), 1 := e];
      var p := Pair(0, 1001, 1, 1);
      Schema(t) && Snapshot(t, p) && Raisable(t, p, false) && !Raisable(t, p, true)
  {
  }

  /** A committed swap puts each pair in the right order and hands on exactly the orders the two rows had. */
  lemma SwappedPairsInOrder(was: Table, t: Table, pairs: seq<Pair>, k: nat)
    requires k < |pairs| && Snapshot(was, pairs[k]) && Swapped(was, t, pairs, |pairs|)
    ensures t[pairs[k].first].order < t[pairs[k].second].order
    ensures t[pairs[k].first].order == was[pairs[k].second].order
      && t[pairs[k].second].order == was[pairs[k].first].order
  {
  }
}
