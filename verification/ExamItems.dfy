/**
 The nested swap loop of normalizeProgramInput (`admissions/model.go`), which
 exchanges the sort orders of a 面試 item and a 書面審查 item wherever the
 former is ordered first, writing through the caller's slice.
 */
module ExamItems {
  import opened Wrappers
  import opened Text

  const INTERVIEW := "面試"
  const REVIEW := "書面審查"

  datatype ExamItem = ExamItem(
    name: string, stage: string, sortOrder: int, weightPercent: Option<real>, multiplier: Option<real>,
    description: string, sourcePage: string)
  {
    predicate Interviews() { Contains(name, INTERVIEW) }
    predicate Reviews() { Contains(name, REVIEW) }
  }

  // ---- the loop on sort orders -----------------------------------------------

  /** Which positions interview and which review; names do not change, so neither do these. */
  datatype Marks = Marks(interviews: seq<bool>, reviews: seq<bool>) {
    ghost predicate Fits(orders: seq<int>) {
      |interviews| == |orders| == |reviews|
    }

    /** Interviews and does not review. */
    predicate Pure(i: nat)
      requires i < |interviews| && i < |reviews|
    {
      interviews[i] && !reviews[i]
    }

    /** Reviews and does not interview. */
    predicate ReviewsOnly(i: nat)
      requires i < |interviews| && i < |reviews|
    {
      reviews[i] && !interviews[i]
    }

    predicate Both(i: nat)
      requires i < |interviews| && i < |reviews|
    {
      interviews[i] && reviews[i]
    }

    ghost predicate NoneBoth()
      requires |interviews| == |reviews|
    {
      forall i :: 0 <= i < |interviews| ==> !(interviews[i] && reviews[i])
    }

    ghost predicate AllBoth()
      requires |interviews| == |reviews|
    {
      forall i :: 0 <= i < |interviews| ==> interviews[i] && reviews[i]
    }
  }

  function Exchange(m: Marks, orders: seq<int>, i: nat, j: nat): (r: seq<int>)
    requires m.Fits(orders) && i < |orders| && j < |orders|
    ensures |r| == |orders|
  {
    if m.interviews[i] && m.reviews[j] && orders[i] < orders[j]
    then orders[i := orders[j]][j := orders[i]]
    else orders
  }

  /** The inner loop from j on, for a fixed i. */
  function Inner(m: Marks, orders: seq<int>, i: nat, j: nat): (r: seq<int>)
    requires m.Fits(orders) && i < |orders| && j <= |orders|
    ensures |r| == |orders|
    decreases |orders| - j
  {
    if j == |orders| then orders else Inner(m, Exchange(m, orders, i, j), i, j + 1)
  }

  /** The outer loop from i on. */
  function Outer(m: Marks, orders: seq<int>, i: nat): (r: seq<int>)
    requires m.Fits(orders) && i <= |orders|
    ensures |r| == |orders|
    decreases |orders| - i
  {
    if i == |orders| then orders else Outer(m, Inner(m, orders, i, 0), i + 1)
  }

  // ---- permutation -----------------------------------------------------------

  ghost predicate NoRepeats(orders: seq<int>) {
    forall a, b :: 0 <= a < b < |orders| ==> orders[a] != orders[b]
  }

  ghost predicate AtLeastOne(orders: seq<int>) {
    forall a :: 0 <= a < |orders| ==> orders[a] >= 1
  }

  /** What a permutation of orders carries over. */
  ghost predicate Rearranged(before: seq<int>, after: seq<int>) {
    && multiset(after) == multiset(before)
    && (NoRepeats(before) ==> NoRepeats(after))
    && (AtLeastOne(before) ==> AtLeastOne(after))
  }

  lemma TwiceInMultiset(orders: seq<int>, a: nat, b: nat)
    requires a < b < |orders| && orders[a] == orders[b]
    ensures multiset(orders)[orders[a]] >= 2
  {
    assert orders == orders[..b] + [orders[b]] + orders[b + 1..];
    assert orders[..b][a] == orders[a] && orders[a] in orders[..b];
  }

  lemma {:induction false} OnceInMultiset(orders: seq<int>, x: int)
    requires NoRepeats(orders)
    ensures multiset(orders)[x] <= 1
    decreases |orders|
  {
    if orders != [] {
      var n := |orders| - 1;
      assert orders == orders[..n] + [orders[n]];
      OnceInMultiset(orders[..n], x);
      forall a | 0 <= a < n ensures orders[..n][a] != orders[n] {
        assert orders[..n][a] == orders[a];
      }
      assert orders[n] !in orders[..n];
    }
  }

  /** Whether orders repeat does not depend on where they stand. */
  lemma NoRepeatsByMultiset(before: seq<int>, after: seq<int>)
    requires multiset(after) == multiset(before) && NoRepeats(after)
    ensures NoRepeats(before)
  {
    forall a, b | 0 <= a < b < |before| ensures before[a] != before[b] {
      if before[a] == before[b] {
        TwiceInMultiset(before, a, b);
        OnceInMultiset(after, before[a]);
      }
    }
  }

  lemma ExchangeRearranges(m: Marks, orders: seq<int>, i: nat, j: nat)
    requires m.Fits(orders) && i < |orders| && j < |orders|
    ensures Rearranged(orders, Exchange(m, orders, i, j))
  {
  }

  lemma {:induction false} InnerRearranges(m: Marks, orders: seq<int>, i: nat, j: nat)
    requires m.Fits(orders) && i < |orders| && j <= |orders|
    ensures Rearranged(orders, Inner(m, orders, i, j))
    decreases |orders| - j
  {
    if j < |orders| {
      ExchangeRearranges(m, orders, i, j);
      InnerRearranges(m, Exchange(m, orders, i, j), i, j + 1);
    }
  }

  /** The loop only moves sort orders between items: same multiset, still distinct, still positive. */
  lemma {:induction false} OuterRearranges(m: Marks, orders: seq<int>, i: nat)
    requires m.Fits(orders) && i <= |orders|
    ensures Rearranged(orders, Outer(m, orders, i))
    decreases |orders| - i
  {
    if i < |orders| {
      InnerRearranges(m, orders, i, 0);
      OuterRearranges(m, Inner(m, orders, i, 0), i + 1);
    }
  }

  // ---- interviews come last ----------------------------------------------------

  /** Position k is ordered no earlier than any reviewing position below `upTo`. */
  ghost predicate After(m: Marks, orders: seq<int>, k: nat, upTo: nat)
    requires m.Fits(orders) && k < |orders| && upTo <= |orders|
  {
    forall j :: 0 <= j < upTo && m.reviews[j] ==> orders[k] >= orders[j]
  }

  /** One inner loop puts its own interview after every review, and leaves the earlier ones there. */
  lemma {:induction false} InnerPlaces(m: Marks, orders: seq<int>, i: nat, j: nat, k: nat)
    requires m.Fits(orders) && i < |orders| && j <= |orders| && k < |orders| && m.Pure(k)
    requires After(m, orders, k, if k == i then j else |orders|)
    ensures After(m, Inner(m, orders, i, j), k, |orders|)
    decreases |orders| - j
  {
    if j < |orders| && (k == i || m.interviews[i]) {
      InnerPlaces(m, Exchange(m, orders, i, j), i, j + 1, k);
    } else if j < |orders| {
      assert Exchange(m, orders, i, j) == orders;
      InnerPlaces(m, orders, i, j + 1, k);
    }
  }

  lemma {:induction false} OuterPlaces(m: Marks, orders: seq<int>, i: nat, k: nat)
    requires m.Fits(orders) && i <= |orders| && k < |orders| && m.Pure(k)
    requires k < i ==> After(m, orders, k, |orders|)
    ensures After(m, Outer(m, orders, i), k, |orders|)
    decreases |orders| - i
  {
    if i < |orders| {
      if k <= i {
        InnerPlaces(m, orders, i, 0, k);
      }
      OuterPlaces(m, Inner(m, orders, i, 0), i + 1, k);
    }
  }

  /**
   Every item that interviews and does not review ends no earlier than every
   reviewing item, strictly later if orders are distinct.
   */
  lemma InterviewsEndLast(m: Marks, orders: seq<int>, k: nat, j: nat)
    requires m.Fits(orders) && k < |orders| && j < |orders| && m.Pure(k) && m.reviews[j]
    ensures Outer(m, orders, 0)[k] >= Outer(m, orders, 0)[j]
    ensures NoRepeats(orders) ==> Outer(m, orders, 0)[k] > Outer(m, orders, 0)[j]
  {
    OuterPlaces(m, orders, 0, k);
    OuterRearranges(m, orders, 0);
    assert k != j;
  }

  // ---- what never rises ------------------------------------------------------------

  /** A position that reviews and does not interview can only lose its order for a smaller one. */
  lemma {:induction false} InnerFalls(m: Marks, orders: seq<int>, i: nat, j: nat, k: nat)
    requires m.Fits(orders) && i < |orders| && j <= |orders| && k < |orders| && m.ReviewsOnly(k)
    ensures Inner(m, orders, i, j)[k] <= orders[k]
    decreases |orders| - j
  {
    if j < |orders| {
      InnerFalls(m, Exchange(m, orders, i, j), i, j + 1, k);
    }
  }

  lemma {:induction false} OuterFalls(m: Marks, orders: seq<int>, i: nat, k: nat)
    requires m.Fits(orders) && i <= |orders| && k < |orders| && m.ReviewsOnly(k)
    ensures Outer(m, orders, i)[k] <= orders[k]
    decreases |orders| - i
  {
    if i < |orders| {
      InnerFalls(m, orders, i, 0, k);
      OuterFalls(m, Inner(m, orders, i, 0), i + 1, k);
    }
  }

  /** The rest of the run leaves every review-only position as it is. */
  ghost predicate Still(m: Marks, orders: seq<int>, i: nat, j: nat)
    requires m.Fits(orders) && i < |orders| && j <= |orders|
  {
    forall k :: 0 <= k < |orders| && m.ReviewsOnly(k) ==> Outer(m, Inner(m, orders, i, j), i + 1)[k] == orders[k]
  }

  /** Then it exchanges with none of them. */
  lemma StillSkips(m: Marks, orders: seq<int>, i: nat, j: nat)
    requires m.Fits(orders) && i < |orders| && j < |orders| && Still(m, orders, i, j)
    ensures m.ReviewsOnly(j) ==> Exchange(m, orders, i, j) == orders
    ensures Still(m, Exchange(m, orders, i, j), i, j + 1)
  {
    var next := Exchange(m, orders, i, j);
    if m.ReviewsOnly(j) {
      InnerFalls(m, next, i, j + 1, j);
      OuterFalls(m, Inner(m, next, i, j + 1), i + 1, j);
    }
  }

  // ---- (a) interviews last ------------------------------------------------------------

  ghost predicate InterviewsLast(m: Marks, orders: seq<int>)
    requires m.Fits(orders)
  {
    forall i, j :: 0 <= i < |orders| && 0 <= j < |orders| && m.Pure(i) && m.reviews[j] ==> orders[i] >= orders[j]
  }

  lemma ExchangeKeepsLast(m: Marks, orders: seq<int>, i: nat, j: nat)
    requires m.Fits(orders) && i < |orders| && j < |orders| && InterviewsLast(m, orders)
    ensures InterviewsLast(m, Exchange(m, orders, i, j))
    ensures !m.Both(i) ==> Exchange(m, orders, i, j) == orders
  {
  }

  lemma {:induction false} InnerKeepsLast(m: Marks, orders: seq<int>, i: nat, j: nat)
    requires m.Fits(orders) && i < |orders| && j <= |orders| && InterviewsLast(m, orders)
    ensures InterviewsLast(m, Inner(m, orders, i, j))
    ensures !m.Both(i) ==> Inner(m, orders, i, j) == orders
    decreases |orders| - j
  {
    if j < |orders| {
      ExchangeKeepsLast(m, orders, i, j);
      InnerKeepsLast(m, Exchange(m, orders, i, j), i, j + 1);
    }
  }

  // ---- (b) both-word positions ascend ---------------------------------------------------

  ghost predicate BothAscend(m: Marks, orders: seq<int>, n: nat)
    requires m.Fits(orders) && n <= |orders|
  {
    forall a, b :: 0 <= a < b < n && m.Both(a) && m.Both(b) ==> orders[a] <= orders[b]
  }

  ghost predicate BothBounded(m: Marks, orders: seq<int>, top: int)
    requires m.Fits(orders)
  {
    forall a :: 0 <= a < |orders| && m.Both(a) ==> orders[a] <= top
  }

  /** The last both-word position below k, or -1. */
  function PrevBoth(m: Marks, k: nat): (q: int)
    requires k <= |m.interviews| == |m.reviews|
    ensures -1 <= q < k && (q >= 0 ==> m.Both(q))
    ensures forall a :: q < a < k ==> !m.Both(a)
  {
    if k == 0 then -1 else if m.Both(k - 1) then k - 1 else PrevBoth(m, k - 1)
  }

  /** The first both-word position collects the largest of their orders. */
  lemma {:induction false} FirstBothTakesTop(m: Marks, orders: seq<int>, i: nat, j: nat)
    requires m.Fits(orders) && i < |orders| && j <= |orders| && m.Both(i) && Still(m, orders, i, j)
    requires forall a :: 0 <= a < j && m.Both(a) ==> orders[a] <= orders[i]
    ensures BothBounded(m, Inner(m, orders, i, j), Inner(m, orders, i, j)[i])
    decreases |orders| - j
  {
    if j < |orders| {
      StillSkips(m, orders, i, j);
      FirstBothTakesTop(m, Exchange(m, orders, i, j), i, j + 1);
    }
  }

  /** Holding the largest order, a position exchanges with no both-word position. */
  lemma {:induction false} TopIdles(m: Marks, orders: seq<int>, i: nat, j: nat)
    requires m.Fits(orders) && i < |orders| && j <= |orders| && m.Both(i) && Still(m, orders, i, j)
    requires BothBounded(m, orders, orders[i])
    ensures Inner(m, orders, i, j) == orders
    decreases |orders| - j
  {
    if j < |orders| {
      StillSkips(m, orders, i, j);
      assert Exchange(m, orders, i, j) == orders;
      TopIdles(m, orders, i, j + 1);
    }
  }

  /** What holds of the orders when i's sweep reaches j, with q the both-word position before i. */
  ghost predicate Inserting(m: Marks, orders: seq<int>, i: nat, j: nat, q: nat)
    requires m.Fits(orders) && i < |orders| && q < i && j <= q + 1
  {
    && BothAscend(m, orders, i) && BothBounded(m, orders, if j <= q then orders[q] else orders[i])
    && forall a :: 0 <= a < j && m.Both(a) ==> orders[a] <= orders[i]
  }

  lemma InsertsOn(m: Marks, orders: seq<int>, i: nat, j: nat, q: nat)
    requires m.Fits(orders) && i < |orders| && j <= q && m.Both(i) && q == PrevBoth(m, i)
      && Inserting(m, orders, i, j, q)
    requires m.ReviewsOnly(j) ==> Exchange(m, orders, i, j) == orders
    ensures Inserting(m, Exchange(m, orders, i, j), i, j + 1, q)
  {
    var next := Exchange(m, orders, i, j);
    forall a, b | 0 <= a < b < i && m.Both(a) && m.Both(b) ensures next[a] <= next[b] {
    }
  }

  /** Sweeping up to q inserts i's order into the ascending stretch and carries the largest out to i. */
  lemma {:induction false} InnerInserts(m: Marks, orders: seq<int>, i: nat, j: nat, q: nat)
    requires m.Fits(orders) && i < |orders| && j <= q + 1 && m.Both(i) && q == PrevBoth(m, i)
    requires Still(m, orders, i, j) && Inserting(m, orders, i, j, q)
    ensures var r := Inner(m, orders, i, j); BothAscend(m, r, i + 1) && BothBounded(m, r, r[i])
    decreases q + 1 - j
  {
    if j == q + 1 {
      TopIdles(m, orders, i, j);
      assert forall a :: q < a < i ==> !m.Both(a);
    } else {
      StillSkips(m, orders, i, j);
      InsertsOn(m, orders, i, j, q);
      InnerInserts(m, Exchange(m, orders, i, j), i, j + 1, q);
    }
  }

  lemma InnerAscends(m: Marks, orders: seq<int>, i: nat)
    requires m.Fits(orders) && i < |orders| && m.Both(i) && Still(m, orders, i, 0)
    requires BothAscend(m, orders, i) && (PrevBoth(m, i) >= 0 ==> BothBounded(m, orders, orders[PrevBoth(m, i)]))
    ensures var r := Inner(m, orders, i, 0); BothAscend(m, r, i + 1) && BothBounded(m, r, r[i])
  {
    if PrevBoth(m, i) >= 0 {
      InnerInserts(m, orders, i, 0, PrevBoth(m, i));
    } else {
      FirstBothTakesTop(m, orders, i, 0);
    }
  }

  /** A run that leaves the review-only positions alone leaves the both-word ones ascending. */
  lemma {:induction false} OuterAscends(m: Marks, orders: seq<int>, i: nat)
    requires m.Fits(orders) && i <= |orders| && InterviewsLast(m, orders)
    requires forall k :: 0 <= k < |orders| && m.ReviewsOnly(k) ==> Outer(m, orders, i)[k] == orders[k]
    requires BothAscend(m, orders, i) && (PrevBoth(m, i) >= 0 ==> BothBounded(m, orders, orders[PrevBoth(m, i)]))
    ensures BothAscend(m, Outer(m, orders, i), |orders|)
    decreases |orders| - i
  {
    if i < |orders| {
      var next := Inner(m, orders, i, 0);
      InnerKeepsLast(m, orders, i, 0);
      if m.Both(i) {
        InnerAscends(m, orders, i);
      }
      forall k | 0 <= k < |orders| && m.ReviewsOnly(k) ensures Outer(m, next, i + 1)[k] == next[k] {
        InnerFalls(m, orders, i, 0, k);
        OuterFalls(m, next, i + 1, k);
      }
      OuterAscends(m, next, i + 1);
    }
  }

  // ---- (c) review-only positions are capped -----------------------------------------------

  /** q is the both-word position nearest before r, or the first one of all if none precedes r. */
  predicate Caps(m: Marks, q: nat, r: nat)
    requires q < |m.interviews| == |m.reviews| && r < |m.interviews|
  {
    m.Both(q) && (q == PrevBoth(m, r) || (PrevBoth(m, r) == -1 && PrevBoth(m, q) == -1))
  }

  ghost predicate ReviewsCapped(m: Marks, orders: seq<int>)
    requires m.Fits(orders)
  {
    forall r, q {:trigger Caps(m, q, r)} ::
      0 <= r < |orders| && 0 <= q < |orders| && m.ReviewsOnly(r) && Caps(m, q, r) ==> orders[r] <= orders[q]
  }

  /** What the first both-word position holds when its sweep reaches j, the both-word orders ascending. */
  function Hand(m: Marks, orders: seq<int>, i: nat, j: nat): int
    requires m.Fits(orders) && i < |orders| && j <= |orders| && m.Both(i)
  {
    if j <= i then orders[i] else orders[PrevBoth(m, j)]
  }

  /** The orders at that moment: those swept have moved one both-word position on. */
  function Swept(m: Marks, orders: seq<int>, i: nat, j: nat): (r: seq<int>)
    requires m.Fits(orders) && i < |orders| && j <= |orders| && m.Both(i)
    ensures |r| == |orders|
  {
    seq(|orders|, k requires 0 <= k < |orders| =>
      if k == i then Hand(m, orders, i, j)
      else if m.Both(k) && i < k < j then orders[PrevBoth(m, k)]
      else orders[k])
  }

  lemma SweepsOn(m: Marks, orders: seq<int>, i: nat, j: nat)
    requires m.Fits(orders) && i < |orders| && j < |orders| && m.Both(i) && PrevBoth(m, i) == -1
    requires BothAscend(m, orders, |orders|) && (m.ReviewsOnly(j) ==> orders[j] <= Hand(m, orders, i, j))
    ensures Exchange(m, Swept(m, orders, i, j), i, j) == Swept(m, orders, i, j + 1)
  {
    var was, now := Swept(m, orders, i, j), Swept(m, orders, i, j + 1);
    var r := Exchange(m, was, i, j);
    forall k | 0 <= k < |orders| ensures r[k] == now[k] {
    }
  }

  /**
   If the rest of the run ends where it began, a review-only position is at most what the sweep
   holds when it gets there.
   */
  lemma SweepShowsCap(m: Marks, orders: seq<int>, i: nat, j: nat)
    requires m.Fits(orders) && i < |orders| && j < |orders| && m.Both(i) && m.ReviewsOnly(j)
    requires Outer(m, Inner(m, Swept(m, orders, i, j), i, j), i + 1) == orders
    ensures orders[j] <= Hand(m, orders, i, j)
  {
    var was := Swept(m, orders, i, j);
    var next := Exchange(m, was, i, j);
    InnerFalls(m, next, i, j + 1, j);
    OuterFalls(m, Inner(m, next, i, j + 1), i + 1, j);
    assert next[j] >= orders[j] == was[j];
  }

  lemma {:induction false} SweepShowsCaps(m: Marks, orders: seq<int>, i: nat, j: nat, r: nat)
    requires m.Fits(orders) && i < |orders| && j <= r < |orders| && m.Both(i) && PrevBoth(m, i) == -1
    requires BothAscend(m, orders, |orders|) && m.ReviewsOnly(r)
    requires Outer(m, Inner(m, Swept(m, orders, i, j), i, j), i + 1) == orders
    ensures orders[r] <= Hand(m, orders, i, r)
    decreases r - j
  {
    if m.ReviewsOnly(j) {
      SweepShowsCap(m, orders, i, j);
    }
    if j < r {
      SweepsOn(m, orders, i, j);
      SweepShowsCaps(m, orders, i, j + 1, r);
    }
  }

  /** Until the first both-word position nothing moves. */
  lemma {:induction false} NothingBeforeFirst(m: Marks, orders: seq<int>, i: nat, first: nat)
    requires m.Fits(orders) && i <= first < |orders| && PrevBoth(m, first) == -1 && InterviewsLast(m, orders)
    ensures Outer(m, orders, i) == Outer(m, orders, first)
    decreases first - i
  {
    if i < first {
      InnerKeepsLast(m, orders, i, 0);
      NothingBeforeFirst(m, orders, i + 1, first);
    }
  }

  lemma {:induction false} FirstBoth(m: Marks, q: nat) returns (first: nat)
    requires q < |m.interviews| == |m.reviews| && m.Both(q)
    ensures first <= q && m.Both(first) && PrevBoth(m, first) == -1
    decreases q
  {
    first := q;
    if PrevBoth(m, q) >= 0 {
      first := FirstBoth(m, PrevBoth(m, q));
    }
  }

  lemma FixedIsCapped(m: Marks, orders: seq<int>, r: nat, q: nat)
    requires m.Fits(orders) && Outer(m, orders, 0) == orders && InterviewsLast(m, orders)
      && BothAscend(m, orders, |orders|)
    requires r < |orders| && q < |orders| && m.ReviewsOnly(r) && Caps(m, q, r)
    ensures orders[r] <= orders[q]
  {
    var first := FirstBoth(m, q);
    NothingBeforeFirst(m, orders, 0, first);
    assert Swept(m, orders, first, 0) == orders;
    SweepShowsCaps(m, orders, first, 0, r);
    assert Hand(m, orders, first, r) == orders[q];
  }

  // ---- and that is enough ---------------------------------------------------------------------

  /**
   The orders before outer turn i of a run that will end where it began: the
   both-word position last turned holds the largest, those before it are as at
   the start, and those to come have moved one both-word position on.
   */
  function Turned(m: Marks, orders: seq<int>, i: nat): (r: seq<int>)
    requires m.Fits(orders) && i <= |orders|
    ensures |r| == |orders|
  {
    seq(|orders|, k requires 0 <= k < |orders| =>
      if !m.Both(k) || PrevBoth(m, i) == -1 then orders[k]
      else if k == PrevBoth(m, i) then orders[PrevBoth(m, |orders|)]
      else if k < i then orders[k]
      else orders[PrevBoth(m, k)])
  }

  ghost predicate Fixed(m: Marks, orders: seq<int>)
    requires m.Fits(orders)
  {
    InterviewsLast(m, orders) && BothAscend(m, orders, |orders|) && ReviewsCapped(m, orders)
  }

  lemma TurnedKeepsLast(m: Marks, orders: seq<int>, i: nat)
    requires m.Fits(orders) && i <= |orders| && InterviewsLast(m, orders)
    ensures InterviewsLast(m, Turned(m, orders, i))
  {
    var r := Turned(m, orders, i);
    forall a, b | 0 <= a < |orders| && 0 <= b < |orders| && m.Pure(a) && m.reviews[b] ensures r[a] >= r[b] {
      assert r[a] == orders[a];
    }
  }

  /** A review-only order is at most what the first both-word position holds when it passes it. */
  lemma HandCaps(m: Marks, orders: seq<int>, i: nat, j: nat)
    requires m.Fits(orders) && i < |orders| && j < |orders| && m.Both(i) && PrevBoth(m, i) == -1
    requires ReviewsCapped(m, orders) && m.ReviewsOnly(j)
    ensures orders[j] <= Hand(m, orders, i, j)
  {
    if j <= i {
      assert Caps(m, i, j);
    } else {
      assert !(PrevBoth(m, j) < i);
      assert Caps(m, PrevBoth(m, j), j);
    }
  }

  /** The first both-word position's turn. */
  lemma {:induction false} FirstTurn(m: Marks, orders: seq<int>, i: nat, j: nat)
    requires m.Fits(orders) && i < |orders| && j <= |orders| && m.Both(i) && PrevBoth(m, i) == -1
    requires BothAscend(m, orders, |orders|) && ReviewsCapped(m, orders)
    ensures Inner(m, Swept(m, orders, i, j), i, j) == Swept(m, orders, i, |orders|)
    decreases |orders| - j
  {
    if j < |orders| {
      if m.ReviewsOnly(j) {
        HandCaps(m, orders, i, j);
      }
      SweepsOn(m, orders, i, j);
      FirstTurn(m, orders, i, j + 1);
    }
  }

  lemma FirstTurnTurns(m: Marks, orders: seq<int>, i: nat)
    requires m.Fits(orders) && i < |orders| && m.Both(i) && PrevBoth(m, i) == -1 && Fixed(m, orders)
    ensures Inner(m, Turned(m, orders, i), i, 0) == Turned(m, orders, i + 1)
  {
    assert Turned(m, orders, i) == Swept(m, orders, i, 0);
    FirstTurn(m, orders, i, 0);
    assert Turned(m, orders, i + 1) == Swept(m, orders, i, |orders|);
  }

  /** A capped order is at most that of every both-word position from its cap on, hence of every one after it. */
  lemma CappedBelow(m: Marks, orders: seq<int>, r: nat, q: nat)
    requires m.Fits(orders) && Fixed(m, orders) && r < q < |orders| && m.reviews[r] && m.Both(q)
    ensures orders[r] <= orders[q]
  {
    if m.ReviewsOnly(r) {
      if PrevBoth(m, r) >= 0 {
        assert Caps(m, PrevBoth(m, r), r);
      } else {
        var first := FirstBoth(m, q);
        assert Caps(m, first, r);
      }
    }
  }

  lemma CappedByLast(m: Marks, orders: seq<int>, r: nat)
    requires m.Fits(orders) && Fixed(m, orders) && r < |orders| && m.reviews[r] && PrevBoth(m, |orders|) >= 0
    ensures orders[r] <= orders[PrevBoth(m, |orders|)]
  {
    var last := PrevBoth(m, |orders|);
    if r < last {
      CappedBelow(m, orders, r, last);
    } else if r > last {
      assert !m.Both(r) && m.ReviewsOnly(r);
      assert m.Both(last) && !(PrevBoth(m, r) < last);
      assert PrevBoth(m, r) == last;
      assert Caps(m, last, r);
    }
  }

  /** A later turn: what i holds passes everything below q, takes the largest there, and passes everything else. */
  lemma LaterExchange(m: Marks, orders: seq<int>, i: nat, j: nat, q: nat)
    requires m.Fits(orders) && i < |orders| && j < |orders| && m.Both(i) && q == PrevBoth(m, i) && Fixed(m, orders)
    ensures Exchange(m, if j <= q then Turned(m, orders, i) else Turned(m, orders, i + 1), i, j)
         == if j < q then Turned(m, orders, i) else Turned(m, orders, i + 1)
  {
    var was, now := Turned(m, orders, i), Turned(m, orders, i + 1);
    if m.reviews[j] {
      CappedByLast(m, orders, j);
      if j < q {
        CappedBelow(m, orders, j, q);
      }
    }
    LaterMoves(m, orders, i, q);
    LaterHolds(m, orders, i, j, q);
  }

  /** The two states differ in q and i alone. */
  lemma LaterMoves(m: Marks, orders: seq<int>, i: nat, q: nat)
    requires m.Fits(orders) && i < |orders| && m.Both(i) && q == PrevBoth(m, i)
    ensures var was := Turned(m, orders, i);
      Turned(m, orders, i + 1) == was[q := orders[q]][i := orders[PrevBoth(m, |orders|)]]
      && was[i] == orders[q] && was[q] == orders[PrevBoth(m, |orders|)]
  {
    var was, now := Turned(m, orders, i), Turned(m, orders, i + 1);
    forall k | 0 <= k < |orders| && k != i && k != q ensures now[k] == was[k] {
    }
  }

  lemma LaterHolds(m: Marks, orders: seq<int>, i: nat, j: nat, q: nat)
    requires m.Fits(orders) && i < |orders| && j < |orders| && m.Both(i) && q == PrevBoth(m, i) && Fixed(m, orders)
    ensures j < q ==> Turned(m, orders, i)[j] == orders[j]
    ensures q < j && m.reviews[j] ==> Turned(m, orders, i + 1)[j] <= orders[PrevBoth(m, |orders|)]
  {
    if q < j && m.reviews[j] {
      CappedByLast(m, orders, j);
      if m.Both(j) && j > i {
        CappedByLast(m, orders, PrevBoth(m, j));
      }
    }
  }

  lemma {:induction false} LaterTurn(m: Marks, orders: seq<int>, i: nat, j: nat, q: nat)
    requires m.Fits(orders) && i < |orders| && j <= |orders| && m.Both(i) && q == PrevBoth(m, i) && Fixed(m, orders)
    ensures Inner(m, if j <= q then Turned(m, orders, i) else Turned(m, orders, i + 1), i, j)
      == Turned(m, orders, i + 1)
    decreases |orders| - j
  {
    if j < |orders| {
      LaterExchange(m, orders, i, j, q);
      LaterTurn(m, orders, i, j + 1, q);
    }
  }

  lemma {:induction false} FixedTurns(m: Marks, orders: seq<int>, i: nat)
    requires m.Fits(orders) && i <= |orders| && Fixed(m, orders)
    ensures Outer(m, Turned(m, orders, i), i) == orders
    decreases |orders| - i
  {
    if i == |orders| {
      assert Turned(m, orders, i) == orders;
    } else {
      if !m.Both(i) {
        TurnedKeepsLast(m, orders, i);
        InnerKeepsLast(m, Turned(m, orders, i), i, 0);
        assert Turned(m, orders, i + 1) == Turned(m, orders, i);
      } else if PrevBoth(m, i) == -1 {
        FirstTurnTurns(m, orders, i);
      } else {
        LaterTurn(m, orders, i, 0, PrevBoth(m, i));
      }
      FixedTurns(m, orders, i + 1);
    }
  }

  // ---- rerunning --------------------------------------------------------------------------------

  /**
   The loop changes nothing exactly when every interview-only order is at least
   every reviewing one, the both-word orders ascend by position, and every
   review-only order is at most that of the both-word position nearest before
   it, or of the first one if none precedes it.
   */
  lemma UnchangedExactlyWhen(m: Marks, orders: seq<int>)
    requires m.Fits(orders)
    ensures Outer(m, orders, 0) == orders <==> Fixed(m, orders)
  {
    if Outer(m, orders, 0) == orders {
      forall i, j | 0 <= i < |orders| && 0 <= j < |orders| && m.Pure(i) && m.reviews[j] ensures orders[i] >= orders[j] {
        InterviewsEndLast(m, orders, i, j);
      }
      OuterAscends(m, orders, 0);
      forall r, q | 0 <= r < |orders| && 0 <= q < |orders| && m.ReviewsOnly(r) && Caps(m, q, r)
        ensures orders[r] <= orders[q]
      {
        FixedIsCapped(m, orders, r, q);
      }
    }
    if Fixed(m, orders) {
      assert Turned(m, orders, 0) == orders;
      FixedTurns(m, orders, 0);
    }
  }

  /**
   A second run changes nothing exactly when the first leaves the both-word orders ascending and
   the review-only ones capped.
   */
  lemma RerunExactlyWhen(m: Marks, orders: seq<int>)
    requires m.Fits(orders)
    ensures var r := Outer(m, orders, 0); Outer(m, r, 0) == r <==> BothAscend(m, r, |r|) && ReviewsCapped(m, r)
  {
    var r := Outer(m, orders, 0);
    forall i, j | 0 <= i < |r| && 0 <= j < |r| && m.Pure(i) && m.reviews[j] ensures r[i] >= r[j] {
      InterviewsEndLast(m, orders, i, j);
    }
    UnchangedExactlyWhen(m, r);
  }

  /** In particular when no name has both words. */
  lemma RerunChangesNothing(m: Marks, orders: seq<int>)
    requires m.Fits(orders) && m.NoneBoth()
    ensures Outer(m, Outer(m, orders, 0), 0) == Outer(m, orders, 0)
  {
    RerunExactlyWhen(m, orders);
  }

  /** And when every name has: the loop is then a sort, and orders end ascending by position. */
  lemma OuterSorts(m: Marks, orders: seq<int>)
    requires m.Fits(orders) && m.AllBoth()
    ensures forall a, b :: 0 <= a < b < |orders| ==> Outer(m, orders, 0)[a] <= Outer(m, orders, 0)[b]
    ensures Outer(m, Outer(m, orders, 0), 0) == Outer(m, orders, 0)
  {
    OuterAscends(m, orders, 0);
    RerunExactlyWhen(m, orders);
  }

  /** One name with both words beside a review and an interview can break it: the second run moves orders again. */
  lemma BothWordsMoveAgain()
    ensures var m := Marks([true, false, true], [true, true, false]);
      Outer(m, [2, 3, 1], 0) == [1, 2, 3] && Outer(m, [1, 2, 3], 0) == [2, 1, 3]
  {
  }

  // ---- the loop as written --------------------------------------------------------

  function MarksOf(items: seq<ExamItem>): (m: Marks)
    ensures |m.interviews| == |items| == |m.reviews|
  {
    Marks(seq(|items|, i requires 0 <= i < |items| => items[i].Interviews()),
          seq(|items|, i requires 0 <= i < |items| => items[i].Reviews()))
  }

  function OrdersOf(items: seq<ExamItem>): (orders: seq<int>)
    ensures |orders| == |items|
  {
    seq(|items|, i requires 0 <= i < |items| => items[i].sortOrder)
  }

  function WithOrders(items: seq<ExamItem>, orders: seq<int>): (r: seq<ExamItem>)
    requires |orders| == |items|
    ensures |r| == |items| && OrdersOf(r) == orders && MarksOf(r) == MarksOf(items)
  {
    seq(|items|, i requires 0 <= i < |items| => items[i].(sortOrder := orders[i]))
  }

  lemma OwnOrders(items: seq<ExamItem>)
    ensures WithOrders(items, OrdersOf(items)) == items
  {
  }

  /** What the whole loop makes of a list of items. */
  function Reordered(items: seq<ExamItem>): (r: seq<ExamItem>)
    ensures |r| == |items|
  {
    WithOrders(items, Outer(MarksOf(items), OrdersOf(items), 0))
  }

  /** The loop hands the orders round among the items and changes nothing else of any. */
  lemma OnlyOrdersMove(items: seq<ExamItem>, i: nat)
    requires i < |items|
    ensures Reordered(items)[i] == items[i].(sortOrder := Reordered(items)[i].sortOrder)
    ensures multiset(OrdersOf(Reordered(items))) == multiset(OrdersOf(items))
  {
    OuterRearranges(MarksOf(items), OrdersOf(items), 0);
  }

  /**
   After the loop an item with 面試 in its name, and not 書面審查, is ordered no
   earlier than any with 書面審查, and strictly later if no two items shared an
   order.
   */
  lemma ReviewsComeFirst(items: seq<ExamItem>, k: nat, j: nat)
    requires k < |items| && j < |items|
    requires StandsIn("面試", items[k].name) && !StandsIn("書面審查", items[k].name)
    requires StandsIn("書面審查", items[j].name)
    ensures Reordered(items)[j].sortOrder <= Reordered(items)[k].sortOrder
    ensures (forall a, b :: 0 <= a < b < |items| ==> items[a].sortOrder != items[b].sortOrder) ==>
      Reordered(items)[j].sortOrder < Reordered(items)[k].sortOrder
  {
    var m, orders := MarksOf(items), OrdersOf(items);
    ContainsMeans(items[k].name, INTERVIEW);
    ContainsMeans(items[k].name, REVIEW);
    ContainsMeans(items[j].name, REVIEW);
    assert m.Pure(k) && m.reviews[j];
    InterviewsEndLast(m, orders, k, j);
    if forall a, b :: 0 <= a < b < |items| ==> items[a].sortOrder != items[b].sortOrder {
      assert NoRepeats(orders);
    }
  }

  /** One turn of the inner loop on the items themselves. */
  function ExchangeItems(items: seq<ExamItem>, i: nat, j: nat): (r: seq<ExamItem>)
    requires i < |items| && j < |items|
    ensures |r| == |items|
  {
    if items[i].Interviews() && items[j].Reviews() && items[i].sortOrder < items[j].sortOrder
    then items[i := items[i].(sortOrder := items[j].sortOrder)][j := items[j].(sortOrder := items[i].sortOrder)]
    else items
  }

  lemma ExchangeMovesOrders(was: seq<ExamItem>, orders: seq<int>, i: nat, j: nat)
    requires |orders| == |was| && i < |was| && j < |was|
    ensures ExchangeItems(WithOrders(was, orders), i, j) == WithOrders(was, Exchange(MarksOf(was), orders, i, j))
  {
  }

  method ExchangeInPlace(items: array<ExamItem>, i: nat, j: nat)
    requires i < items.Length && j < items.Length
    modifies items
    ensures items[..] == ExchangeItems(old(items[..]), i, j)
  {
    if items[i].Interviews() && items[j].Reviews() && items[i].sortOrder < items[j].sortOrder {
      items[i], items[j] := items[i].(sortOrder := items[j].sortOrder), items[j].(sortOrder := items[i].sortOrder);
    }
  }

  method OrderReviewsFirst(items: array<ExamItem>)
    modifies items
    ensures items[..] == Reordered(old(items[..]))
  {
    ghost var was := items[..];
    ghost var m := MarksOf(was);
    ghost var orders := OrdersOf(was);
    OwnOrders(was);
    for i := 0 to items.Length
      invariant |orders| == |was| && items[..] == WithOrders(was, orders)
      invariant Outer(m, orders, i) == Outer(m, OrdersOf(was), 0)
    {
      ghost var whole := Inner(m, orders, i, 0);
      for j := 0 to items.Length
        invariant |orders| == |was| && items[..] == WithOrders(was, orders)
        invariant Inner(m, orders, i, j) == whole
      {
        ExchangeMovesOrders(was, orders, i, j);
        ExchangeInPlace(items, i, j);
        orders := Exchange(m, orders, i, j);
      }
    }
  }
}
