/** Keyset paging over ids in database order: `WHERE id > after ORDER BY id LIMIT n`. */
module Paging {
  ghost predicate Ascending(ids: seq<nat>) {
    forall i, j :: 0 <= i < j < |ids| ==> ids[i] < ids[j]
  }

  ghost predicate Lists(ids: seq<nat>, s: set<nat>, upTo: int) {
    Ascending(ids) && forall id :: id in ids <==> id in s && id <= upTo
  }

  /** `ORDER BY id LIMIT limit` over the ids beyond `after`: a full page, or all that is left. */
  ghost predicate IsPage(ids: set<nat>, after: int, limit: nat, page: seq<nat>, last: int) {
    && Ascending(page) && |page| <= limit && after <= last
    && (forall id :: id in page <==> id in ids && after < id <= last)
    && (|page| < limit ==> forall id :: id in ids ==> id <= last)
    && (page != [] ==> last in page)
  }

  lemma {:induction false} Least(s: set<nat>) returns (m: nat)
    requires s != {}
    ensures m in s && forall y :: y in s ==> m <= y
    decreases |s|
  {
    var first :| first in s;
    m := first;
    var rest := s - {first};
    assert forall y :: y in s ==> y == first || y in rest;
    if rest != {} {
      var r := Least(rest);
      if r < m {
        m := r;
      }
    }
  }

  lemma PageGrows(ids: set<nat>, after: int, page: seq<nat>, last: int, next: nat)
    requires Ascending(page) && after <= last && forall id :: id in page <==> id in ids && after < id <= last
    requires next in ids && next > last && forall id :: id in ids && id > last ==> next <= id
    ensures Ascending(page + [next])
    ensures forall id :: id in page + [next] <==> id in ids && after < id <= next
  {
    assert forall i :: 0 <= i < |page| ==> page[i] in page;
  }

  method SelectPage(ids: set<nat>, after: int, limit: nat) returns (page: seq<nat>, last: int)
    requires limit >= 1
    ensures IsPage(ids, after, limit, page, last)
  {
    page, last := [], after;
    var rest := set id | id in ids && id > after;
    while rest != {} && |page| < limit
      invariant Ascending(page) && |page| <= limit && after <= last
      invariant forall id :: id in rest <==> id in ids && id > last
      invariant forall id :: id in page <==> id in ids && after < id <= last
      invariant page != [] ==> last in page
      decreases limit - |page|
    {
      ghost var least := Least(rest);
      var next :| next in rest && forall y :: y in rest ==> next <= y;
      PageGrows(ids, after, page, last, next);
      page, last := page + [next], next;
      rest := rest - {next};
    }
  }

  lemma {:induction false} AscendingCount(ids: seq<nat>, s: set<nat>)
    requires Ascending(ids) && forall id :: id in ids <==> id in s
    ensures |ids| == |s|
    decreases |ids|
  {
    if ids == [] {
      assert s == {};
    } else {
      var n := |ids| - 1;
      assert forall id :: id in ids[..n] ==> id in ids && id < ids[n];
      assert forall id :: id in ids ==> id in ids[..n] || id == ids[n];
      AscendingCount(ids[..n], s - {ids[n]});
    }
  }

  lemma ListsNextPage(visits: seq<nat>, s: set<nat>, after: int, more: seq<nat>, last: int)
    requires Lists(visits, s, after) && after <= last && Ascending(more)
    requires forall id :: id in more <==> id in s && after < id <= last
    ensures Lists(visits + more, s, last)
  {
    var all := visits + more;
    forall i, j | 0 <= i < j < |all|
      ensures all[i] < all[j]
    {
      assert i < |visits| ==> visits[i] in visits;
      assert j >= |visits| ==> more[j - |visits|] in more;
    }
  }

  ghost function FirstOf<T>(stale: seq<(nat, T)>): (ids: seq<nat>)
    ensures |ids| == |stale| && forall i :: 0 <= i < |ids| ==> ids[i] == stale[i].0
  {
    seq(|stale|, i requires 0 <= i < |stale| => stale[i].0)
  }

  /** A finished run has visited every row and counted every stale one. */
  lemma AllListed(visits: seq<nat>, rewrites: seq<nat>, rows: set<nat>, stale: set<nat>, last: int)
    requires Lists(visits, rows, last) && Lists(rewrites, stale, last) && stale <= rows
    requires forall id :: id in rows ==> id <= last
    ensures |visits| == |rows| && |rewrites| == |stale|
  {
    AscendingCount(visits, rows);
    AscendingCount(rewrites, stale);
  }

  lemma {:induction false} SubsetSize(a: set<nat>, b: set<nat>)
    requires a <= b
    ensures |a| <= |b|
    decreases |a|
  {
    if x :| x in a {
      SubsetSize(a - {x}, b - {x});
    }
  }
}
